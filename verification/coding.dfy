/**
 * The coding core shared by both controllers: the 8-by-6 generator matrix,
 * encoding a data row into a stripe, rotating a stripe across the drives,
 * choosing the rows of the error matrix from the surviving drives, and
 * rebuilding a stripe from any six of its eight symbols.
 */
module Coding {
  import opened GF256
  import opened Matrices

  /** Eight drives hold a stripe: six data symbols, then P, then Q. */
  const NumDrives: nat := 8
  const DataWidth: nat := 6

  // ------------------------------------------------------- generator matrix

  /** The generator matrix: identity on rows 0-5, all ones (P) on row 6 and
    * the coefficients 32, 16, 8, 4, 2, 1 (Q) on row 7. */
  const G: Matrix := [
    [1, 0, 0, 0, 0, 0],
    [0, 1, 0, 0, 0, 0],
    [0, 0, 1, 0, 0, 0],
    [0, 0, 0, 1, 0, 0],
    [0, 0, 0, 0, 1, 0],
    [0, 0, 0, 0, 0, 1],
    [1, 1, 1, 1, 1, 1],
    [32, 16, 8, 4, 2, 1]
  ]

  /** The generator matrix as built, with the facts decoding relies on: the
    * data rows are unit rows, P is all ones and the Q coefficients are
    * nonzero and pairwise distinct. */
  function GeneratorMatrix(): (g: Matrix)
    ensures IsMatrix(g, NumDrives, DataWidth)
    ensures forall k :: 0 <= k < DataWidth ==> g[k] == Unit(DataWidth, k)
    ensures forall k :: 0 <= k < DataWidth ==> g[6][k] == 1
    ensures forall k :: 0 <= k < DataWidth ==> g[7][k] != 0
    ensures forall j, k :: 0 <= j < k < DataWidth ==> g[7][j] != g[7][k]
  {
    assert forall k :: 0 <= k < DataWidth ==> G[k] == Unit(DataWidth, k) by {
      forall k | 0 <= k < DataWidth ensures G[k] == Unit(DataWidth, k) {}
    }
    G
  }

  /** compute_parity: the stripe G * d of a data row d. The code is
    * systematic: the stripe starts with the data row itself. */
  function Encode(d: Vector): (s: Vector)
    requires |d| == DataWidth
    ensures |s| == NumDrives
    ensures s[..DataWidth] == d
  {
    var g := GeneratorMatrix();
    assert forall k :: 0 <= k < DataWidth ==> MatVec(g, d)[k] == d[k] by {
      forall k | 0 <= k < DataWidth ensures MatVec(g, d)[k] == d[k] {
        DotUnit(d, k);
        DotComm(d, Unit(DataWidth, k));
      }
    }
    MatVec(g, d)
  }

  /** One term of an inner product peeled off at position k. */
  lemma DotAt(u: Vector, v: Vector, k: nat)
    requires |u| == |v| && k < |u|
    ensures Dot(u[k..], v[k..]) == Add(Mul(u[k], v[k]), Dot(u[k + 1..], v[k + 1..]))
  {
    DotCons(u[k..], v[k..]);
    assert u[k..][1..] == u[k + 1..];
    assert v[k..][1..] == v[k + 1..];
  }

  /** Six-term inner product, written out. */
  lemma Dot6(u: Vector, v: Vector)
    requires |u| == |v| == 6
    ensures Dot(u, v) == Add(Mul(u[0], v[0]), Add(Mul(u[1], v[1]), Add(Mul(u[2], v[2]),
                         Add(Mul(u[3], v[3]), Add(Mul(u[4], v[4]), Add(Mul(u[5], v[5]), 0))))))
  {
    assert u[0..] == u && v[0..] == v;
    DotAt(u, v, 0);
    DotAt(u, v, 1);
    DotAt(u, v, 2);
    DotAt(u, v, 3);
    DotAt(u, v, 4);
    DotAt(u, v, 5);
    assert Dot(u[6..], v[6..]) == 0;
  }

  lemma EncodeP(d: Vector)
    requires |d| == DataWidth
    ensures Encode(d)[6] == Add(d[0], Add(d[1], Add(d[2], Add(d[3], Add(d[4], d[5])))))
  {
    var p := GeneratorMatrix()[6];
    Dot6(p, d);
    MulOneLeft(d[0]); MulOneLeft(d[1]); MulOneLeft(d[2]);
    MulOneLeft(d[3]); MulOneLeft(d[4]); MulOneLeft(d[5]);
    AddZero(d[5]);
  }

  lemma EncodeQ(d: Vector)
    requires |d| == DataWidth
    ensures Encode(d)[7] == Add(Mul(32, d[0]), Add(Mul(16, d[1]), Add(Mul(8, d[2]),
                              Add(Mul(4, d[3]), Add(Mul(2, d[4]), d[5])))))
  {
    var q := GeneratorMatrix()[7];
    Dot6(q, d);
    MulOneLeft(d[5]);
    AddZero(d[5]);
  }

  /** The code is systematic: the stripe starts with the data row itself,
    * followed by P = d0 + ... + d5 and Q = 32 d0 + 16 d1 + 8 d2 + 4 d3 + 2 d4 + d5. */
  lemma EncodeSystematic(d: Vector)
    requires |d| == DataWidth
    ensures Encode(d)[..DataWidth] == d
    ensures Encode(d)[6] == Add(d[0], Add(d[1], Add(d[2], Add(d[3], Add(d[4], d[5])))))
    ensures Encode(d)[7] == Add(Mul(32, d[0]), Add(Mul(16, d[1]), Add(Mul(8, d[2]),
                              Add(Mul(4, d[3]), Add(Mul(2, d[4]), d[5])))))
  {
    EncodeP(d);
    EncodeQ(d);
  }

  /** An all-zero data row encodes to an all-zero stripe. */
  lemma EncodeZero()
    ensures Encode(Zero(DataWidth)) == Zero(NumDrives)
  {
    var g := GeneratorMatrix();
    forall r | 0 <= r < NumDrives ensures Encode(Zero(DataWidth))[r] == 0 {
      DotZeroRight(g[r], Zero(DataWidth));
    }
  }

  // --------------------------------------------------------------- rotation

  /** numpy's roll: entry i of the result is entry (i - k) mod |s| of s, so
    * every entry moves k places to the right, wrapping around. */
  function Roll<T>(s: seq<T>, k: int): (r: seq<T>)
    ensures |r| == |s|
    ensures forall i {:trigger r[i]} :: 0 <= i < |s| ==> r[i] == s[(i - k) % |s|]
  {
    if |s| == 0 then [] else seq(|s|, i requires 0 <= i < |s| => s[(i - k) % |s|])
  }

  /** The all-zero data row gives the all-zero stripe under any rotation. */
  lemma ZeroStripe(k: int)
    ensures Roll(Encode(Zero(DataWidth)), k) == Zero(NumDrives)
  {
    EncodeZero();
    var r := Roll(Zero(NumDrives), k);
    forall i | 0 <= i < NumDrives ensures r[i] == 0 {
      assert r[i] == Zero(NumDrives)[(i - k) % NumDrives];
    }
  }

  lemma MulAtLeast(t: int, n: int)
    requires 1 <= t && 0 < n
    ensures t * n >= n
    decreases t
  {
    if t > 1 {
      MulAtLeast(t - 1, n);
      assert t * n == (t - 1) * n + n;
    }
  }

  /** Euclidean division is unique. */
  lemma DivModUnique(x: int, q: int, n: int, r: int)
    requires 0 < n && 0 <= r < n && x == q * n + r
    ensures x % n == r && x / n == q
  {
    var q' := x / n;
    var r' := x % n;
    assert x == q' * n + r';
    assert (q - q') * n == r' - r;
    if q > q' {
      MulAtLeast(q - q', n);
    } else if q < q' {
      MulAtLeast(q' - q, n);
    }
  }

  /** Adding a multiple of n does not change the residue. */
  lemma ModAddMultiple(y: int, m: int, n: int)
    requires 0 < n
    ensures (y + m * n) % n == y % n
  {
    DivModUnique(y + m * n, y / n + m, n, y % n);
  }

  lemma ModSub(x: int, a: int, n: int)
    requires 0 < n
    ensures (x % n - a) % n == (x - a) % n
  {
    ModAddMultiple(x - a, -(x / n), n);
  }

  /** Rolling back by -k undoes a roll by k. */
  lemma RollInverse<T>(s: seq<T>, k: int)
    ensures Roll(Roll(s, k), -k) == s
  {
    var n := |s|;
    var r := Roll(s, k);
    forall i | 0 <= i < n ensures Roll(r, -k)[i] == s[i] {
      var j := (i + k) % n;
      assert Roll(r, -k)[i] == r[j];
      assert r[j] == s[(j - k) % n];
      ModSub(i + k, k, n);
      DivModUnique(i, 0, n, i);
      assert (j - k) % n == i;
    }
  }

  // ----------------------------------------------------- choosing survivors

  /** sum() of a list of 0/1 flags. */
  function Ones(f: seq<bool>): (n: nat)
    ensures n <= |f|
  {
    if |f| == 0 then 0 else Ones(f[..|f| - 1]) + (if f[|f| - 1] then 1 else 0)
  }

  /** The indices whose flag is set, in increasing order. */
  function Survivors(f: seq<bool>): (r: seq<nat>)
    ensures |r| == Ones(f)
    ensures forall k :: 0 <= k < |r| ==> r[k] < |f| && f[r[k]]
  {
    if |f| == 0 then [] else Survivors(f[..|f| - 1]) + (if f[|f| - 1] then [|f| - 1] else [])
  }

  /** Every index whose flag is set survives. */
  lemma {:induction false} SurvivorsComplete(f: seq<bool>, t: nat)
    requires t < |f| && f[t]
    ensures t in Survivors(f)
    decreases |f|
  {
    if t < |f| - 1 {
      SurvivorsComplete(f[..|f| - 1], t);
    }
  }

  /** Survivors are listed in drive order. */
  lemma {:induction false} SurvivorsIncreasing(f: seq<bool>)
    ensures forall k, l :: 0 <= k < l < |Survivors(f)| ==> Survivors(f)[k] < Survivors(f)[l]
    decreases |f|
  {
    if |f| > 0 {
      SurvivorsIncreasing(f[..|f| - 1]);
    }
  }

  /** The entries of s at the given positions, in that order. */
  function Gather(s: Vector, idx: seq<nat>): (g: Vector)
    requires forall k :: 0 <= k < |idx| ==> idx[k] < |s|
    ensures |g| == |idx| && forall k :: 0 <= k < |idx| ==> g[k] == s[idx[k]]
  {
    seq(|idx|, k requires 0 <= k < |idx| => s[idx[k]])
  }

  /** [0, 1, ..., n-1] */
  function Iota(n: nat): (r: seq<int>)
    ensures |r| == n && forall i :: 0 <= i < n ==> r[i] == i
  {
    seq(n, i => i)
  }

  /** The elements el of order, in order, with rem[el] set. */
  function KeepIf(order: seq<int>, rem: seq<bool>): (r: seq<int>)
    requires forall k :: 0 <= k < |order| ==> 0 <= order[k] < |rem|
    ensures forall k :: 0 <= k < |r| ==> 0 <= r[k] < |rem|
  {
    if |order| == 0 then []
    else KeepIf(order[..|order| - 1], rem) + (if rem[order[|order| - 1]] then [order[|order| - 1]] else [])
  }

  /** rows_ordered for stripe i: drive flags rem_fixed rolled back by i,
    * drive numbers rolled forward by i, keeping the numbers whose flag is set. */
  function RowsOrdered(remFixed: seq<bool>, i: int): (r: seq<int>)
    requires |remFixed| == NumDrives
    ensures forall k :: 0 <= k < |r| ==> 0 <= r[k] < NumDrives
    ensures r == LogicalRows(Survivors(remFixed), i)
  {
    var rem := Roll(remFixed, -i);
    var order := Roll(Iota(NumDrives), i);
    RowsOrderedAll(remFixed, i);
    KeepIf(order, rem)
  }

  /** The logical row (t - i) mod 8 of each drive t in ts. */
  function LogicalRows(ts: seq<nat>, i: int): (r: seq<int>)
    ensures |r| == |ts| && forall k {:trigger r[k]} :: 0 <= k < |ts| ==> r[k] == (ts[k] - i) % NumDrives
  {
    seq(|ts|, k requires 0 <= k < |ts| => (ts[k] - i) % NumDrives)
  }

  /** Drive t holds logical row (t - i) mod 8 of stripe i, and the rolled
    * flags put drive t's flag at that row. */
  lemma RollStep(f: seq<bool>, i: int, t: nat)
    requires |f| == NumDrives && t < NumDrives
    ensures Roll(Iota(NumDrives), i)[t] == (t - i) % NumDrives
    ensures Roll(f, -i)[(t - i) % NumDrives] == f[t]
  {
    var row := (t - i) % NumDrives;
    RowBack(t, i);
    assert Roll(f, -i)[row] == f[(row - -i) % NumDrives];
  }

  /** Rolling row (t - i) mod 8 back by i returns to drive t. */
  lemma RowBack(t: nat, i: int)
    requires t < NumDrives
    ensures ((t - i) % NumDrives - -i) % NumDrives == t
  {
    ModSub(t - i, -i, NumDrives);
    assert t - i - -i == t;
    DivModUnique(t, 0, NumDrives, t);
  }

  lemma LogicalRowsAppend(a: seq<nat>, b: seq<nat>, i: int)
    ensures LogicalRows(a + b, i) == LogicalRows(a, i) + LogicalRows(b, i)
  {}

  lemma KeepIfSnoc(order: seq<int>, rem: seq<bool>, j: nat)
    requires forall k :: 0 <= k < |order| ==> 0 <= order[k] < |rem|
    requires 0 < j <= |order|
    ensures KeepIf(order[..j], rem)
            == KeepIf(order[..j - 1], rem) + (if rem[order[j - 1]] then [order[j - 1]] else [])
  {
    var o := order[..j];
    assert o[..j - 1] == order[..j - 1];
    assert o[j - 1] == order[j - 1];
  }

  lemma SurvivorsSnoc(f: seq<bool>, j: nat)
    requires 0 < j <= |f|
    ensures Survivors(f[..j]) == Survivors(f[..j - 1]) + (if f[j - 1] then [j - 1] else [])
  {
    assert f[..j][..j - 1] == f[..j - 1];
  }

  /** Drive t is kept by KeepIf exactly when Survivors keeps it, at its
    * logical row. */
  lemma KeepStep(f: seq<bool>, i: int, t: nat)
    requires |f| == NumDrives && t < NumDrives
    ensures var order := Roll(Iota(NumDrives), i);
            (if Roll(f, -i)[order[t]] then [order[t]] else [])
            == LogicalRows(if f[t] then [t] else [], i)
  {
    RollStep(f, i, t);
  }

  lemma {:induction false} RowsOrderedPrefix(f: seq<bool>, i: int, j: nat)
    requires |f| == NumDrives && j <= NumDrives
    ensures KeepIf(Roll(Iota(NumDrives), i)[..j], Roll(f, -i)) == LogicalRows(Survivors(f[..j]), i)
  {
    if j > 0 {
      var order := Roll(Iota(NumDrives), i);
      var rem := Roll(f, -i);
      RowsOrderedPrefix(f, i, j - 1);
      KeepIfSnoc(order, rem, j);
      SurvivorsSnoc(f, j);
      var tail: seq<nat> := if f[j - 1] then [j - 1] else [];
      KeepStep(f, i, j - 1);
      LogicalRowsAppend(Survivors(f[..j - 1]), tail, i);
    }
  }

  lemma RowsOrderedAll(f: seq<bool>, i: int)
    requires |f| == NumDrives
    ensures KeepIf(Roll(Iota(NumDrives), i), Roll(f, -i)) == LogicalRows(Survivors(f), i)
  {
    RowsOrderedPrefix(f, i, NumDrives);
    assert Roll(Iota(NumDrives), i)[..NumDrives] == Roll(Iota(NumDrives), i);
    assert f[..NumDrives] == f;
  }

  /** With the flags false at exactly a and b, six flags are set. */
  lemma {:induction false} OnesExceptTwo(f: seq<bool>, a: nat, b: nat, j: nat)
    requires a < b < |f| && j <= |f|
    requires forall t :: 0 <= t < |f| ==> (f[t] <==> t != a && t != b)
    ensures Ones(f[..j]) == j - (if a < j then 1 else 0) - (if b < j then 1 else 0)
  {
    if j > 0 {
      OnesExceptTwo(f, a, b, j - 1);
      assert f[..j][..j - 1] == f[..j - 1];
    }
  }

  /** The complement of a flag list. */
  function Not(f: seq<bool>): (g: seq<bool>)
    ensures |g| == |f| && forall t :: 0 <= t < |f| ==> (g[t] <==> !f[t])
  {
    seq(|f|, t requires 0 <= t < |f| => !f[t])
  }

  lemma {:induction false} OnesNot(f: seq<bool>)
    ensures Ones(f) + Ones(Not(f)) == |f|
    decreases |f|
  {
    if |f| > 0 {
      OnesNot(f[..|f| - 1]);
      assert Not(f)[..|f| - 1] == Not(f[..|f| - 1]);
    }
  }

  /** Six flags out of eight: exactly two drives a < b are left out. */
  lemma TwoOut(f: seq<bool>) returns (a: nat, b: nat)
    requires |f| == NumDrives && Ones(f) == DataWidth
    ensures a < b < NumDrives && forall t :: 0 <= t < NumDrives ==> (f[t] <==> t != a && t != b)
  {
    var g := Not(f);
    OnesNot(f);
    var s := Survivors(g);
    SurvivorsIncreasing(g);
    a, b := s[0], s[1];
    forall t | 0 <= t < NumDrives && !f[t] ensures t == a || t == b {
      SurvivorsComplete(g, t);
    }
  }

  // ----------------------------------------------------------- error matrix

  /** build_error_generator_matrix: the generator rows listed in rows, in
    * that order. */
  function ErrorMatrix(rows: seq<int>): (E: Matrix)
    requires forall k :: 0 <= k < |rows| ==> 0 <= rows[k] < NumDrives
    ensures IsMatrix(E, |rows|, DataWidth)
    ensures forall k {:trigger E[k]} :: 0 <= k < |rows| ==> E[k] == G[rows[k]]
  {
    var g := GeneratorMatrix();
    seq(|rows|, k requires 0 <= k < |rows| => g[rows[k]])
  }

  /** restore_data: the inverted error matrix times the surviving symbols. */
  function RestoreData(X: Matrix, survivors: Vector): (d: Vector)
    requires forall k :: 0 <= k < |X| ==> |X[k]| == |survivors|
    ensures |d| == |X|
  {
    MatVec(X, survivors)
  }

  /** The pure part of stripe(i): build the error matrix for the rows that
    * rem_fixed keeps, invert it, restore the data row from the surviving
    * symbols, encode it again and roll it back into place. None when the
    * inverse does not exist (the error matrix is not square, or singular). */
  function Rebuild(survivors: Vector, remFixed: seq<bool>, i: int): (r: Option<Vector>)
    requires |remFixed| == NumDrives && |survivors| == Ones(remFixed)
    ensures r.Some? ==> |r.value| == NumDrives
    ensures r.Some? <==> Ones(remFixed) == DataWidth
  {
    var rows := RowsOrdered(remFixed, i);
    assert Ones(remFixed) == DataWidth ==> Inverse(ErrorMatrix(rows), DataWidth).Some? by {
      if Ones(remFixed) == DataWidth {
        KeptRowsInvertible(remFixed, i);
      }
    }
    match Inverse(ErrorMatrix(rows), DataWidth)
    case None => None
    case Some(X) => Some(Roll(Encode(RestoreData(X, survivors)), i))
  }

  // --------------------------------------------------- any six rows suffice

  /** A generator row the error matrix uses is orthogonal to its kernel. */
  lemma KernelRow(rows: seq<int>, v: Vector, r: int)
    requires forall k :: 0 <= k < |rows| ==> 0 <= rows[k] < NumDrives
    requires |v| == DataWidth && IsZero(MatVec(ErrorMatrix(rows), v)) && r in rows
    ensures 0 <= r < NumDrives && Dot(G[r], v) == 0
  {
    var k :| 0 <= k < |rows| && rows[k] == r;
    assert MatVec(ErrorMatrix(rows), v)[k] == 0;
  }

  /** Two unknowns v[p], v[q] (all other entries zero) are forced to zero by
    * two equations: one whose coefficients at p and q agree and are nonzero
    * (P), and one whose coefficients there differ (Q). */
  lemma KernelTwo(a: Vector, b: Vector, v: Vector, p: nat, q: nat)
    requires |a| == |b| == |v| && p < q < |v|
    requires forall k :: 0 <= k < |v| && k != p && k != q ==> v[k] == 0
    requires a[p] == a[q] != 0 && b[p] != b[q]
    requires Dot(a, v) == 0 && Dot(b, v) == 0
    ensures v[p] == 0 && v[q] == 0
  {
    forall k | 0 <= k < |v| && k != p && k != q
      ensures Mul(a[k], v[k]) == 0 && Mul(b[k], v[k]) == 0
    {
      MulZero(a[k]);
      MulZero(b[k]);
    }
    DotTwo(a, v, p, q);
    DotTwo(b, v, p, q);
    MulAddRight(a[p], v[p], v[q]);
    NoZeroDivisors(a[p], Add(v[p], v[q]));
    AddEqZero(v[p], v[q]);
    MulAddLeft(b[p], b[q], v[p]);
    AddEqZero(b[p], b[q]);
    NoZeroDivisors(Add(b[p], b[q]), v[p]);
  }

  /** One unknown v[p] (all other entries zero) is forced to zero by an
    * equation whose coefficient at p is nonzero. */
  lemma KernelOne(a: Vector, v: Vector, p: nat)
    requires |a| == |v| && p < |v|
    requires forall k :: 0 <= k < |v| && k != p ==> v[k] == 0
    requires a[p] != 0 && Dot(a, v) == 0
    ensures v[p] == 0
  {
    forall k | 0 <= k < |v| && k != p ensures Mul(a[k], v[k]) == 0 {
      MulZero(a[k]);
    }
    DotSingle(a, v, p);
    NoZeroDivisors(a[p], v[p]);
  }

  /** Any matrix shaped like the generator (unit data rows, an all-ones P
    * row, a Q row of nonzero pairwise distinct coefficients) loses no
    * information when two of its rows p < q are dropped: a vector that every
    * other row sends to zero is zero. */
  lemma {:induction false} TwoErasuresKernel(g: Matrix, p: nat, q: nat, v: Vector)
    requires IsMatrix(g, NumDrives, DataWidth) && |v| == DataWidth
    requires forall k :: 0 <= k < DataWidth ==> g[k] == Unit(DataWidth, k)
    requires forall k :: 0 <= k < DataWidth ==> g[6][k] == 1
    requires forall k :: 0 <= k < DataWidth ==> g[7][k] != 0
    requires forall j, k :: 0 <= j < k < DataWidth ==> g[7][j] != g[7][k]
    requires p < q < NumDrives
    requires forall r :: 0 <= r < NumDrives && r != p && r != q ==> Dot(g[r], v) == 0
    ensures IsZero(v)
  {
    forall r | 0 <= r < DataWidth && r != p && r != q ensures v[r] == 0 {
      DotUnit(v, r);
      DotComm(v, Unit(DataWidth, r));
    }
    if q < DataWidth {
      KernelTwo(g[6], g[7], v, p, q);
    } else if q == 6 {
      KernelOne(g[7], v, p);
    } else if p < DataWidth {
      KernelOne(g[6], v, p);
    }
  }

  /** The MDS property of the code: an error matrix holding every generator
    * row except p and q sends only the zero vector to zero. */
  lemma ErrorKernelTrivial(rows: seq<int>, p: nat, q: nat, v: Vector)
    requires forall k :: 0 <= k < |rows| ==> 0 <= rows[k] < NumDrives
    requires p < q < NumDrives
    requires forall r :: 0 <= r < NumDrives && r != p && r != q ==> r in rows
    requires |v| == DataWidth && IsZero(MatVec(ErrorMatrix(rows), v))
    ensures IsZero(v)
  {
    var g := GeneratorMatrix();
    forall r | 0 <= r < NumDrives && r != p && r != q ensures Dot(g[r], v) == 0 {
      KernelRow(rows, v, r);
    }
    TwoErasuresKernel(g, p, q, v);
  }

  /** Any six distinct generator rows, in any order, form an invertible
    * error matrix. */
  lemma ErrorMatrixInvertible(rows: seq<int>, p: nat, q: nat)
    requires forall k :: 0 <= k < |rows| ==> 0 <= rows[k] < NumDrives
    requires |rows| == DataWidth && p < q < NumDrives
    requires forall r :: 0 <= r < NumDrives && r != p && r != q ==> r in rows
    ensures Inverse(ErrorMatrix(rows), DataWidth).Some?
  {
    if Inverse(ErrorMatrix(rows), DataWidth).None? {
      var v :| |v| == DataWidth && !IsZero(v) && IsZero(MatVec(ErrorMatrix(rows), v));
      ErrorKernelTrivial(rows, p, q, v);
    }
  }

  /** Whichever two drives are out, the six that rem_fixed keeps give an
    * invertible error matrix for every stripe. */
  lemma KeptRowsInvertible(f: seq<bool>, i: int)
    requires |f| == NumDrives && Ones(f) == DataWidth
    ensures Inverse(ErrorMatrix(RowsOrdered(f, i)), DataWidth).Some?
  {
    var a, b := TwoOut(f);
    MissingRows(f, a, b, i);
    var p, q := (a - i) % NumDrives, (b - i) % NumDrives;
    if p < q {
      ErrorMatrixInvertible(RowsOrdered(f, i), p, q);
    } else {
      ErrorMatrixInvertible(RowsOrdered(f, i), q, p);
    }
  }

  // ------------------------------------------------------ decoding a stripe

  /** Row r of stripe i lives on drive (r + i) mod 8. */
  lemma DriveOfRow(r: int, i: int)
    requires 0 <= r < NumDrives
    ensures ((r + i) % NumDrives - i) % NumDrives == r
  {
    ModSub(r + i, i, NumDrives);
    DivModUnique(r, 0, NumDrives, r);
  }

  /** Rolling by n puts entry k of a stripe on drive (k + n) mod 8. */
  lemma RollPlaces<T>(s: seq<T>, n: int, k: int)
    requires |s| == NumDrives && 0 <= k < NumDrives
    ensures Roll(s, n)[(k + n) % NumDrives] == s[k]
  {
    DriveOfRow(k, n);
  }

  /** A row whose drive survives is among the logical rows of the survivors. */
  lemma SurvivingRow(f: seq<bool>, r: int, i: int)
    requires |f| == NumDrives && 0 <= r < NumDrives && f[(r + i) % NumDrives]
    ensures r in LogicalRows(Survivors(f), i)
  {
    var ts := Survivors(f);
    var t := (r + i) % NumDrives;
    DriveOfRow(r, i);
    SurvivorsComplete(f, t);
    var k :| 0 <= k < |ts| && ts[k] == t;
    assert LogicalRows(ts, i)[k] == r;
  }

  /** With drives a and b lost, stripe i's error matrix uses every logical
    * row except (a - i) mod 8 and (b - i) mod 8, which are distinct. */
  lemma MissingRows(f: seq<bool>, a: nat, b: nat, i: int)
    requires |f| == NumDrives && a < b < NumDrives
    requires forall t :: 0 <= t < NumDrives ==> (f[t] <==> t != a && t != b)
    ensures (a - i) % NumDrives != (b - i) % NumDrives
    ensures forall r :: 0 <= r < NumDrives && r != (a - i) % NumDrives && r != (b - i) % NumDrives
                        ==> r in RowsOrdered(f, i)
  {
    ModSub(a - i, -i, NumDrives);
    ModSub(b - i, -i, NumDrives);
    DivModUnique(a, 0, NumDrives, a);
    DivModUnique(b, 0, NumDrives, b);
    forall r | 0 <= r < NumDrives && r != (a - i) % NumDrives && r != (b - i) % NumDrives
      ensures r in LogicalRows(Survivors(f), i)
    {
      DriveOfRow(r, i);
      SurvivingRow(f, r, i);
    }
  }

  /** Reading drives ts of stripe i, encoded with g, yields E * d for the
    * matrix E of the rows of g at the logical positions (t - i) mod 8. */
  lemma GatherRolled(g: Matrix, E: Matrix, d: Vector, ts: seq<nat>, i: int)
    requires IsMatrix(g, NumDrives, DataWidth) && |d| == DataWidth && |E| == |ts|
    requires forall k :: 0 <= k < |ts| ==> ts[k] < NumDrives && E[k] == g[(ts[k] - i) % NumDrives]
    ensures Gather(Roll(MatVec(g, d), i), ts) == MatVec(E, d)
  {
    var s := MatVec(g, d);
    forall k | 0 <= k < |ts| ensures Gather(Roll(s, i), ts)[k] == MatVec(E, d)[k] {
      assert Roll(s, i)[ts[k]] == s[(ts[k] - i) % NumDrives];
    }
  }

  /** The symbols read from the surviving drives of stripe i are the error
    * matrix times the data row. */
  lemma SurvivingSymbols(d: Vector, f: seq<bool>, i: int)
    requires |d| == DataWidth && |f| == NumDrives
    ensures Gather(Roll(Encode(d), i), Survivors(f)) == MatVec(ErrorMatrix(RowsOrdered(f, i)), d)
  {
    var ts := Survivors(f);
    var E := ErrorMatrix(RowsOrdered(f, i));
    assert forall k :: 0 <= k < |ts| ==> E[k] == G[LogicalRows(ts, i)[k]];
    GatherRolled(GeneratorMatrix(), E, d, ts, i);
  }

  /** Decoding is correct: with any two drives a and b lost, stripe() rebuilds
    * from the six surviving symbols of stripe i exactly the stripe that
    * write_row placed on the drives. */
  lemma DecodeStripe(d: Vector, f: seq<bool>, a: nat, b: nat, i: int)
    requires |d| == DataWidth && |f| == NumDrives && a < b < NumDrives
    requires forall t :: 0 <= t < NumDrives ==> (f[t] <==> t != a && t != b)
    ensures |Survivors(f)| == DataWidth
    ensures Inverse(ErrorMatrix(RowsOrdered(f, i)), DataWidth).Some?
    ensures RestoreData(Inverse(ErrorMatrix(RowsOrdered(f, i)), DataWidth).value,
                        Gather(Roll(Encode(d), i), Survivors(f))) == d
    ensures Rebuild(Gather(Roll(Encode(d), i), Survivors(f)), f, i) == Some(Roll(Encode(d), i))
  {
    OnesExceptTwo(f, a, b, NumDrives);
    assert f[..NumDrives] == f;
    var rows := RowsOrdered(f, i);
    MissingRows(f, a, b, i);
    var p, q := (a - i) % NumDrives, (b - i) % NumDrives;
    if p < q {
      ErrorMatrixInvertible(rows, p, q);
    } else {
      ErrorMatrixInvertible(rows, q, p);
    }
    var E := ErrorMatrix(rows);
    var X := Inverse(E, DataWidth).value;
    SurvivingSymbols(d, f, i);
    LeftInverseDecodes(X, E, d);
  }
}
