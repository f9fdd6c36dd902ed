/**
 * Vectors and matrices over GF(2^8), and the matrix inverse used to
 * decode a stripe: Gauss-Jordan elimination that either returns a left
 * inverse or shows a nonzero vector the matrix sends to zero.
 */
module Matrices {
  import opened GF256

  type Vector = seq<Symbol>
  type Matrix = seq<Vector>

  datatype Option<T> = None | Some(value: T)

  /** `A` has `rows` rows of `cols` entries each. */
  predicate IsMatrix(A: Matrix, rows: nat, cols: nat)
  {
    |A| == rows && forall i :: 0 <= i < |A| ==> |A[i]| == cols
  }

  predicate IsZero(v: Vector)
  {
    forall i :: 0 <= i < |v| ==> v[i] == 0
  }

  function Zero(n: nat): (z: Vector)
    ensures |z| == n && IsZero(z)
  {
    seq(n, _ => 0)
  }

  /** The k-th unit vector of length n. */
  function Unit(n: nat, k: nat): (u: Vector)
    ensures |u| == n
    ensures forall i {:trigger u[i]} :: 0 <= i < n ==> u[i] == (if i == k then 1 else 0)
  {
    seq(n, i => if i == k then 1 else 0)
  }

  function Identity(n: nat): (I: Matrix)
    ensures IsMatrix(I, n, n)
    ensures forall i :: 0 <= i < n ==> I[i] == Unit(n, i)
  {
    seq(n, i requires 0 <= i < n => Unit(n, i))
  }

  function VAdd(u: Vector, v: Vector): (w: Vector)
    requires |u| == |v|
    ensures |w| == |u| && forall i {:trigger w[i]} :: 0 <= i < |u| ==> w[i] == Add(u[i], v[i])
  {
    seq(|u|, i requires 0 <= i < |u| => Add(u[i], v[i]))
  }

  function VScale(f: Symbol, u: Vector): (w: Vector)
    ensures |w| == |u| && forall i {:trigger w[i]} :: 0 <= i < |u| ==> w[i] == Mul(f, u[i])
  {
    seq(|u|, i requires 0 <= i < |u| => Mul(f, u[i]))
  }

  /** Inner product: the sum of u[i] * v[i]. */
  function Dot(u: Vector, v: Vector): Symbol
    requires |u| == |v|
    decreases |u|
  {
    if |u| == 0 then 0 else Add(Mul(u[0], v[0]), Dot(u[1..], v[1..]))
  }

  /** The matrix-vector product A * v (LeftMulColumnVec). */
  function MatVec(A: Matrix, v: Vector): (w: Vector)
    requires forall i :: 0 <= i < |A| ==> |A[i]| == |v|
    ensures |w| == |A| && forall i {:trigger w[i]} :: 0 <= i < |A| ==> w[i] == Dot(A[i], v)
  {
    seq(|A|, i requires 0 <= i < |A| => Dot(A[i], v))
  }

  /** The row vector b times A: the sum of b[k] * A[k], of length m. */
  function VecMat(b: Vector, A: Matrix, m: nat): (w: Vector)
    requires IsMatrix(A, |b|, m)
    ensures |w| == m
    decreases |b|
  {
    if |b| == 0 then Zero(m) else VAdd(VScale(b[0], A[0]), VecMat(b[1..], A[1..], m))
  }

  /** The matrix product B * A, where A has m columns. */
  function MatMul(B: Matrix, A: Matrix, m: nat): (C: Matrix)
    requires forall i :: 0 <= i < |B| ==> |B[i]| == |A|
    requires IsMatrix(A, |A|, m)
    ensures IsMatrix(C, |B|, m)
    ensures forall i {:trigger C[i]} :: 0 <= i < |B| ==> C[i] == VecMat(B[i], A, m)
  {
    seq(|B|, i requires 0 <= i < |B| => VecMat(B[i], A, m))
  }

  // ------------------------------------------------------------ vector laws

  lemma VAddZero(v: Vector)
    ensures VAdd(Zero(|v|), v) == v
  {
    forall i | 0 <= i < |v| { AddZero(v[i]); }
  }

  lemma VScaleZero(n: nat, f: Symbol)
    ensures VScale(f, Zero(n)) == Zero(n)
  {
    forall i | 0 <= i < n { MulZero(f); }
  }

  lemma VScaleByZero(u: Vector)
    ensures VScale(0, u) == Zero(|u|)
  {
    forall i | 0 <= i < |u| { MulZero(u[i]); }
  }

  lemma VScaleByOne(u: Vector)
    ensures VScale(1, u) == u
  {
    forall i | 0 <= i < |u| { MulOneLeft(u[i]); }
  }

  lemma VScaleAdd(f: Symbol, u: Vector, v: Vector)
    requires |u| == |v|
    ensures VScale(f, VAdd(u, v)) == VAdd(VScale(f, u), VScale(f, v))
  {
    forall i | 0 <= i < |u| { MulAddRight(f, u[i], v[i]); }
  }

  lemma VScaleSum(f: Symbol, g: Symbol, u: Vector)
    ensures VScale(Add(f, g), u) == VAdd(VScale(f, u), VScale(g, u))
  {
    forall i | 0 <= i < |u| { MulAddLeft(f, g, u[i]); }
  }

  lemma VScaleScale(f: Symbol, g: Symbol, u: Vector)
    ensures VScale(Mul(f, g), u) == VScale(f, VScale(g, u))
  {
    forall i | 0 <= i < |u| { MulAssoc(f, g, u[i]); }
  }

  lemma VRegroup(a: Vector, b: Vector, c: Vector, d: Vector)
    requires |a| == |b| == |c| == |d|
    ensures VAdd(VAdd(a, b), VAdd(c, d)) == VAdd(VAdd(a, c), VAdd(b, d))
  {
    forall i | 0 <= i < |a| { Regroup(a[i], b[i], c[i], d[i]); }
  }

  // --------------------------------------------------------- inner products

  lemma DotCons(u: Vector, v: Vector)
    requires |u| == |v| && 0 < |u|
    ensures Dot(u, v) == Add(Mul(u[0], v[0]), Dot(u[1..], v[1..]))
  {}

  /** The inner product is additive in its first argument. */
  lemma {:induction false} DotAddLeft(u: Vector, w: Vector, v: Vector)
    requires |u| == |w| == |v|
    ensures Dot(VAdd(u, w), v) == Add(Dot(u, v), Dot(w, v))
    decreases |u|
  {
    if |u| == 0 {
      AddZero(0);
    } else {
      assert VAdd(u, w)[1..] == VAdd(u[1..], w[1..]);
      DotAddLeft(u[1..], w[1..], v[1..]);
      MulAddLeft(u[0], w[0], v[0]);
      Regroup(Mul(u[0], v[0]), Mul(w[0], v[0]), Dot(u[1..], v[1..]), Dot(w[1..], v[1..]));
    }
  }

  /** Scaling the first argument scales the inner product. */
  lemma {:induction false} DotScaleLeft(f: Symbol, u: Vector, v: Vector)
    requires |u| == |v|
    ensures Dot(VScale(f, u), v) == Mul(f, Dot(u, v))
    decreases |u|
  {
    if |u| == 0 {
      MulZero(f);
    } else {
      assert VScale(f, u)[1..] == VScale(f, u[1..]);
      DotScaleLeft(f, u[1..], v[1..]);
      MulAssoc(f, u[0], v[0]);
      MulAddRight(f, Mul(u[0], v[0]), Dot(u[1..], v[1..]));
    }
  }

  /** When every product u[k] * v[k] is zero, so is the inner product. */
  lemma {:induction false} DotNone(u: Vector, v: Vector)
    requires |u| == |v|
    requires forall k :: 0 <= k < |u| ==> Mul(u[k], v[k]) == 0
    ensures Dot(u, v) == 0
    decreases |u|
  {
    if |u| != 0 {
      DotNone(u[1..], v[1..]);
      AddZero(0);
    }
  }

  /** When only position r may contribute, the inner product is u[r] * v[r]. */
  lemma {:induction false} DotSingle(u: Vector, v: Vector, r: nat)
    requires |u| == |v| && r < |u|
    requires forall k :: 0 <= k < |u| && k != r ==> Mul(u[k], v[k]) == 0
    ensures Dot(u, v) == Mul(u[r], v[r])
    decreases |u|
  {
    if r == 0 {
      DotNone(u[1..], v[1..]);
      AddZero(Mul(u[0], v[0]));
    } else {
      DotSingle(u[1..], v[1..], r - 1);
      AddZero(Dot(u[1..], v[1..]));
    }
  }

  /** When only positions p < q may contribute, the inner product is their sum. */
  lemma {:induction false} DotTwo(u: Vector, v: Vector, p: nat, q: nat)
    requires |u| == |v| && p < q < |u|
    requires forall k :: 0 <= k < |u| && k != p && k != q ==> Mul(u[k], v[k]) == 0
    ensures Dot(u, v) == Add(Mul(u[p], v[p]), Mul(u[q], v[q]))
    decreases |u|
  {
    if p == 0 {
      DotSingle(u[1..], v[1..], q - 1);
    } else {
      DotTwo(u[1..], v[1..], p - 1, q - 1);
      AddZero(Dot(u[1..], v[1..]));
    }
  }

  lemma DotZeroRight(u: Vector, v: Vector)
    requires |u| == |v| && IsZero(v)
    ensures Dot(u, v) == 0
  {
    forall k | 0 <= k < |u| ensures Mul(u[k], v[k]) == 0 { MulZero(u[k]); }
    DotNone(u, v);
  }

  lemma DotUnit(u: Vector, k: nat)
    requires k < |u|
    ensures Dot(u, Unit(|u|, k)) == u[k]
  {
    var e := Unit(|u|, k);
    forall i | 0 <= i < |u| && i != k ensures Mul(u[i], e[i]) == 0 { MulZero(u[i]); }
    DotSingle(u, e, k);
    MulOneRight(u[k]);
  }

  // ----------------------------------------------------- products of matrices

  lemma VecMatCons(b: Vector, A: Matrix, m: nat)
    requires IsMatrix(A, |b|, m) && 0 < |b|
    ensures VecMat(b, A, m) == VAdd(VScale(b[0], A[0]), VecMat(b[1..], A[1..], m))
  {}

  lemma {:induction false} VecMatZero(n: nat, A: Matrix, m: nat)
    requires IsMatrix(A, n, m)
    ensures VecMat(Zero(n), A, m) == Zero(m)
    decreases n
  {
    if n != 0 {
      assert Zero(n)[1..] == Zero(n - 1);
      VecMatZero(n - 1, A[1..], m);
      VScaleByZero(A[0]);
      VAddZero(Zero(m));
    }
  }

  /** A unit row vector picks out one row: e_k * A == A[k]. */
  lemma {:induction false} VecMatUnit(n: nat, k: nat, A: Matrix, m: nat)
    requires IsMatrix(A, n, m) && k < n
    ensures VecMat(Unit(n, k), A, m) == A[k]
    decreases n
  {
    var e := Unit(n, k);
    if k == 0 {
      assert e[1..] == Zero(n - 1);
      VecMatZero(n - 1, A[1..], m);
      VScaleByOne(A[0]);
      forall i | 0 <= i < m { AddZero(A[0][i]); }
    } else {
      assert e[1..] == Unit(n - 1, k - 1);
      VecMatUnit(n - 1, k - 1, A[1..], m);
      VScaleByZero(A[0]);
      VAddZero(A[k]);
    }
  }

  lemma {:induction false} VecMatAdd(u: Vector, w: Vector, A: Matrix, m: nat)
    requires |u| == |w| && IsMatrix(A, |u|, m)
    ensures VecMat(VAdd(u, w), A, m) == VAdd(VecMat(u, A, m), VecMat(w, A, m))
    decreases |u|
  {
    if |u| == 0 {
      forall i | 0 <= i < m { AddZero(0); }
    } else {
      assert VAdd(u, w)[1..] == VAdd(u[1..], w[1..]);
      VecMatAdd(u[1..], w[1..], A[1..], m);
      VScaleSum(u[0], w[0], A[0]);
      VRegroup(VScale(u[0], A[0]), VScale(w[0], A[0]), VecMat(u[1..], A[1..], m), VecMat(w[1..], A[1..], m));
    }
  }

  lemma {:induction false} VecMatScale(f: Symbol, u: Vector, A: Matrix, m: nat)
    requires IsMatrix(A, |u|, m)
    ensures VecMat(VScale(f, u), A, m) == VScale(f, VecMat(u, A, m))
    decreases |u|
  {
    if |u| == 0 {
      VScaleZero(m, f);
    } else {
      assert VScale(f, u)[1..] == VScale(f, u[1..]);
      VecMatScale(f, u[1..], A[1..], m);
      VScaleScale(f, u[0], A[0]);
      VScaleAdd(f, VScale(u[0], A[0]), VecMat(u[1..], A[1..], m));
    }
  }

  /** (b * A) . v == b . (A * v) */
  lemma {:induction false} DotVecMat(b: Vector, A: Matrix, v: Vector)
    requires IsMatrix(A, |b|, |v|)
    ensures Dot(VecMat(b, A, |v|), v) == Dot(b, MatVec(A, v))
    decreases |b|
  {
    var m := |v|;
    if |b| == 0 {
      DotZeroRight(v, Zero(m));
      assert Dot(Zero(m), v) == 0 by {
        forall k | 0 <= k < m ensures Mul(Zero(m)[k], v[k]) == 0 { MulZero(v[k]); }
        DotNone(Zero(m), v);
      }
    } else {
      DotVecMat(b[1..], A[1..], v);
      DotAddLeft(VScale(b[0], A[0]), VecMat(b[1..], A[1..], m), v);
      DotScaleLeft(b[0], A[0], v);
      assert MatVec(A, v)[1..] == MatVec(A[1..], v);
    }
  }

  /** (B * A) * v == B * (A * v) */
  lemma MatMulVec(B: Matrix, A: Matrix, v: Vector)
    requires forall i :: 0 <= i < |B| ==> |B[i]| == |A|
    requires IsMatrix(A, |A|, |v|)
    ensures MatVec(MatMul(B, A, |v|), v) == MatVec(B, MatVec(A, v))
  {
    forall i | 0 <= i < |B| { DotVecMat(B[i], A, v); }
  }

  /** I * A == A */
  lemma MatMulIdentity(A: Matrix, m: nat)
    requires IsMatrix(A, |A|, m)
    ensures MatMul(Identity(|A|), A, m) == A
  {
    forall i | 0 <= i < |A| { VecMatUnit(|A|, i, A, m); }
  }

  /** I * v == v */
  lemma MatVecIdentity(v: Vector)
    ensures MatVec(Identity(|v|), v) == v
  {
    forall i | 0 <= i < |v| ensures Dot(Unit(|v|, i), v) == v[i] {
      DotUnit(v, i);
      DotComm(Unit(|v|, i), v);
    }
  }

  lemma {:induction false} DotComm(u: Vector, v: Vector)
    requires |u| == |v|
    ensures Dot(u, v) == Dot(v, u)
    decreases |u|
  {
    if |u| != 0 {
      DotComm(u[1..], v[1..]);
      MulComm(u[0], v[0]);
    }
  }

  // ------------------------------------------------ Gauss-Jordan elimination

  /** Column c of M. */
  function Column(M: Matrix, c: nat): (col: Vector)
    requires forall i :: 0 <= i < |M| ==> c < |M[i]|
    ensures |col| == |M| && forall i {:trigger col[i]} :: 0 <= i < |M| ==> col[i] == M[i][c]
  {
    seq(|M|, i requires 0 <= i < |M| => M[i][c])
  }

  function SwapRows(M: Matrix, i: nat, j: nat, w: nat): (S: Matrix)
    requires IsMatrix(M, |M|, w) && i < |M| && j < |M|
    ensures IsMatrix(S, |M|, w)
    ensures forall r {:trigger S[r]} :: 0 <= r < |M| ==> S[r] == (if r == i then M[j] else if r == j then M[i] else M[r])
  {
    seq(|M|, r requires 0 <= r < |M| => if r == i then M[j] else if r == j then M[i] else M[r])
  }

  function ScaleRow(M: Matrix, i: nat, f: Symbol, w: nat): (S: Matrix)
    requires IsMatrix(M, |M|, w) && i < |M|
    ensures IsMatrix(S, |M|, w)
    ensures forall r {:trigger S[r]} :: 0 <= r < |M| ==> S[r] == (if r == i then VScale(f, M[i]) else M[r])
  {
    seq(|M|, r requires 0 <= r < |M| => if r == i then VScale(f, M[i]) else M[r])
  }

  /** Adds coef[r] times row c to every other row r. */
  function ClearRows(M: Matrix, coef: Vector, c: nat, w: nat): (S: Matrix)
    requires IsMatrix(M, |M|, w) && c < |M| && |coef| == |M|
    ensures IsMatrix(S, |M|, w)
    ensures forall r {:trigger S[r]} :: 0 <= r < |M| ==> S[r] == (if r == c then M[c] else VAdd(M[r], VScale(coef[r], M[c])))
  {
    seq(|M|, r requires 0 <= r < |M| => if r == c then M[c] else VAdd(M[r], VScale(coef[r], M[c])))
  }

  /** The first row p >= r whose entry in column c is nonzero. */
  function FindPivot(M: Matrix, c: nat, r: nat): (p: Option<nat>)
    requires forall i :: 0 <= i < |M| ==> c < |M[i]|
    ensures p.Some? ==> r <= p.value < |M| && M[p.value][c] != 0
    ensures p.None? ==> forall i :: r <= i < |M| ==> M[i][c] == 0
    decreases |M| - r
  {
    if r >= |M| then None
    else if M[r][c] != 0 then Some(r)
    else FindPivot(M, c, r + 1)
  }

  /** Columns 0..c-1 of the n-by-n matrix M are already unit columns. */
  ghost predicate Reduced(M: Matrix, c: nat, n: nat)
    requires IsMatrix(M, n, n) && c <= n
  {
    forall r, k :: 0 <= r < n && 0 <= k < c ==> M[r][k] == (if r == k then 1 else 0)
  }

  /** Every vector M sends to zero, A sends to zero too. */
  ghost predicate KernelIncluded(M: Matrix, A: Matrix, n: nat)
    requires IsMatrix(M, n, n) && IsMatrix(A, n, n)
  {
    forall v {:trigger MatVec(M, v)} :: |v| == n && IsZero(MatVec(M, v)) ==> IsZero(MatVec(A, v))
  }

  /** One elimination step at column c with pivot row p, applied to the
    * working matrix M and, with the same row operations, to B. */
  function PivotStep(M: Matrix, B: Matrix, c: nat, p: nat, n: nat): (R: (Matrix, Matrix))
    requires IsMatrix(M, n, n) && IsMatrix(B, n, n) && c < n && p < n
    ensures IsMatrix(R.0, n, n) && IsMatrix(R.1, n, n)
  {
    var M1 := SwapRows(M, c, p, n);
    var B1 := SwapRows(B, c, p, n);
    var f := Inv(M1[c][c]);
    var M2 := ScaleRow(M1, c, f, n);
    var B2 := ScaleRow(B1, c, f, n);
    var coef := Column(M2, c);
    (ClearRows(M2, coef, c, n), ClearRows(B2, coef, c, n))
  }

  /** Gauss-Jordan elimination from column c on; B accumulates the row operations. */
  function Eliminate(M: Matrix, B: Matrix, c: nat, n: nat): Option<Matrix>
    requires IsMatrix(M, n, n) && IsMatrix(B, n, n) && c <= n
    decreases n - c
  {
    if c == n then Some(B)
    else match FindPivot(M, c, c)
      case None => None
      case Some(p) =>
        var R := PivotStep(M, B, c, p, n);
        Eliminate(R.0, R.1, c + 1, n)
  }

  // ----------------------------------------- correctness of the elimination

  /** Row operations on B are row operations on B * A. */
  lemma SwapTracks(B: Matrix, A: Matrix, i: nat, j: nat, n: nat)
    requires IsMatrix(B, n, n) && IsMatrix(A, n, n) && i < n && j < n
    ensures MatMul(SwapRows(B, i, j, n), A, n) == SwapRows(MatMul(B, A, n), i, j, n)
  {}

  lemma ScaleTracks(B: Matrix, A: Matrix, i: nat, f: Symbol, n: nat)
    requires IsMatrix(B, n, n) && IsMatrix(A, n, n) && i < n
    ensures MatMul(ScaleRow(B, i, f, n), A, n) == ScaleRow(MatMul(B, A, n), i, f, n)
  {
    VecMatScale(f, B[i], A, n);
  }

  lemma ClearTracks(B: Matrix, A: Matrix, coef: Vector, c: nat, n: nat)
    requires IsMatrix(B, n, n) && IsMatrix(A, n, n) && c < n && |coef| == n
    ensures MatMul(ClearRows(B, coef, c, n), A, n) == ClearRows(MatMul(B, A, n), coef, c, n)
  {
    forall r | 0 <= r < n && r != c
      ensures VecMat(VAdd(B[r], VScale(coef[r], B[c])), A, n)
           == VAdd(VecMat(B[r], A, n), VScale(coef[r], VecMat(B[c], A, n)))
    {
      VecMatAdd(B[r], VScale(coef[r], B[c]), A, n);
      VecMatScale(coef[r], B[c], A, n);
    }
  }

  /** A vector that the swapped matrix sends to zero is sent to zero by M. */
  lemma SwapKernel(M: Matrix, i: nat, j: nat, n: nat, v: Vector)
    requires IsMatrix(M, n, n) && i < n && j < n && |v| == n
    requires IsZero(MatVec(SwapRows(M, i, j, n), v))
    ensures IsZero(MatVec(M, v))
  {
    var S := SwapRows(M, i, j, n);
    var W := MatVec(S, v);
    forall r | 0 <= r < n ensures MatVec(M, v)[r] == 0 {
      var s := if r == i then j else if r == j then i else r;
      assert W[s] == 0;
      assert S[s] == M[r];
    }
  }

  lemma ScaleKernel(M: Matrix, i: nat, f: Symbol, n: nat, v: Vector)
    requires IsMatrix(M, n, n) && i < n && |v| == n && f != 0
    requires IsZero(MatVec(ScaleRow(M, i, f, n), v))
    ensures IsZero(MatVec(M, v))
  {
    var S := ScaleRow(M, i, f, n);
    var W := MatVec(S, v);
    forall r | 0 <= r < n ensures MatVec(M, v)[r] == 0 {
      assert W[r] == 0;
      if r == i {
        DotScaleLeft(f, M[i], v);
        NoZeroDivisors(f, Dot(M[i], v));
      }
    }
  }

  lemma ClearKernel(M: Matrix, coef: Vector, c: nat, n: nat, v: Vector)
    requires IsMatrix(M, n, n) && c < n && |coef| == n && |v| == n
    requires IsZero(MatVec(ClearRows(M, coef, c, n), v))
    ensures IsZero(MatVec(M, v))
  {
    var S := ClearRows(M, coef, c, n);
    var W := MatVec(S, v);
    assert W[c] == 0 && S[c] == M[c];
    forall r | 0 <= r < n ensures MatVec(M, v)[r] == 0 {
      if r != c {
        assert W[r] == 0 && S[r] == VAdd(M[r], VScale(coef[r], M[c]));
        DotAddLeft(M[r], VScale(coef[r], M[c]), v);
        DotScaleLeft(coef[r], M[c], v);
        MulZero(coef[r]);
        AddZero(Dot(M[r], v));
      }
    }
  }

  lemma SwapReduced(M: Matrix, c: nat, p: nat, n: nat)
    requires IsMatrix(M, n, n) && c <= p < n && Reduced(M, c, n)
    ensures Reduced(SwapRows(M, c, p, n), c, n)
  {}

  lemma ScaleReduced(M: Matrix, c: nat, n: nat)
    requires IsMatrix(M, n, n) && c < n && Reduced(M, c, n) && M[c][c] != 0
    ensures Reduced(ScaleRow(M, c, Inv(M[c][c]), n), c, n)
    ensures ScaleRow(M, c, Inv(M[c][c]), n)[c][c] == 1
  {
    var f := Inv(M[c][c]);
    var S := ScaleRow(M, c, f, n);
    forall r, k | 0 <= r < n && 0 <= k < c ensures S[r][k] == (if r == k then 1 else 0) {
      if r == c {
        MulZero(f);
      }
    }
    MulInv(M[c][c]);
    MulComm(f, M[c][c]);
  }

  lemma ClearReduced(M: Matrix, c: nat, n: nat)
    requires IsMatrix(M, n, n) && c < n && Reduced(M, c, n) && M[c][c] == 1
    ensures Reduced(ClearRows(M, Column(M, c), c, n), c + 1, n)
  {
    var S := ClearRows(M, Column(M, c), c, n);
    forall r, k | 0 <= r < n && 0 <= k < c + 1 && r != c
      ensures S[r][k] == (if r == k then 1 else 0)
    {
      assert S[r][k] == Add(M[r][k], Mul(M[r][c], M[c][k]));
      if k == c {
        MulOneRight(M[r][c]);
        AddSelf(M[r][c]);
      } else {
        MulZero(M[r][c]);
        AddZero(M[r][k]);
      }
    }
  }

  lemma PivotReduced(M: Matrix, B: Matrix, c: nat, p: nat, n: nat)
    requires IsMatrix(M, n, n) && IsMatrix(B, n, n) && c <= p < n && M[p][c] != 0 && Reduced(M, c, n)
    ensures Reduced(PivotStep(M, B, c, p, n).0, c + 1, n)
  {
    var M1 := SwapRows(M, c, p, n);
    SwapReduced(M, c, p, n);
    ScaleReduced(M1, c, n);
    ClearReduced(ScaleRow(M1, c, Inv(M1[c][c]), n), c, n);
  }

  lemma PivotTracks(M: Matrix, B: Matrix, A: Matrix, c: nat, p: nat, n: nat)
    requires IsMatrix(M, n, n) && IsMatrix(B, n, n) && IsMatrix(A, n, n) && c <= p < n
    requires MatMul(B, A, n) == M
    ensures MatMul(PivotStep(M, B, c, p, n).1, A, n) == PivotStep(M, B, c, p, n).0
  {
    var B1 := SwapRows(B, c, p, n);
    var f := Inv(SwapRows(M, c, p, n)[c][c]);
    var B2 := ScaleRow(B1, c, f, n);
    SwapTracks(B, A, c, p, n);
    ScaleTracks(B1, A, c, f, n);
    ClearTracks(B2, A, Column(ScaleRow(SwapRows(M, c, p, n), c, f, n), c), c, n);
  }

  /** The pivot step's row operations on M for a given factor: rows c and p
    * swapped, row c scaled by f, column c cleared. */
  function PivotRowOps(M: Matrix, c: nat, p: nat, f: Symbol, n: nat): (R: Matrix)
    requires IsMatrix(M, n, n) && c <= p < n
    ensures IsMatrix(R, n, n)
  {
    var M2 := ScaleRow(SwapRows(M, c, p, n), c, f, n);
    ClearRows(M2, Column(M2, c), c, n)
  }

  /** With a nonzero factor, the row operations put no new vector in the
    * kernel. */
  lemma PivotRowOpsKernel(M: Matrix, c: nat, p: nat, f: Symbol, n: nat, v: Vector)
    requires IsMatrix(M, n, n) && c <= p < n && f != 0 && |v| == n
    requires IsZero(MatVec(PivotRowOps(M, c, p, f, n), v))
    ensures IsZero(MatVec(M, v))
  {
    var M1 := SwapRows(M, c, p, n);
    var M2 := ScaleRow(M1, c, f, n);
    ClearKernel(M2, Column(M2, c), c, n, v);
    ScaleKernel(M1, c, f, n, v);
    SwapKernel(M, c, p, n, v);
  }

  /** A vector the pivot step's result sends to zero is sent to zero by M. */
  lemma PivotKernelAt(M: Matrix, B: Matrix, c: nat, p: nat, n: nat, v: Vector)
    requires IsMatrix(M, n, n) && IsMatrix(B, n, n) && c <= p < n && M[p][c] != 0 && |v| == n
    requires IsZero(MatVec(PivotStep(M, B, c, p, n).0, v))
    ensures IsZero(MatVec(M, v))
  {
    var f := PivotFactor(M, B, c, p, n);
    PivotRowOpsKernel(M, c, p, f, n, v);
  }

  /** The pivot step's first matrix is the row operations for a nonzero
    * factor, the inverse of the pivot. */
  lemma PivotFactor(M: Matrix, B: Matrix, c: nat, p: nat, n: nat) returns (f: Symbol)
    requires IsMatrix(M, n, n) && IsMatrix(B, n, n) && c <= p < n && M[p][c] != 0
    ensures f != 0 && PivotStep(M, B, c, p, n).0 == PivotRowOps(M, c, p, f, n)
  {
    var M1 := SwapRows(M, c, p, n);
    f := Inv(M1[c][c]);
    InvNonzero(M1[c][c]);
  }

  lemma PivotKernel(M: Matrix, B: Matrix, A: Matrix, c: nat, p: nat, n: nat)
    requires IsMatrix(M, n, n) && IsMatrix(B, n, n) && IsMatrix(A, n, n) && c <= p < n && M[p][c] != 0
    requires KernelIncluded(M, A, n)
    ensures KernelIncluded(PivotStep(M, B, c, p, n).0, A, n)
  {
    var M3 := PivotStep(M, B, c, p, n).0;
    forall v | |v| == n && IsZero(MatVec(M3, v)) ensures IsZero(MatVec(A, v)) {
      PivotKernelAt(M, B, c, p, n, v);
    }
  }

  /** The vector with 1 at c, M[k][c] at each k < c and 0 elsewhere. */
  function PivotFreeVector(M: Matrix, c: nat, n: nat): (v: Vector)
    requires IsMatrix(M, n, n) && c < n
    ensures |v| == n && v[c] == 1
    ensures forall k :: 0 <= k < c ==> v[k] == M[k][c]
    ensures forall k :: c < k < n ==> v[k] == 0
  {
    seq(n, k requires 0 <= k < n => if k < c then M[k][c] else if k == c then 1 else 0)
  }

  lemma NoPivotRow(M: Matrix, c: nat, n: nat, r: nat)
    requires IsMatrix(M, n, n) && c < n && r < n && Reduced(M, c, n)
    requires forall i :: c <= i < n ==> M[i][c] == 0
    ensures Dot(M[r], PivotFreeVector(M, c, n)) == 0
  {
    var v := PivotFreeVector(M, c, n);
    forall k | 0 <= k < n && k != r && k != c ensures Mul(M[r][k], v[k]) == 0 {
      MulZero(M[r][k]);
      MulZero(v[k]);
    }
    if r < c {
      DotTwo(M[r], v, r, c);
      MulOneLeft(v[r]);
      MulOneRight(M[r][c]);
      AddSelf(M[r][c]);
    } else {
      DotSingle(M[r], v, c);
      MulZero(v[c]);
    }
  }

  /** With no pivot in column c, a nonzero vector is sent to zero. */
  lemma NoPivotKernel(M: Matrix, c: nat, n: nat)
    requires IsMatrix(M, n, n) && c < n && Reduced(M, c, n)
    requires forall i :: c <= i < n ==> M[i][c] == 0
    ensures IsZero(MatVec(M, PivotFreeVector(M, c, n)))
  {
    forall r | 0 <= r < n ensures Dot(M[r], PivotFreeVector(M, c, n)) == 0 {
      NoPivotRow(M, c, n, r);
    }
  }

  lemma ReducedIdentity(M: Matrix, n: nat)
    requires IsMatrix(M, n, n) && Reduced(M, n, n)
    ensures M == Identity(n)
  {
    forall r | 0 <= r < n ensures M[r] == Identity(n)[r] {}
  }

  /** Without a pivot in column c, A is singular. */
  lemma NoPivotSingular(M: Matrix, A: Matrix, c: nat, n: nat)
    requires IsMatrix(M, n, n) && IsMatrix(A, n, n) && c < n
    requires Reduced(M, c, n) && KernelIncluded(M, A, n)
    requires forall i :: c <= i < n ==> M[i][c] == 0
    ensures exists v :: |v| == n && !IsZero(v) && IsZero(MatVec(A, v))
  {
    NoPivotKernel(M, c, n);
    var v := PivotFreeVector(M, c, n);
    assert v[c] != 0;
  }

  lemma ElimDone(M: Matrix, B: Matrix, A: Matrix, n: nat)
    requires IsMatrix(M, n, n) && IsMatrix(B, n, n) && IsMatrix(A, n, n)
    requires Reduced(M, n, n) && MatMul(B, A, n) == M
    ensures Eliminate(M, B, n, n) == Some(B) && MatMul(B, A, n) == Identity(n)
  {
    ReducedIdentity(M, n);
  }

  lemma ElimNoPivot(M: Matrix, B: Matrix, c: nat, n: nat)
    requires IsMatrix(M, n, n) && IsMatrix(B, n, n) && c < n && FindPivot(M, c, c).None?
    ensures Eliminate(M, B, c, n) == None
  {}

  /** What elimination promises about A, when started from M and B. */
  ghost predicate ElimOutcome(M: Matrix, B: Matrix, A: Matrix, c: nat, n: nat)
    requires IsMatrix(M, n, n) && IsMatrix(B, n, n) && IsMatrix(A, n, n) && c <= n
  {
    match Eliminate(M, B, c, n)
    case Some(X) => IsMatrix(X, n, n) && MatMul(X, A, n) == Identity(n)
    case None => exists v :: |v| == n && !IsZero(v) && IsZero(MatVec(A, v))
  }

  /** A pivot step does not change what elimination promises. */
  lemma ElimPivot(M: Matrix, B: Matrix, A: Matrix, c: nat, p: nat, n: nat)
    requires IsMatrix(M, n, n) && IsMatrix(B, n, n) && IsMatrix(A, n, n) && c < n
    requires FindPivot(M, c, c) == Some(p)
    requires ElimOutcome(PivotStep(M, B, c, p, n).0, PivotStep(M, B, c, p, n).1, A, c + 1, n)
    ensures ElimOutcome(M, B, A, c, n)
  {}

  /** One pivot step keeps B * A == M and the kernel inclusion, and reduces one more column. */
  lemma PivotInvariant(M: Matrix, B: Matrix, A: Matrix, c: nat, p: nat, n: nat)
    requires IsMatrix(M, n, n) && IsMatrix(B, n, n) && IsMatrix(A, n, n) && c < n
    requires FindPivot(M, c, c) == Some(p)
    requires Reduced(M, c, n) && MatMul(B, A, n) == M && KernelIncluded(M, A, n)
    ensures var R := PivotStep(M, B, c, p, n);
      Reduced(R.0, c + 1, n) && MatMul(R.1, A, n) == R.0 && KernelIncluded(R.0, A, n)
  {
    PivotReduced(M, B, c, p, n);
    PivotTracks(M, B, A, c, p, n);
    PivotKernel(M, B, A, c, p, n);
  }

  /** Elimination from a reduced state either finds a left inverse of A or
    * a nonzero vector that A sends to zero. */
  lemma {:induction false} EliminateCorrect(M: Matrix, B: Matrix, A: Matrix, c: nat, n: nat)
    requires IsMatrix(M, n, n) && IsMatrix(B, n, n) && IsMatrix(A, n, n) && c <= n
    requires Reduced(M, c, n) && MatMul(B, A, n) == M && KernelIncluded(M, A, n)
    ensures ElimOutcome(M, B, A, c, n)
    decreases n - c, 1
  {
    if c == n {
      ElimDone(M, B, A, n);
    } else {
      var pivot := FindPivot(M, c, c);
      if pivot.None? {
        ElimNoPivot(M, B, c, n);
        NoPivotSingular(M, A, c, n);
      } else {
        EliminateStep(M, B, A, c, pivot.value, n);
      }
    }
  }

  lemma {:induction false} EliminateStep(M: Matrix, B: Matrix, A: Matrix, c: nat, p: nat, n: nat)
    requires IsMatrix(M, n, n) && IsMatrix(B, n, n) && IsMatrix(A, n, n) && c < n
    requires FindPivot(M, c, c) == Some(p)
    requires Reduced(M, c, n) && MatMul(B, A, n) == M && KernelIncluded(M, A, n)
    ensures ElimOutcome(M, B, A, c, n)
    decreases n - c, 0
  {
    PivotInvariant(M, B, A, c, p, n);
    var R := PivotStep(M, B, c, p, n);
    EliminateCorrect(R.0, R.1, A, c + 1, n);
    ElimPivot(M, B, A, c, p, n);
  }

  // ------------------------------------------------------------ the inverse

  /** The inverse of a matrix with `cols` columns, or None when it is not
    * square or is singular (the cases in which the library's Inverse raises
    * an error). */
  function Inverse(A: Matrix, cols: nat): (X: Option<Matrix>)
    requires IsMatrix(A, |A|, cols)
    ensures X.Some? ==> |A| == cols && IsMatrix(X.value, cols, cols)
                        && MatMul(X.value, A, cols) == Identity(cols)
    ensures X.None? ==> |A| != cols
                        || exists v :: |v| == cols && !IsZero(v) && IsZero(MatVec(A, v))
  {
    if |A| != cols then None
    else
      MatMulIdentity(A, cols);
      EliminateCorrect(A, Identity(cols), A, 0, cols);
      Eliminate(A, Identity(cols), 0, cols)
  }

  /** A left inverse undoes the matrix: X * (A * d) == d. */
  lemma LeftInverseDecodes(X: Matrix, A: Matrix, d: Vector)
    requires IsMatrix(A, |A|, |d|) && forall i :: 0 <= i < |X| ==> |X[i]| == |A|
    requires MatMul(X, A, |d|) == Identity(|d|)
    ensures MatVec(X, MatVec(A, d)) == d
  {
    MatMulVec(X, A, d);
    MatVecIdentity(d);
  }

  /** A matrix with a left inverse sends no nonzero vector to zero. */
  lemma LeftInverseInjective(X: Matrix, A: Matrix, v: Vector)
    requires IsMatrix(A, |A|, |v|) && forall i :: 0 <= i < |X| ==> |X[i]| == |A|
    requires MatMul(X, A, |v|) == Identity(|v|) && IsZero(MatVec(A, v))
    ensures IsZero(v)
  {
    LeftInverseDecodes(X, A, v);
    forall i | 0 <= i < |v| ensures v[i] == 0 {
      DotZeroRight(X[i], MatVec(A, v));
    }
  }

  /** Inverse fails only where no left inverse exists: a square matrix with
    * a left inverse always gets one back. */
  lemma InverseComplete(A: Matrix, Y: Matrix)
    requires IsMatrix(A, |A|, |A|) && IsMatrix(Y, |A|, |A|) && MatMul(Y, A, |A|) == Identity(|A|)
    ensures Inverse(A, |A|).Some?
  {
    if Inverse(A, |A|).None? {
      var v :| |v| == |A| && !IsZero(v) && IsZero(MatVec(A, v));
      LeftInverseInjective(Y, A, v);
    }
  }
}
