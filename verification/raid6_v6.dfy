/**
 * The second controller: every drive is a file holding a square grid of
 * drive_dim x drive_dim symbols, stripe s living in cell (s div drive_dim,
 * s mod drive_dim) of each drive. Files are cut into six-symbol rows, each
 * row encoded into a stripe and rolled across the drives. A heal pass
 * re-creates lost drives and rebuilds their cells stripe by stripe from the
 * six drives that rem_fixed keeps.
 */
module Raid6V6 {
  import opened GF256
  import opened Matrices
  import opened Coding

  /** A file is recorded under its name. */
  type FileId = string

  /** The entry [len(chunks), rem, num_stripes] that add_file records. */
  datatype Meta = Meta(rowCount: nat, rem: nat, start: nat)

  /** How a heal pass, or one stripe of it, ends. */
  datatype Outcome =
    | Done
    | NothingToReplace    // init_drives got an empty list: `del arr` raises UnboundLocalError
    | DriveMissing(drive: nat)  // get_item on a drive file that does not exist: FileNotFoundError
    | NotInvertible       // the error matrix is not square, or singular: ValueError

  /** What read_file gives back. */
  datatype ReadOutcome =
    | NoSuchFile                // the metadata lookup raises KeyError
    | DriveGone(drive: nat)     // get_item on a missing drive file
    | Contents(bytes: seq<Symbol>)

  /** The list [1, 1, 1, 1, 1, 1, 1, 1]. */
  const AllUp: seq<bool> := seq(NumDrives, _ => true)

  // ------------------------------------------------------- sizing, addressing

  /** The search behind CeilSqrt: the least s >= r with s * s >= n. */
  function CeilSqrtFrom(n: nat, r: nat): (s: nat)
    requires r == 0 || (r - 1) * (r - 1) < n
    ensures s * s >= n && (s > 0 ==> (s - 1) * (s - 1) < n)
    decreases n - r
  {
    if r * r >= n then r
    else
      assert r <= r * r;
      CeilSqrtFrom(n, r + 1)
  }

  /** int(ceil(sqrt(drive_cap))), computed on integers: the least number
    * whose square is at least n. */
  function CeilSqrt(n: nat): (s: nat)
    ensures s * s >= n
    ensures s > 0 ==> (s - 1) * (s - 1) < n
  {
    CeilSqrtFrom(n, 0)
  }

  /** No smaller number has a square of at least n. */
  lemma CeilSqrtLeast(n: nat, t: nat)
    requires t * t >= n
    ensures CeilSqrt(n) <= t
  {
    var s := CeilSqrt(n);
    if s > t {
      assert s - 1 >= t;
      MulMono(t, s - 1);
    }
  }

  lemma MulMono(a: nat, b: nat)
    requires a <= b
    ensures a * a <= b * b
  {
    assert a * a <= a * b <= b * b;
  }

  /** The cell (int(idx / dim), idx - full_rows * dim) that write_item and
    * get_item use for stripe idx. */
  function Address(idx: nat, dim: nat): (cell: (nat, nat))
    requires dim > 0
    ensures cell.0 * dim + cell.1 == idx && cell.1 < dim
  {
    (idx / dim, idx % dim)
  }

  /** Stripes below dim * dim land inside the grid. */
  lemma AddressInGrid(idx: nat, dim: nat)
    requires idx < dim * dim
    ensures dim > 0 && Address(idx, dim).0 < dim
  {
    assert dim != 0;
    var q := idx / dim;
    if q >= dim {
      MulLe(dim, q, dim);
    }
  }

  lemma MulLe(a: nat, b: nat, n: nat)
    requires a <= b
    ensures a * n <= b * n
  {
    assert b * n == a * n + (b - a) * n;
  }

  /** Distinct stripes use distinct cells. */
  lemma AddressInjective(x: nat, y: nat, dim: nat)
    requires dim > 0 && Address(x, dim) == Address(y, dim)
    ensures x == y
  {
  }

  // ------------------------------------------------------------ file layout

  /** add_file's padding: 6 - rem zeros when rem = len mod 6 is positive. */
  function Pad(file: seq<Symbol>): (p: seq<Symbol>)
    ensures |p| % DataWidth == 0 && |file| <= |p| < |file| + DataWidth
    ensures p[..|file|] == file && forall k :: |file| <= k < |p| ==> p[k] == 0
  {
    var rem := |file| - (|file| / DataWidth) * DataWidth;
    if 0 < rem < DataWidth then file + Zero(DataWidth - rem) else file
  }

  /** [file[x:x+6] for x in range(0, len(file), 6)] */
  function Chunks(p: seq<Symbol>): (c: seq<Vector>)
    requires |p| % DataWidth == 0
    ensures |c| * DataWidth == |p| && |c| == |p| / DataWidth
    ensures forall k :: 0 <= k < |c| ==> c[k] == p[DataWidth * k .. DataWidth * k + DataWidth]
    decreases |p|
  {
    if |p| == 0 then [] else [p[..DataWidth]] + Chunks(p[DataWidth..])
  }

  /** array(stripes).reshape(-1): the rows laid end to end. */
  function Flatten(rs: seq<Vector>): (f: seq<Symbol>)
  {
    if |rs| == 0 then [] else rs[0] + Flatten(rs[1..])
  }

  /** read_file's trimming: results[0:-(6 - rem)] when rem > 0 (a slice
    * that is empty when it would start before the beginning). */
  function Trim(flat: seq<Symbol>, rem: nat): (t: seq<Symbol>)
    requires rem < DataWidth
    ensures rem == 0 ==> t == flat
    ensures rem > 0 && DataWidth - rem <= |flat| ==> |t| == |flat| - (DataWidth - rem) && t == flat[..|t|]
    ensures rem > 0 && |flat| < DataWidth - rem ==> t == []
  {
    if rem > 0 then (if DataWidth - rem <= |flat| then flat[..|flat| - (DataWidth - rem)] else []) else flat
  }

  /** Laying the chunks end to end gives back the padded file. */
  lemma {:induction false} FlattenChunks(p: seq<Symbol>)
    requires |p| % DataWidth == 0
    ensures Flatten(Chunks(p)) == p
    decreases |p|
  {
    if |p| > 0 {
      FlattenChunks(p[DataWidth..]);
      assert Chunks(p) == [p[..DataWidth]] + Chunks(p[DataWidth..]);
      assert Chunks(p)[1..] == Chunks(p[DataWidth..]);
      assert p == p[..DataWidth] + p[DataWidth..];
    }
  }

  /** Padding, chunking, laying the rows end to end and trimming 6 - rem
    * bytes when rem = len mod 6 > 0 gives back the file. */
  lemma ReadBack(file: seq<Symbol>)
    ensures Trim(Flatten(Chunks(Pad(file))), |file| % DataWidth) == file
  {
    var p := Pad(file);
    FlattenChunks(p);
    var rem := |file| % DataWidth;
    if rem > 0 {
      assert |p| == |file| + (DataWidth - rem);
    } else {
      assert |p| == |file|;
    }
  }

  // ------------------------------------------------------------ availability

  /** Some missing drive comes before a present one. Only then does
    * detect_failed_drives store its fresh flags in available_drives: the
    * assignment sits in the branch for a present drive and runs only once a
    * failure has been seen, after which the field and the local list are one
    * list. */
  predicate FailureBeforePresent(present: seq<bool>)
  {
    exists a, b :: 0 <= a < b < |present| && !present[a] && present[b]
  }

  /** available_drives after detect_failed_drives: the fresh flags or the
    * previous ones. With every drive present nothing changes; losing only
    * the highest-numbered drives leaves the previous flags in place too;
    * losing a drive below a surviving one records the fresh flags. */
  function Detected(present: seq<bool>, previous: seq<bool>): (a: seq<bool>)
    ensures a == present || a == previous
    ensures (forall j :: 0 <= j < |present| ==> present[j]) ==> a == previous
    ensures (forall d, e :: 0 <= d < e < |present| && !present[d] ==> !present[e]) ==> a == previous
    ensures forall d, e :: 0 <= d < e < |present| && !present[d] && present[e] ==> a == present
  {
    if FailureBeforePresent(present) then present else previous
  }

  /** [1 if p1 and p2 else 0 for p1, p2 in zip(previous, available)] */
  function NewAvail(previous: seq<bool>, available: seq<bool>): (a: seq<bool>)
    ensures |a| == if |previous| <= |available| then |previous| else |available|
    ensures forall j :: 0 <= j < |a| ==> (a[j] <==> previous[j] && available[j])
  {
    if |previous| == 0 || |available| == 0 then []
    else [previous[0] && available[0]] + NewAvail(previous[1..], available[1..])
  }

  /** With previous_avail all ones, new_avail is available_drives itself. */
  lemma NewAvailAllUp(available: seq<bool>)
    requires |available| == NumDrives
    ensures NewAvail(AllUp, available) == available
  {
  }

  /** rem_fixed: new_avail with its lowest set flag cleared when more than
    * six are set. It keeps only drives new_avail has, differs from it at
    * most in the lowest available drive, and keeps six flags when one or
    * two drives are out. */
  function RemFixed(newAvail: seq<bool>): (r: seq<bool>)
    requires |newAvail| == NumDrives
    ensures |r| == NumDrives
    ensures forall j :: 0 <= j < NumDrives && r[j] ==> newAvail[j]
    ensures forall j :: 0 <= j < NumDrives && newAvail[j] && !r[j] ==>
              Ones(newAvail) > NumDrives - 2 && forall t :: 0 <= t < j ==> !newAvail[t]
    ensures Ones(r) == if Ones(newAvail) > NumDrives - 2 then Ones(newAvail) - 1 else Ones(newAvail)
    ensures DataWidth <= Ones(newAvail) < NumDrives ==> Ones(r) == DataWidth
  {
    if Ones(newAvail) > NumDrives - 2 then
      var k := Survivors(newAvail)[0];
      OnesClear(newAvail, k);
      assert forall t :: 0 <= t < k ==> !newAvail[t] by {
        forall t | 0 <= t < k && newAvail[t] ensures false {
          SurvivorsComplete(newAvail, t);
          SurvivorsIncreasing(newAvail);
        }
      }
      newAvail[k := false]
    else
      newAvail
  }

  /** Clearing one set flag removes one from the count. */
  lemma {:induction false} OnesClear(f: seq<bool>, k: nat)
    requires k < |f| && f[k]
    ensures Ones(f[k := false]) == Ones(f) - 1
    decreases |f|
  {
    var g := f[k := false];
    var n := |f|;
    if k < n - 1 {
      OnesClear(f[..n - 1], k);
      assert g[..n - 1] == f[..n - 1][k := false];
    } else {
      assert g[..n - 1] == f[..n - 1];
    }
  }

  // ---------------------------------------------------------------- healing

  /** One stripe of stripe(i): Rebuild on the symbols assemble_stripe read. */
  function StripeStep(remFixed: seq<bool>): (step: (Vector, nat) -> Option<Vector>)
    requires |remFixed| == NumDrives
    ensures forall surv: Vector, i: nat :: step(surv, i) ==
              if |surv| == Ones(remFixed) then Rebuild(surv, remFixed, i) else None
    ensures forall surv, i :: step(surv, i).Some? ==> |step(surv, i).value| == NumDrives
    ensures forall surv, i :: step(surv, i).Some? <==> |surv| == Ones(remFixed) == DataWidth
  {
    (surv: Vector, i: nat) => if |surv| == Ones(remFixed) then Rebuild(surv, remFixed, i) else None
  }

  /** With rem_fixed keeping six drives, every stripe as write_row placed it
    * is rebuilt from the symbols its kept drives hold. */
  lemma StripeStepRestores(remFixed: seq<bool>, rows: seq<Vector>, placed: seq<Vector>)
    requires |remFixed| == NumDrives && Ones(remFixed) == DataWidth && Placed(placed, rows)
    ensures forall s :: 0 <= s < |rows| ==>
              StripeStep(remFixed)(Gather(placed[s], Survivors(remFixed)), s) == Some(placed[s])
  {
    var a, b := TwoOut(remFixed);
    forall s | 0 <= s < |rows|
      ensures StripeStep(remFixed)(Gather(placed[s], Survivors(remFixed)), s) == Some(placed[s])
    {
      assert PlacedAt(placed, rows, s);
      DecodeStripe(rows[s], remFixed, a, b, s);
    }
  }

  // ------------------------------------------------------------- the files

  /** A file_metadata entry m describes file: ceil(len/6) rows, rem = len
    * mod 6, and the rows written from stripe m.start on are the chunks of
    * the padded file. */
  ghost predicate Describes(m: Meta, file: seq<Symbol>, rows: seq<Vector>)
  {
    m.rowCount * DataWidth == |Pad(file)| && m.rem == |file| % DataWidth
    && m.start + m.rowCount <= |rows| && rows[m.start .. m.start + m.rowCount] == Chunks(Pad(file))
  }

  /** Writing more stripes keeps every recorded file where it was. */
  lemma DescribesExtend(m: Meta, file: seq<Symbol>, rows: seq<Vector>, more: seq<Vector>)
    requires Describes(m, file, rows)
    ensures Describes(m, file, rows + more)
  {
    assert (rows + more)[m.start .. m.start + m.rowCount] == rows[m.start .. m.start + m.rowCount];
  }

  /** Every recorded file is described by its entry. */
  ghost predicate Catalogued(meta: map<FileId, Meta>, files: map<FileId, seq<Symbol>>, rows: seq<Vector>)
  {
    forall id :: id in meta ==> id in files && Describes(meta[id], files[id], rows)
  }

  /** add_file's record: the new entry describes the file whose chunks were
    * written from stripe |rows| on, and the older entries stay valid. */
  lemma RecordFile(meta: map<FileId, Meta>, files: map<FileId, seq<Symbol>>, rows: seq<Vector>,
                   fileId: FileId, file: seq<Symbol>)
    requires Catalogued(meta, files, rows)
    ensures Catalogued(meta[fileId := Meta(|Pad(file)| / DataWidth, |file| % DataWidth, |rows|)],
                       files[fileId := file], rows + Chunks(Pad(file)))
  {
    var chunks := Chunks(Pad(file));
    var meta' := meta[fileId := Meta(|Pad(file)| / DataWidth, |file| % DataWidth, |rows|)];
    var files' := files[fileId := file];
    forall id | id in meta'
      ensures id in files' && Describes(meta'[id], files'[id], rows + chunks)
    {
      if id != fileId {
        DescribesExtend(meta[id], files[id], rows, chunks);
      } else {
        assert (rows + chunks)[|rows| .. |rows| + |chunks|] == chunks;
      }
    }
  }

  /** placed[s] is the stripe write_row put on the drives for data row
    * rows[s]: the row encoded and rolled by s. */
  ghost predicate PlacedAt(placed: seq<Vector>, rows: seq<Vector>, s: nat)
    requires s < |placed| && s < |rows|
  {
    |rows[s]| == DataWidth && placed[s] == Roll(Encode(rows[s]), s)
  }

  /** PlacedAt for every stripe; the quantifier only fires on a PlacedAt
    * term, which keeps the encoding out of proofs that do not ask for it. */
  ghost predicate Placed(placed: seq<Vector>, rows: seq<Vector>)
  {
    |placed| == |rows|
    && (forall s :: 0 <= s < |placed| ==> |placed[s]| == NumDrives)
    && forall s: nat {:trigger PlacedAt(placed, rows, s)} :: s < |rows| ==> PlacedAt(placed, rows, s)
  }

  lemma PlacedSnoc(placed: seq<Vector>, rows: seq<Vector>, d: Vector)
    requires Placed(placed, rows) && |d| == DataWidth
    ensures Placed(placed + [Roll(Encode(d), |rows|)], rows + [d])
  {
    var placed', rows' := placed + [Roll(Encode(d), |rows|)], rows + [d];
    forall s: nat | s < |rows'|
      ensures PlacedAt(placed', rows', s)
    {
      if s < |rows| {
        assert PlacedAt(placed, rows, s);
        assert placed'[s] == placed[s] && rows'[s] == rows[s];
      }
    }
  }

  /** The first n symbols of col rolled back by s: symbol t is
    * col[(t + s) mod |col|]. */
  function RolledBack(col: Vector, s: nat, n: nat): (r: Vector)
    requires n <= |col|
    ensures |r| == n
  {
    if n == 0 then [] else RolledBack(col, s, n - 1) + [col[(n - 1 + s) % |col|]]
  }

  /** What read_file makes of a stripe s whose drives hold col: the
    * symbols rolled back by s, without the last two. */
  function ReadRow(col: Vector, s: nat): (row: Vector)
    ensures |row| == if |col| >= 2 then |col| - 2 else 0
  {
    RolledBack(col, s, if |col| >= 2 then |col| - 2 else 0)
  }

  /** RolledBack is numpy's roll by -s, cut to its first n entries. */
  lemma {:induction false} RolledBackRoll(col: Vector, s: nat, n: nat)
    requires n <= |col|
    ensures RolledBack(col, s, n) == Roll(col, -(s as int))[..n]
  {
    if n > 0 {
      var rolled := Roll(col, -(s as int));
      RolledBackRoll(col, s, n - 1);
      assert rolled[n - 1] == col[(n - 1 + s) % |col|];
      assert rolled[..n] == rolled[..n - 1] + [rolled[n - 1]];
    }
  }

  /** [f(xs[0], start), f(xs[1], start + 1), ...] */
  function MapFrom<T, U>(xs: seq<T>, start: nat, f: (T, nat) -> U): (ys: seq<U>)
    ensures |ys| == |xs|
    decreases |xs|
  {
    if |xs| == 0 then [] else MapFrom(xs[..|xs| - 1], start, f) + [f(xs[|xs| - 1], start + |xs| - 1)]
  }

  lemma MapFromSnoc<T, U>(xs: seq<T>, x: T, start: nat, s: nat, f: (T, nat) -> U)
    requires s == start + |xs|
    ensures MapFrom(xs + [x], start, f) == MapFrom(xs, start, f) + [f(x, s)]
  {
    assert (xs + [x])[..|xs|] == xs;
  }

  lemma ReadRowsSnoc(cols: seq<Vector>, col: Vector, start: nat)
    ensures ReadRows(cols + [col], start) == ReadRows(cols, start) + [ReadRow(col, start + |cols|)]
  {
    MapFromSnoc(cols, col, start, start + |cols|, ReadRow);
  }

  /** MapFrom is determined pointwise. */
  lemma {:induction false} MapFromAll<T, U>(xs: seq<T>, ys: seq<U>, start: nat, f: (T, nat) -> U)
    requires |xs| == |ys| && forall k :: 0 <= k < |xs| ==> f(xs[k], start + k) == ys[k]
    ensures MapFrom(xs, start, f) == ys
    decreases |xs|
  {
    if |xs| > 0 {
      var m := |xs| - 1;
      MapFromAll(xs[..m], ys[..m], start, f);
      assert ys == ys[..m] + [ys[m]];
    }
  }

  /** read_file's rows for the stripes start, start + 1, ... whose drives
    * hold cols. */
  function ReadRows(cols: seq<Vector>, start: nat): (rs: seq<Vector>)
    ensures |rs| == |cols|
  {
    MapFrom(cols, start, ReadRow)
  }

  /** Reading back stripe s as write_row placed it gives its data row. */
  lemma ReadRowPlaced(d: Vector, s: nat)
    requires |d| == DataWidth
    ensures ReadRow(Roll(Encode(d), s), s) == d
  {
    RolledBackRoll(Roll(Encode(d), s), s, DataWidth);
    RollInverse(Encode(d), s);
  }

  /** Reading back placed stripe s gives its row. */
  lemma ReadRowPlacedAt(placed: seq<Vector>, rows: seq<Vector>, s: nat)
    requires Placed(placed, rows) && s < |rows|
    ensures ReadRow(placed[s], s) == rows[s]
  {
    assert PlacedAt(placed, rows, s);
    ReadRowPlaced(rows[s], s);
  }

  /** Reading back placed stripes a .. a + n - 1 gives their rows. */
  lemma ReadRowsPlaced(placed: seq<Vector>, rows: seq<Vector>, a: nat, n: nat)
    requires Placed(placed, rows) && a + n <= |rows|
    ensures ReadRows(placed[a .. a + n], a) == rows[a .. a + n]
  {
    var cols := placed[a .. a + n];
    var want := rows[a .. a + n];
    forall k | 0 <= k < n ensures ReadRow(cols[k], a + k) == want[k] {
      assert cols[k] == placed[a + k];
      ReadRowPlacedAt(placed, rows, a + k);
    }
    MapFromAll(cols, want, a, ReadRow);
  }

  /** A file recorded over placed stripes reads back as the bytes it was
    * added with. */
  lemma FileReadsBack(placed: seq<Vector>, rows: seq<Vector>, m: Meta, file: seq<Symbol>)
    requires Placed(placed, rows) && Describes(m, file, rows)
    ensures Trim(Flatten(ReadRows(placed[m.start .. m.start + m.rowCount], m.start)), m.rem) == file
  {
    ReadRowsPlaced(placed, rows, m.start, m.rowCount);
    ReadBack(file);
  }

  /** The symbols of col at the set flags of f, collected drive by drive. */
  function Collect(col: Vector, f: seq<bool>): (r: Vector)
    requires |f| <= |col|
  {
    if |f| == 0 then [] else Collect(col, f[..|f| - 1]) + (if f[|f| - 1] then [col[|f| - 1]] else [])
  }

  /** Collecting drive by drive gathers exactly the survivors. */
  lemma {:induction false} CollectGathers(col: Vector, f: seq<bool>)
    requires |f| <= |col|
    ensures Collect(col, f) == Gather(col, Survivors(f))
    decreases |f|
  {
    if |f| > 0 {
      var g := f[..|f| - 1];
      CollectGathers(col, g);
      var tail: seq<nat> := if f[|f| - 1] then [|f| - 1] else [];
      assert Survivors(f) == Survivors(g) + tail;
      assert Gather(col, Survivors(g) + tail) == Gather(col, Survivors(g)) + Gather(col, tail);
    }
  }

  /** m is the first drive that avail asks for and that is missing. */
  predicate FirstMissing(avail: seq<bool>, present: seq<bool>, m: nat)
    requires |avail| == NumDrives && |present| == NumDrives
  {
    m < NumDrives && avail[m] && !present[m] && forall j :: 0 <= j < m && avail[j] ==> present[j]
  }

  class Controller {
    /** drive_cap, and drive_dim, the side of every drive's square grid. */
    const driveCap: nat
    const driveDim: nat
    /** The eight drive files: disks[j, x, y] is cell (x, y) of drive j. */
    var disks: array3<Symbol>
    /** Whether each drive's file exists. */
    var present: seq<bool>
    var numStripes: nat
    var failedDrives: bool
    var availableDrives: seq<bool>
    var fileMetadata: map<FileId, Meta>
    /** The data row each stripe was written from, and the stripe that
      * placed on the drives. */
    ghost var rows: seq<Vector>
    ghost var placed: seq<Vector>
    /** The bytes each recorded file was added with. */
    ghost var files: map<FileId, seq<Symbol>>
    /** Drive j holds, for every stripe written so far, the symbol write_row
      * put on it. */
    ghost var intact: seq<bool>

    predicate Shaped()
      reads this`disks
    {
      disks.Length0 == NumDrives && disks.Length1 == driveDim && disks.Length2 == driveDim
    }

    /** get_item: the symbol of stripe idx on drive j. */
    function GetItem(j: nat, idx: nat): Symbol
      reads this`disks, disks
      requires Shaped() && j < NumDrives && idx < driveDim * driveDim
    {
      AddressInGrid(idx, driveDim);
      var cell := Address(idx, driveDim);
      disks[j, cell.0, cell.1]
    }

    /** Stripe s as the eight drives hold it. */
    function Column(s: nat): (col: Vector)
      reads this`disks, disks
      requires Shaped() && s < driveDim * driveDim
      ensures |col| == NumDrives && forall j :: 0 <= j < NumDrives ==> col[j] == GetItem(j, s)
    {
      [GetItem(0, s), GetItem(1, s), GetItem(2, s), GetItem(3, s),
       GetItem(4, s), GetItem(5, s), GetItem(6, s), GetItem(7, s)]
    }

    /** The symbols assemble_stripe reads for stripe s: those of the drives
      * rem_fixed keeps, in drive order. */
    ghost function Survived(remFixed: seq<bool>, n: nat): (surv: seq<Vector>)
      reads this`disks, disks
      requires Shaped() && n <= driveDim * driveDim && |remFixed| == NumDrives
      ensures |surv| == n
      ensures forall s :: 0 <= s < n ==> surv[s] == Gather(Column(s), Survivors(remFixed))
    {
      if n == 0 then [] else Survived(remFixed, n - 1) + [Gather(Column(n - 1), Survivors(remFixed))]
    }

    ghost predicate Storage()
      reads this, disks
    {
      Shaped()
      && |present| == NumDrives && |intact| == NumDrives && |availableDrives| == NumDrives
      && numStripes == |rows| && numStripes <= driveDim * driveDim && Placed(placed, rows)
      && (forall j :: 0 <= j < NumDrives && intact[j] ==> present[j])
      && (forall j, s :: 0 <= j < NumDrives && intact[j] && 0 <= s < |rows| ==> GetItem(j, s) == placed[s][j])
    }

    ghost predicate Catalogue()
      reads this`fileMetadata, this`files, this`rows
    {
      Catalogued(fileMetadata, files, rows)
    }

    ghost predicate Valid()
      reads this, disks
    {
      Storage() && Catalogue()
    }

    /** __init__ with init_drives() on all eight drives: empty, zero-filled
      * drives of side ceil(sqrt(drive_cap)), all available. */
    constructor (cap: nat)
      ensures Valid() && fresh(disks)
      ensures driveCap == cap && driveDim == CeilSqrt(cap)
      ensures numStripes == 0 && !failedDrives && availableDrives == AllUp && fileMetadata == map[]
      ensures present == AllUp && intact == AllUp
      ensures forall j, x, y :: 0 <= j < NumDrives && 0 <= x < driveDim && 0 <= y < driveDim ==> disks[j, x, y] == 0
    {
      driveCap := cap;
      var size := CeilSqrt(cap);
      driveDim := size;
      disks := new Symbol[NumDrives, size, size]((j, x, y) => 0);
      present := AllUp;
      numStripes := 0;
      failedDrives := false;
      availableDrives := AllUp;
      fileMetadata := map[];
      rows := [];
      placed := [];
      files := map[];
      intact := AllUp;
    }

    /** write_item: cell (idx div drive_dim, idx mod drive_dim) of drive j
      * becomes item; every other cell of every drive keeps its value. */
    method WriteItem(j: nat, item: Symbol, idx: nat)
      requires Shaped() && |present| == NumDrives && j < NumDrives && present[j]
      requires idx < driveDim * driveDim
      modifies disks
      ensures GetItem(j, idx) == item
      ensures forall t, s :: 0 <= t < NumDrives && 0 <= s < driveDim * driveDim && (t != j || s != idx) ==>
                GetItem(t, s) == old(GetItem(t, s))
    {
      AddressInGrid(idx, driveDim);
      var cell := Address(idx, driveDim);
      disks[j, cell.0, cell.1] := item;
      forall t, s | 0 <= t < NumDrives && 0 <= s < driveDim * driveDim && (t != j || s != idx)
        ensures GetItem(t, s) == old(GetItem(t, s))
      {
        AddressInGrid(s, driveDim);
        if t == j && Address(s, driveDim) == cell {
          AddressInjective(s, idx, driveDim);
        }
      }
    }
  
    /** The loop of write_row: entry j of a rolled stripe goes to drive j
      * at index idx. */
    method WriteStripe(stripe: Vector, idx: nat)
      requires Shaped() && |present| == NumDrives && |stripe| == NumDrives && idx < driveDim * driveDim
      requires forall j :: 0 <= j < NumDrives ==> present[j]
      modifies disks
      ensures forall j :: 0 <= j < NumDrives ==> GetItem(j, idx) == stripe[j]
      ensures forall j, s :: 0 <= j < NumDrives && 0 <= s < driveDim * driveDim && s != idx ==>
                GetItem(j, s) == old(GetItem(j, s))
    {
      for i := 0 to NumDrives
        invariant forall j :: 0 <= j < i ==> GetItem(j, idx) == stripe[j]
        invariant forall j, s :: 0 <= j < NumDrives && 0 <= s < driveDim * driveDim && (i <= j || s != idx) ==>
                    GetItem(j, s) == old(GetItem(j, s))
      {
        WriteItem(i, stripe[i], idx);
      }
    }

    /** write_row: encode the row, roll the stripe by num_stripes and write
      * it across the drives at index num_stripes (so logical symbol k lands
      * on drive (k + num_stripes) mod 8, see Coding.RollPlaces); then count
      * the stripe. Nothing else on the drives changes. */
    method WriteRow(file: Vector)
      requires Storage() && |file| == DataWidth && numStripes < driveDim * driveDim
      requires forall j :: 0 <= j < NumDrives ==> present[j]
      modifies this`numStripes, this`rows, this`placed, disks
      ensures Storage()
      ensures numStripes == old(numStripes) + 1 && rows == old(rows) + [file]
      ensures placed == old(placed) + [Roll(Encode(file), old(numStripes))]
      ensures placed[old(numStripes)] == Roll(Encode(file), old(numStripes))
      ensures forall j :: 0 <= j < NumDrives ==> GetItem(j, old(numStripes)) == placed[old(numStripes)][j]
      ensures forall j, s :: 0 <= j < NumDrives && 0 <= s < driveDim * driveDim && s != old(numStripes) ==>
                GetItem(j, s) == old(GetItem(j, s))
    {
      var n := numStripes;
      var stripe := Encode(file);
      var stripePerm := Roll(stripe, n);
      WriteStripe(stripePerm, n);
      PlacedSnoc(placed, rows, file);
      rows := rows + [file];
      placed := placed + [stripePerm];
      numStripes := n + 1;
    }

    /** The chunk loop of add_file: write_row on each chunk, in order. */
    method WriteRows(chunks: seq<Vector>)
      requires Storage() && numStripes + |chunks| <= driveDim * driveDim
      requires forall c :: 0 <= c < |chunks| ==> |chunks[c]| == DataWidth
      requires forall j :: 0 <= j < NumDrives ==> present[j]
      modifies this`numStripes, this`rows, this`placed, disks
      ensures Storage()
      ensures numStripes == old(numStripes) + |chunks| && rows == old(rows) + chunks
      ensures forall j, s :: 0 <= j < NumDrives && old(numStripes) <= s < numStripes ==> GetItem(j, s) == placed[s][j]
      ensures forall j, s :: 0 <= j < NumDrives && 0 <= s < driveDim * driveDim && !(old(numStripes) <= s < numStripes) ==>
                GetItem(j, s) == old(GetItem(j, s))
    {
      for c := 0 to |chunks|
        invariant Storage() && numStripes == old(numStripes) + c && rows == old(rows) + chunks[..c]
        invariant forall j, s :: 0 <= j < NumDrives && old(numStripes) <= s < numStripes ==> GetItem(j, s) == placed[s][j]
        invariant forall j, s :: 0 <= j < NumDrives && 0 <= s < driveDim * driveDim && !(old(numStripes) <= s < numStripes) ==>
                    GetItem(j, s) == old(GetItem(j, s))
      {
        WriteRow(chunks[c]);
        assert chunks[..c + 1] == chunks[..c] + [chunks[c]];
      }
      assert chunks[..|chunks|] == chunks;
    }

    /** add_file: pad the file (the caller's list) with zeros to a multiple
      * of six, record [rows, rem, first stripe] under file_id and write the
      * rows as consecutive stripes. */
    method AddFile(file: seq<Symbol>, fileId: FileId) returns (padded: seq<Symbol>)
      requires Valid() && forall j :: 0 <= j < NumDrives ==> present[j]
      requires numStripes + |Pad(file)| / DataWidth <= driveDim * driveDim
      modifies this`numStripes, this`rows, this`placed, this`fileMetadata, this`files, disks
      ensures Valid()
      ensures padded == Pad(file)
      ensures fileMetadata == old(fileMetadata)[fileId := Meta(|padded| / DataWidth, |file| % DataWidth, old(numStripes))]
      ensures numStripes == old(numStripes) + |padded| / DataWidth
      ensures rows == old(rows) + Chunks(padded) && files == old(files)[fileId := file]
      ensures forall j, s :: 0 <= j < NumDrives && old(numStripes) <= s < numStripes ==> GetItem(j, s) == placed[s][j]
      ensures forall j, s :: 0 <= j < NumDrives && 0 <= s < driveDim * driveDim && !(old(numStripes) <= s < numStripes) ==>
                GetItem(j, s) == old(GetItem(j, s))
    {
      var fullStripes := |file| / DataWidth;
      var rem := |file| - fullStripes * DataWidth;
      assert rem == |file| % DataWidth;
      padded := file;
      if rem < DataWidth && rem > 0 {
        for k := 0 to DataWidth - rem
          invariant padded == file + Zero(k)
        {
          padded := padded + [0];
        }
      }
      assert padded == Pad(file);
      var chunks := Chunks(padded);
      RecordFile(fileMetadata, files, rows, fileId, file);
      fileMetadata := fileMetadata[fileId := Meta(|chunks|, rem, numStripes)];
      files := files[fileId := file];
      WriteRows(chunks);
    }

    /** detect_failed_drives: failed_drives says whether some drive is gone.
      * available_drives is bound to the fresh flag list once a present drive
      * follows a missing one, and from then on shares it, so it ends up as
      * the full fresh list; otherwise it keeps its old value. */
    method DetectFailedDrives()
      requires Valid()
      modifies this`failedDrives, this`availableDrives
      ensures Valid()
      ensures failedDrives <==> exists j :: 0 <= j < NumDrives && !present[j]
      ensures availableDrives == Detected(present, old(availableDrives))
    {
      var seen: seq<bool> := [];
      failedDrives := false;
      var shared := false;
      for j := 0 to NumDrives
        invariant seen == present[..j]
        invariant failedDrives <==> exists t :: 0 <= t < j && !present[t]
        invariant shared <==> exists a, b :: 0 <= a < b < j && !present[a] && present[b]
        invariant availableDrives == if shared then seen else old(availableDrives)
      {
        if !present[j] {
          failedDrives := true;
          seen := seen + [false];
        } else {
          seen := seen + [true];
          if failedDrives {
            shared := true;
          }
        }
        if shared {
          availableDrives := seen;
        }
        assert present[..j + 1] == present[..j] + [present[j]];
      }
      assert present[..NumDrives] == present;
    }

    /** One pass of init_drives: drive d saved afresh as an all-zero grid. */
    method ZeroDrive(d: nat)
      requires Shaped() && |present| == NumDrives && |intact| == NumDrives && d < NumDrives
      modifies this`present, this`intact, disks
      ensures present == old(present)[d := true] && intact == old(intact)[d := false]
      ensures forall j, s :: 0 <= j < NumDrives && 0 <= s < driveDim * driveDim ==>
                GetItem(j, s) == if j == d then 0 else old(GetItem(j, s))
    {
      forall x, y | 0 <= x < driveDim && 0 <= y < driveDim {
        disks[d, x, y] := 0;
      }
      present := present[d := true];
      intact := intact[d := false];
    }

    /** init_drives(drive=which): every listed drive is re-created as an
      * all-zero grid. An empty list leaves nothing bound to delete, so the
      * call fails (ok false) and changes nothing. */
    method InitDrives(which: seq<nat>) returns (ok: bool)
      requires Valid() && forall k :: 0 <= k < |which| ==> which[k] < NumDrives
      modifies this`present, this`intact, disks
      ensures Valid()
      ensures ok <==> |which| > 0
      ensures !ok ==> present == old(present) && intact == old(intact)
      ensures forall j :: 0 <= j < NumDrives ==> (present[j] <==> old(present[j]) || j in which)
      ensures forall j :: 0 <= j < NumDrives ==> (intact[j] <==> old(intact[j]) && j !in which)
      ensures forall j, s :: 0 <= j < NumDrives && 0 <= s < driveDim * driveDim ==>
                GetItem(j, s) == if j in which then 0 else old(GetItem(j, s))
    {
      for k := 0 to |which|
        invariant |present| == NumDrives && |intact| == NumDrives
        invariant |which| == 0 ==> present == old(present) && intact == old(intact)
        invariant forall j :: 0 <= j < NumDrives ==> (present[j] <==> old(present[j]) || j in which[..k])
        invariant forall j :: 0 <= j < NumDrives ==> (intact[j] <==> old(intact[j]) && j !in which[..k])
        invariant forall j, s :: 0 <= j < NumDrives && 0 <= s < driveDim * driveDim ==>
                    GetItem(j, s) == if j in which[..k] then 0 else old(GetItem(j, s))
      {
        ZeroDrive(which[k]);
        assert which[..k + 1] == which[..k] + [which[k]];
      }
      assert which[..|which|] == which;
      ok := |which| > 0;
    }

    /** assemble_stripe(idx, avail): the symbols of stripe idx on the drives
      * avail keeps, in drive order; reading a drive that is gone fails at the
      * first such drive. */
    method AssembleStripe(idx: nat, avail: seq<bool>) returns (stripe: Vector, missing: Option<nat>)
      requires Shaped() && |present| == NumDrives && idx < driveDim * driveDim && |avail| == NumDrives
      ensures missing.Some? ==> FirstMissing(avail, present, missing.value)
      ensures missing.None? ==> (forall j :: 0 <= j < NumDrives && avail[j] ==> present[j])
                                && stripe == Gather(Column(idx), Survivors(avail))
    {
      stripe := [];
      ghost var column := Column(idx);
      for j := 0 to NumDrives
        invariant forall t :: 0 <= t < j && avail[t] ==> present[t]
        invariant stripe == Collect(column, avail[..j])
      {
        assert avail[..j + 1][..j] == avail[..j];
        if avail[j] {
          if !present[j] {
            return stripe, Some(j);
          }
          stripe := stripe + [GetItem(j, idx)];
        }
      }
      assert avail[..NumDrives] == avail;
      CollectGathers(column, avail);
      missing := None;
    }

    /** stripe(i, rem_fixed, new_avail): read the symbols of stripe i from
      * the drives rem_fixed keeps, rebuild the full stripe with step, and
      * write its symbols back to the drives new_avail marks as replaced.
      * A kept drive that is gone stops the call before anything is written,
      * and so does a rebuild that fails. */
    method Stripe(i: nat, remFixed: seq<bool>, newAvail: seq<bool>, step: (Vector, nat) -> Option<Vector>,
                  ghost surv: Vector)
      returns (r: Outcome)
      requires Shaped() && |present| == NumDrives && i < driveDim * driveDim
      requires |remFixed| == NumDrives && |newAvail| == NumDrives
      requires surv == Gather(Column(i), Survivors(remFixed))
      requires forall j :: 0 <= j < NumDrives && !newAvail[j] ==> present[j]
      requires forall surv, k :: step(surv, k).Some? ==> |step(surv, k).value| == NumDrives
      modifies disks
      ensures r.DriveMissing? || r == Done || r == NotInvertible
      ensures r.DriveMissing? ==> FirstMissing(remFixed, present, r.drive)
      ensures !r.DriveMissing? ==> forall j :: 0 <= j < NumDrives && remFixed[j] ==> present[j]
      ensures !r.DriveMissing? ==> (r == Done <==> step(surv, i).Some?)
      ensures forall j, s :: 0 <= j < NumDrives && 0 <= s < driveDim * driveDim ==>
                GetItem(j, s) == if r == Done && s == i && !newAvail[j] then step(surv, i).value[j] else old(GetItem(j, s))
    {
      var surv, missing := AssembleStripe(i, remFixed);
      if missing.Some? {
        return DriveMissing(missing.value);
      }
      var rebuilt := step(surv, i);
      if rebuilt.None? {
        return NotInvertible;
      }
      var restored := rebuilt.value;
      for j := 0 to NumDrives
        invariant forall t, s :: 0 <= t < NumDrives && 0 <= s < driveDim * driveDim ==>
                    GetItem(t, s) == if s == i && t < j && !newAvail[t] then restored[t] else old(GetItem(t, s))
      {
        if !newAvail[j] {
          WriteItem(j, restored[j], i);
        }
      }
      r := Done;
    }

    /** The heal pass of fix_failure: stripe(i, ...) for every stripe in
      * order (one worker, so one stripe at a time), up to the first stripe
      * that fails. surv holds the symbols each stripe's kept drives held
      * when the pass began; done receives the rebuilt stripes. */
    method HealStripes(remFixed: seq<bool>, newAvail: seq<bool>, step: (Vector, nat) -> Option<Vector>,
                       ghost surv: seq<Vector>)
      returns (r: Outcome, ghost done: seq<Vector>)
      requires Shaped() && |present| == NumDrives && numStripes <= driveDim * driveDim
      requires |remFixed| == NumDrives && |newAvail| == NumDrives
      requires surv == Survived(remFixed, numStripes)
      requires forall j :: 0 <= j < NumDrives && remFixed[j] ==> newAvail[j]
      requires forall j :: 0 <= j < NumDrives && !newAvail[j] ==> present[j]
      requires forall v, k :: step(v, k).Some? ==> |step(v, k).value| == NumDrives
      modifies disks
      ensures r.DriveMissing? || r == Done || r == NotInvertible
      ensures r.DriveMissing? ==> numStripes > 0 && FirstMissing(remFixed, present, r.drive) && done == []
      ensures !r.DriveMissing? && numStripes > 0 ==> forall j :: 0 <= j < NumDrives && remFixed[j] ==> present[j]
      ensures |done| <= numStripes && forall k :: 0 <= k < |done| ==> step(surv[k], k) == Some(done[k])
      ensures r == Done ==> |done| == numStripes
      ensures r == NotInvertible ==> |done| < numStripes && step(surv[|done|], |done|).None?
      ensures forall j, s :: 0 <= j < NumDrives && 0 <= s < driveDim * driveDim ==>
                GetItem(j, s) == if s < |done| && !newAvail[j] then done[s][j] else old(GetItem(j, s))
    {
      done := [];
      var i := 0;
      while i < numStripes
        invariant i <= numStripes
        invariant |done| == i && forall k :: 0 <= k < i ==> step(surv[k], k) == Some(done[k])
        invariant i > 0 ==> forall j :: 0 <= j < NumDrives && remFixed[j] ==> present[j]
        invariant forall j, s :: 0 <= j < NumDrives && 0 <= s < driveDim * driveDim ==>
                    GetItem(j, s) == if s < i && !newAvail[j] then done[s][j] else old(GetItem(j, s))
      {
        assert Column(i) == old(Column(i));
        r := Stripe(i, remFixed, newAvail, step, surv[i]);
        if r.DriveMissing? {
          assert remFixed[r.drive] && !present[r.drive];
          return r, [];
        } else if r == NotInvertible {
          return;
        }
        done := done + [step(surv[i], i).value];
        i := i + 1;
      }
      r := Done;
    }

    /** The kept drives of an intact set read back what write_row placed. */
    lemma SurvivedPlaced(remFixed: seq<bool>)
      requires Storage() && |remFixed| == NumDrives
      requires forall j :: 0 <= j < NumDrives && remFixed[j] ==> intact[j]
      ensures forall s :: 0 <= s < numStripes ==>
                Survived(remFixed, numStripes)[s] == Gather(placed[s], Survivors(remFixed))
    {
      var surv := Survived(remFixed, numStripes);
      var ts := Survivors(remFixed);
      forall s | 0 <= s < numStripes ensures surv[s] == Gather(placed[s], ts) {
        assert forall k :: 0 <= k < |ts| ==> Column(s)[ts[k]] == placed[s][ts[k]];
      }
    }

    /** init_drives(drive=argwhere(new_avail == 0)): re-create every drive
      * new_avail lacks; fails when it lacks none. */
    method ReplaceDrives(newAvail: seq<bool>) returns (ok: bool)
      requires Valid() && |newAvail| == NumDrives
      modifies this`present, this`intact, disks
      ensures Valid()
      ensures ok <==> Ones(newAvail) < NumDrives
      ensures !ok ==> present == old(present) && intact == old(intact)
      ensures forall j :: 0 <= j < NumDrives ==> (present[j] <==> old(present[j]) || !newAvail[j])
      ensures forall j :: 0 <= j < NumDrives ==> (intact[j] <==> old(intact[j]) && newAvail[j])
      ensures forall j, s :: 0 <= j < NumDrives && 0 <= s < driveDim * driveDim ==>
                GetItem(j, s) == if newAvail[j] then old(GetItem(j, s)) else 0
    {
      var replace := Survivors(Not(newAvail));
      OnesNot(newAvail);
      forall j | 0 <= j < NumDrives ensures j in replace <==> !newAvail[j] {
        if !newAvail[j] {
          SurvivorsComplete(Not(newAvail), j);
        }
      }
      ok := InitDrives(replace);
    }

    /** Writing to the drives keeps Valid as long as no intact drive's
      * symbols change. */
    twostate lemma DrivesKept()
      requires old(Valid()) && unchanged(this)
      requires forall j, s :: 0 <= j < NumDrives && intact[j] && 0 <= s < driveDim * driveDim ==>
                 GetItem(j, s) == old(GetItem(j, s))
      ensures Valid()
    {
    }

    /** A replaced drive that holds, for every stripe, what write_row placed
      * on it joins intact. */
    ghost method MarkRebuilt(newAvail: seq<bool>)
      requires Valid() && |newAvail| == NumDrives
      requires forall j :: 0 <= j < NumDrives && !newAvail[j] ==> present[j]
      requires forall j, s :: 0 <= j < NumDrives && !newAvail[j] && 0 <= s < numStripes ==> GetItem(j, s) == placed[s][j]
      modifies this`intact
      ensures Valid()
      ensures forall j :: 0 <= j < NumDrives ==> (intact[j] <==> old(intact[j]) || !newAvail[j])
    {
      var before := intact;
      intact := seq(NumDrives, j requires 0 <= j < NumDrives => before[j] || !newAvail[j]);
    }

    /** The heal pass of fix_failure after the replacement drives exist, and
      * what it means for intact: the replaced drives join it when every
      * stripe was rebuilt from drives that held what write_row placed. */
    method Heal(remFixed: seq<bool>, newAvail: seq<bool>, step: (Vector, nat) -> Option<Vector>) returns (r: Outcome)
      requires Valid() && |newAvail| == NumDrives && remFixed == RemFixed(newAvail)
      requires forall j :: 0 <= j < NumDrives && !newAvail[j] ==> present[j] && !intact[j]
      requires forall v, k :: step(v, k).Some? ==> |step(v, k).value| == NumDrives
      requires Ones(remFixed) != DataWidth ==> forall v, k :: step(v, k).None?
      requires Ones(remFixed) == DataWidth ==>
                 forall s :: 0 <= s < |rows| ==> step(Gather(placed[s], Survivors(remFixed)), s) == Some(placed[s])
      modifies this`intact, disks
      ensures Valid()
      ensures r.DriveMissing? || r == Done || r == NotInvertible
      ensures r.DriveMissing? ==> FirstMissing(remFixed, present, r.drive)
      ensures forall j, s :: 0 <= j < NumDrives && newAvail[j] && 0 <= s < driveDim * driveDim ==>
                GetItem(j, s) == old(GetItem(j, s))
      ensures var healed := r == Done && forall j :: 0 <= j < NumDrives && remFixed[j] ==> old(intact[j]);
              forall j :: 0 <= j < NumDrives ==> (intact[j] <==> if healed then old(intact[j]) || !newAvail[j] else old(intact[j]))
      ensures r == NotInvertible ==>
                numStripes > 0 && (Ones(remFixed) != DataWidth || exists j :: 0 <= j < NumDrives && remFixed[j] && !old(intact[j]))
    {
      ghost var surv := Survived(remFixed, numStripes);
      ghost var fromIntact := forall j :: 0 <= j < NumDrives && remFixed[j] ==> intact[j];
      if fromIntact {
        SurvivedPlaced(remFixed);
      }
      ghost var done;
      r, done := HealStripes(remFixed, newAvail, step, surv);
      DrivesKept();
      if fromIntact && r == Done {
        forall j, s | 0 <= j < NumDrives && !newAvail[j] && 0 <= s < numStripes
          ensures GetItem(j, s) == placed[s][j]
        {
          assert step(surv[s], s) == Some(done[s]);
        }
        MarkRebuilt(newAvail);
      }
    }

    /** fix_failure once new_avail is known: drop the lowest available
      * drive when more than six are available (rem_fixed), re-create the
      * drives new_avail lacks and heal every stripe from the drives
      * rem_fixed keeps. */
    method Repair(newAvail: seq<bool>) returns (r: Outcome)
      requires Valid() && |newAvail| == NumDrives
      modifies this`present, this`intact, disks
      ensures Valid()
      ensures Ones(newAvail) == NumDrives ==>
                r == NothingToReplace && present == old(present) && intact == old(intact)
      ensures Ones(newAvail) < NumDrives ==>
                r != NothingToReplace && forall j :: 0 <= j < NumDrives ==> (present[j] <==> old(present[j]) || !newAvail[j])
      ensures r.DriveMissing? ==> FirstMissing(RemFixed(newAvail), present, r.drive)
      ensures forall j, s :: 0 <= j < NumDrives && newAvail[j] && 0 <= s < driveDim * driveDim ==>
                GetItem(j, s) == old(GetItem(j, s))
      ensures var healed := r == Done && forall j :: 0 <= j < NumDrives && RemFixed(newAvail)[j] ==> old(intact[j]);
              forall j :: 0 <= j < NumDrives ==>
                (intact[j] <==> if healed then old(intact[j]) || !newAvail[j] else old(intact[j]) && newAvail[j])
      ensures r == NotInvertible ==>
                numStripes > 0 && (Ones(RemFixed(newAvail)) != DataWidth
                                   || exists j :: 0 <= j < NumDrives && RemFixed(newAvail)[j] && !old(intact[j]))
      ensures DataWidth <= Ones(newAvail) < NumDrives && (forall j :: 0 <= j < NumDrives && newAvail[j] ==> old(intact[j])) ==>
                r == Done && present == AllUp && intact == AllUp
    {
      var remFixed := newAvail;
      if Ones(remFixed) > NumDrives - 2 {
        var idx := Survivors(remFixed)[0];
        remFixed := remFixed[idx := false];
      }
      assert remFixed == RemFixed(newAvail);
      var ok := ReplaceDrives(newAvail);
      if !ok {
        return NothingToReplace;
      }
      var step := StripeStep(remFixed);
      if Ones(remFixed) == DataWidth {
        StripeStepRestores(remFixed, rows, placed);
      }
      r := Heal(remFixed, newAvail, step);
    }

    /** fix_failure: detect the failed drives, take new_avail from the
      * detected flags, and repair. */
    method FixFailure() returns (r: Outcome)
      requires Valid()
      modifies this`failedDrives, this`availableDrives, this`present, this`intact, disks
      ensures Valid()
      ensures failedDrives <==> exists j :: 0 <= j < NumDrives && !old(present[j])
      ensures availableDrives == Detected(old(present), old(availableDrives))
      ensures Ones(availableDrives) == NumDrives ==>
                r == NothingToReplace && present == old(present) && intact == old(intact)
      ensures Ones(availableDrives) < NumDrives ==>
                r != NothingToReplace && forall j :: 0 <= j < NumDrives ==> (present[j] <==> old(present[j]) || !availableDrives[j])
      ensures r.DriveMissing? ==> FirstMissing(RemFixed(availableDrives), present, r.drive)
      ensures forall j, s :: 0 <= j < NumDrives && availableDrives[j] && 0 <= s < driveDim * driveDim ==>
                GetItem(j, s) == old(GetItem(j, s))
      ensures var healed := r == Done && forall j :: 0 <= j < NumDrives && RemFixed(availableDrives)[j] ==> old(intact[j]);
              forall j :: 0 <= j < NumDrives ==>
                (intact[j] <==> if healed then old(intact[j]) || !availableDrives[j] else old(intact[j]) && availableDrives[j])
      ensures r == NotInvertible ==>
                numStripes > 0 && (Ones(RemFixed(availableDrives)) != DataWidth
                                   || exists j :: 0 <= j < NumDrives && RemFixed(availableDrives)[j] && !old(intact[j]))
      ensures var na := Detected(old(present), old(availableDrives));
              DataWidth <= Ones(na) < NumDrives && (forall j :: 0 <= j < NumDrives && na[j] ==> old(intact[j])) ==>
                r == Done && present == AllUp && intact == AllUp
    {
      DetectFailedDrives();
      var newAvail := NewAvail(AllUp, availableDrives);
      NewAvailAllUp(availableDrives);
      r := Repair(newAvail);
    }

    /** The columns of stripes start .. start + n - 1. */
    ghost function Columns(start: nat, n: nat): (cols: seq<Vector>)
      reads this`disks, disks
      requires Shaped() && start + n <= driveDim * driveDim
      ensures |cols| == n && forall k {:trigger cols[k]} :: 0 <= k < n ==> |cols[k]| == NumDrives
    {
      if n == 0 then [] else Columns(start, n - 1) + [Column(start + n - 1)]
    }

    /** One more stripe read extends the rows read so far by its row. */
    lemma ReadRowsNext(start: nat, k: nat, stripe: Vector)
      requires Shaped() && start + k < driveDim * driveDim && stripe == Column(start + k)
      ensures ReadRows(Columns(start, k + 1), start) == ReadRows(Columns(start, k), start) + [ReadRow(stripe, start + k)]
    {
      var cols := Columns(start, k);
      assert Columns(start, k + 1) == cols + [stripe];
      ReadRowsSnoc(cols, stripe, start);
    }

    /** With every drive intact, stripe s is the stripe write_row placed. */
    lemma ColumnPlaced(s: nat)
      requires Storage() && s < numStripes && forall j :: 0 <= j < NumDrives ==> intact[j]
      ensures Column(s) == placed[s]
    {
      assert PlacedAt(placed, rows, s);
    }

    /** With every drive intact, stripes start .. start + n - 1 are the
      * stripes write_row placed. */
    lemma {:induction false} ColumnsPlaced(start: nat, n: nat)
      requires Storage() && start + n <= numStripes && forall j :: 0 <= j < NumDrives ==> intact[j]
      ensures Columns(start, n) == placed[start .. start + n]
    {
      if n > 0 {
        ColumnsPlaced(start, n - 1);
        ColumnPlaced(start + n - 1);
        assert placed[start .. start + n] == placed[start .. start + n - 1] + [placed[start + n - 1]];
      }
    }

    /** With every drive intact, read_file's rows, laid end to end and
      * trimmed, are the bytes the file was added with. */
    lemma ReadsBack(fileId: FileId)
      requires Valid() && fileId in fileMetadata && forall j :: 0 <= j < NumDrives ==> intact[j]
      ensures var m := fileMetadata[fileId];
              m.rem < DataWidth && m.start + m.rowCount <= numStripes
              && Trim(Flatten(ReadRows(Columns(m.start, m.rowCount), m.start)), m.rem) == files[fileId]
    {
      var m := fileMetadata[fileId];
      var file := files[fileId];
      assert Describes(m, file, rows);
      ColumnsPlaced(m.start, m.rowCount);
      FileReadsBack(placed, rows, m, file);
    }

    /** read_file's loops over stripes start .. start + count - 1: each
      * stripe read with get_item from all eight drives in order, rolled back by its index
      * and cut to its first six symbols; the first missing drive file stops
      * the read. */
    method ReadStripes(start: nat, count: nat) returns (stripes: seq<Vector>, missing: Option<nat>)
      requires Shaped() && |present| == NumDrives && start + count <= driveDim * driveDim
      ensures missing.Some? <==> count > 0 && exists j :: 0 <= j < NumDrives && !present[j]
      ensures missing.Some? ==> FirstMissing(AllUp, present, missing.value)
      ensures missing.None? ==> stripes == ReadRows(Columns(start, count), start)
    {
      stripes := [];
      var k := 0;
      while k < count
        invariant k <= count
        invariant stripes == ReadRows(Columns(start, k), start)
        invariant k > 0 ==> forall d :: 0 <= d < NumDrives ==> present[d]
      {
        var stripe := [];
        var i := 0;
        while i < NumDrives
          invariant i <= NumDrives && |stripe| == i
          invariant forall d :: 0 <= d < i ==> present[d] && stripe[d] == GetItem(d, start + k)
        {
          if !present[i] {
            return stripes, Some(i);
          }
          stripe := stripe + [GetItem(i, start + k)];
          i := i + 1;
        }
        ReadRowsNext(start, k, stripe);
        stripes := stripes + [ReadRow(stripe, start + k)];
        k := k + 1;
      }
      missing := None;
    }

    /** read_file: the file's rows read back stripe by stripe from all
      * eight drives, each stripe rolled back by its index and cut to its
      * first six symbols, laid end to end, and the padding trimmed. */
    method ReadFile(fileId: FileId) returns (out: ReadOutcome)
      requires Valid()
      ensures fileId !in fileMetadata ==> out == NoSuchFile
      ensures fileId in fileMetadata ==>
                var m := fileMetadata[fileId];
                m.rem < DataWidth && m.start + m.rowCount <= driveDim * driveDim
                && if m.rowCount > 0 && exists j :: 0 <= j < NumDrives && !present[j]
                   then out.DriveGone? && FirstMissing(AllUp, present, out.drive)
                   else out == Contents(Trim(Flatten(ReadRows(Columns(m.start, m.rowCount), m.start)), m.rem))
      ensures fileId in fileMetadata && (forall j :: 0 <= j < NumDrives ==> intact[j]) ==>
                out == Contents(files[fileId])
    {
      if fileId !in fileMetadata {
        return NoSuchFile;
      }
      var m := fileMetadata[fileId];
      assert Describes(m, files[fileId], rows);
      var stripes, missing := ReadStripes(m.start, m.rowCount);
      if missing.Some? {
        return DriveGone(missing.value);
      }
      out := Contents(Trim(Flatten(stripes), m.rem));
      if forall k :: 0 <= k < NumDrives ==> intact[k] {
        ReadsBack(fileId);
      }
    }
  }
}
