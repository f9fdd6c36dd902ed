/**
 * The first controller: all eight drives live in one in-memory array of
 * drive_cap rows by 8 columns, row i holding stripe i (the i-th file, six
 * symbols long). A failure deletes columns from the array; reconstruction
 * rebuilds every row from the six surviving columns.
 */
module Raid6V0 {
  import opened GF256
  import opened Matrices
  import opened Coding

  /** The drive numbers 0..7, in order. */
  const AllDrives: seq<nat> := seq(NumDrives, c requires 0 <= c < NumDrives => c as nat)

  /** The flags of rem_list (and of the columns np.delete keeps): set exactly
    * for the positions below w that are not listed in failed. */
  function KeepFlags(failed: seq<int>, w: nat): (f: seq<bool>)
    ensures |f| == w
    ensures forall c :: 0 <= c < w ==> (f[c] <==> c !in failed)
  {
    seq(w, c => c !in failed)
  }

  /** failed names exactly the two drives a < b. */
  predicate NamesTwo(failed: seq<int>, a: nat, b: nat)
  {
    a < b < NumDrives && forall t :: 0 <= t < NumDrives ==> (t in failed <==> t == a || t == b)
  }

  ghost predicate TwoFailed(failed: seq<int>)
  {
    exists a: nat, b: nat :: NamesTwo(failed, a, b)
  }

  /** The columns that survive deleting the listed positions from w columns
    * are exactly the unlisted ones, kept in their original order. */
  lemma KeptColumns(failed: seq<int>, w: nat)
    ensures forall c :: 0 <= c < w ==> (c in Survivors(KeepFlags(failed, w)) <==> c !in failed)
    ensures forall k :: 0 <= k < |Survivors(KeepFlags(failed, w))| ==>
              Survivors(KeepFlags(failed, w))[k] < w && Survivors(KeepFlags(failed, w))[k] !in failed
    ensures forall k, l :: 0 <= k < l < |Survivors(KeepFlags(failed, w))| ==>
              Survivors(KeepFlags(failed, w))[k] < Survivors(KeepFlags(failed, w))[l]
  {
    var f := KeepFlags(failed, w);
    forall c | 0 <= c < w && c !in failed ensures c in Survivors(f) {
      SurvivorsComplete(f, c);
    }
    SurvivorsIncreasing(f);
  }

  /** Strictly increasing drive numbers below n: entry c lies in c .. n - |cols| + c. */
  lemma {:induction false} IncreasingBounds(cols: seq<nat>, n: nat)
    requires forall c :: 0 <= c < |cols| ==> cols[c] < n
    requires forall c, e :: 0 <= c < e < |cols| ==> cols[c] < cols[e]
    ensures forall c :: 0 <= c < |cols| ==> c <= cols[c] <= n - |cols| + c
    decreases |cols|
  {
    if |cols| > 0 {
      var last := cols[|cols| - 1];
      var prefix := cols[..|cols| - 1];
      IncreasingBounds(prefix, last);
      assert forall c :: 0 <= c < |prefix| ==> prefix[c] == cols[c];
      assert |prefix| > 0 ==> prefix[|prefix| - 1] < last;
    }
  }

  /** Eight strictly increasing drive numbers are all the drives. */
  lemma AllColumns(cols: seq<nat>)
    requires |cols| == NumDrives && forall c :: 0 <= c < |cols| ==> cols[c] < NumDrives
    requires forall c, e :: 0 <= c < e < |cols| ==> cols[c] < cols[e]
    ensures cols == AllDrives
  {
    IncreasingBounds(cols, NumDrives);
  }

  datatype FixOutcome =
    | Rebuilt
    | NoFailureRecorded   // failed_drives is still None: `i not in None` raises TypeError
    | NotInvertible       // the error matrix is not square, or is singular: ValueError
    | WidthMismatch       // a square error matrix applied to a stripe of another length

  /** What fix_failure does with one row: the data restored from stripe i,
    * or the error that stops it. */
  datatype RowOutcome = Restored(data: Vector) | Failed(why: FixOutcome)

  /** One iteration of fix_failure's loop up to restore_data: order the
    * surviving rows of stripe i, invert their error matrix and multiply the
    * stripe by the inverse. */
  function RestoreRow(remList: seq<bool>, stripe: Vector, i: nat): (r: RowOutcome)
    requires |remList| == NumDrives
    ensures r.Restored? ==> |r.data| == DataWidth
    ensures r.Failed? ==> r.why == NotInvertible || r.why == WidthMismatch
  {
    var rows := RowsOrdered(remList, i);
    match Inverse(ErrorMatrix(rows), DataWidth)
    case None => Failed(NotInvertible)
    case Some(X) =>
      if |stripe| != DataWidth then Failed(WidthMismatch) else Restored(RestoreData(X, stripe))
  }

  /** Any number of failed drives other than two leaves a non-square error
    * matrix, which has no inverse: the first row already fails. */
  lemma RestoreRowNeedsSix(remList: seq<bool>, stripe: Vector, i: nat)
    requires |remList| == NumDrives && Ones(remList) != DataWidth
    ensures RestoreRow(remList, stripe, i) == Failed(NotInvertible)
  {
  }

  /** With exactly the two drives a and b failed, the surviving columns of
    * row i give back the data that row encodes. */
  lemma RestoreRowHeals(failed: seq<int>, a: nat, b: nat, d: Vector, i: nat)
    requires NamesTwo(failed, a, b) && |d| == DataWidth
    ensures RestoreRow(KeepFlags(failed, NumDrives),
                       Gather(Roll(Encode(d), i), Survivors(KeepFlags(failed, NumDrives))), i)
            == Restored(d)
  {
    DecodeStripe(d, KeepFlags(failed, NumDrives), a, b, i);
  }

  /** The outcome of fix_failure's whole loop: the data rows restored from
    * every stripe, or the error at the first stripe that cannot be restored. */
  datatype FixResult = AllRestored(data: seq<Vector>) | Stopped(why: FixOutcome)

  /** fix_failure's loop over the stripes rows[0], rows[1], ... as a
    * function of its per-row step: the rows are handled in order and the
    * first row the step rejects ends the loop with its error. */
  function RunRows(step: (Vector, nat) -> RowOutcome, rows: seq<Vector>): (r: FixResult)
    ensures r.AllRestored? ==> |r.data| == |rows|
    ensures r.AllRestored? ==> forall k :: 0 <= k < |rows| ==> step(rows[k], k) == Restored(r.data[k])
    decreases |rows|
  {
    if |rows| == 0 then AllRestored([])
    else
      var n := |rows| - 1;
      match RunRows(step, rows[..n])
      case Stopped(e) => Stopped(e)
      case AllRestored(ds) =>
        match step(rows[n], n)
        case Failed(e) => Stopped(e)
        case Restored(d) =>
          assert forall k :: 0 <= k < n ==> rows[..n][k] == rows[k];
          AllRestored(ds + [d])
  }

  /** The loop restores all rows exactly when the step restores every row on
    * its own, row k giving ds[k]. */
  lemma {:induction false} RunRowsAll(step: (Vector, nat) -> RowOutcome, rows: seq<Vector>, ds: seq<Vector>)
    requires |ds| == |rows|
    ensures RunRows(step, rows) == AllRestored(ds)
            <==> forall k :: 0 <= k < |rows| ==> step(rows[k], k) == Restored(ds[k])
    decreases |rows|
  {
    if |rows| > 0 {
      var n := |rows| - 1;
      RunRowsAll(step, rows[..n], ds[..n]);
      assert forall k :: 0 <= k < n ==> rows[..n][k] == rows[k] && ds[..n][k] == ds[k];
      assert ds == ds[..n] + [ds[n]];
    }
  }

  /** Once a prefix of the rows stops the loop, the whole loop stops with
    * the same error: no later row is looked at. */
  lemma {:induction false} RunRowsStops(step: (Vector, nat) -> RowOutcome, rows: seq<Vector>, j: nat)
    requires j <= |rows| && RunRows(step, rows[..j]).Stopped?
    ensures RunRows(step, rows) == RunRows(step, rows[..j])
    decreases |rows| - j
  {
    if j < |rows| {
      var n := |rows| - 1;
      assert rows[..n][..j] == rows[..j];
      RunRowsStops(step, rows[..n], j);
    } else {
      assert rows[..j] == rows;
    }
  }

  /** A stopped loop names the error of one of its rows. */
  lemma {:induction false} RunRowsFailedRow(step: (Vector, nat) -> RowOutcome, rows: seq<Vector>)
    returns (k: nat)
    requires RunRows(step, rows).Stopped?
    ensures k < |rows| && step(rows[k], k) == Failed(RunRows(step, rows).why)
    decreases |rows|
  {
    var n := |rows| - 1;
    if RunRows(step, rows[..n]).Stopped? {
      k := RunRowsFailedRow(step, rows[..n]);
      assert rows[..n][k] == rows[k];
    } else {
      k := n;
    }
  }

  /** The step fix_failure takes for row i, given rem_list. */
  function RowStep(remList: seq<bool>): (step: (Vector, nat) -> RowOutcome)
    requires |remList| == NumDrives
    ensures forall stripe, i :: step(stripe, i) == RestoreRow(remList, stripe, i)
  {
    (stripe: Vector, i: nat) => RestoreRow(remList, stripe, i)
  }

  /** fix_failure needs exactly six surviving drives: with any other number,
    * a non-empty array fails at its first row. */
  lemma RestoreAllNeedsSix(remList: seq<bool>, rows: seq<Vector>)
    requires |remList| == NumDrives && Ones(remList) != DataWidth && |rows| > 0
    ensures RunRows(RowStep(remList), rows) == Stopped(NotInvertible)
  {
    RestoreRowNeedsSix(remList, rows[0], 0);
    assert rows[..1][..0] == [];
    RunRowsStops(RowStep(remList), rows, 1);
  }

  /** With exactly the drives a and b failed, every row whose surviving
    * columns come from the stripe of ds[k] gives back ds[k]. */
  lemma RestoreAllHeals(failed: seq<int>, a: nat, b: nat, rows: seq<Vector>, ds: seq<Vector>)
    requires NamesTwo(failed, a, b) && |rows| == |ds|
    requires forall k :: 0 <= k < |ds| ==> |ds[k]| == DataWidth
    requires forall k :: 0 <= k < |ds| ==>
               rows[k] == Gather(Roll(Encode(ds[k]), k), Survivors(KeepFlags(failed, NumDrives)))
    ensures RunRows(RowStep(KeepFlags(failed, NumDrives)), rows) == AllRestored(ds)
  {
    var step := RowStep(KeepFlags(failed, NumDrives));
    forall k | 0 <= k < |rows| ensures step(rows[k], k) == Restored(ds[k]) {
      RestoreRowHeals(failed, a, b, ds[k], k);
    }
    RunRowsAll(step, rows, ds);
  }

  /** stripes[k] is the stripe row k holds once it stores ds[k]: ds[k]
    * encoded and rolled by k. Appending a data row and its stripe keeps
    * this so. */
  lemma StripesSnoc(stripes: seq<Vector>, ds: seq<Vector>, d: Vector)
    requires |stripes| == |ds| && |d| == DataWidth
    requires forall k :: 0 <= k < |ds| ==> |ds[k]| == DataWidth && stripes[k] == Roll(Encode(ds[k]), k)
    ensures forall k :: 0 <= k <= |ds| ==>
              |(ds + [d])[k]| == DataWidth
              && (stripes + [Roll(Encode(d), |ds|)])[k] == Roll(Encode((ds + [d])[k]), k)
  {
    var stripes' := stripes + [Roll(Encode(d), |ds|)];
    forall k | 0 <= k <= |ds|
      ensures |(ds + [d])[k]| == DataWidth && stripes'[k] == Roll(Encode((ds + [d])[k]), k)
    {
      if k < |ds| {
        assert (ds + [d])[k] == ds[k];
        assert stripes'[k] == stripes[k];
      } else {
        assert (ds + [d])[k] == d;
      }
    }
  }

  /** Row r of an array, a[r, :]. */
  function RowOf(a: array2<Symbol>, r: nat): (v: Vector)
    requires r < a.Length0
    reads a
    ensures |v| == a.Length1 && forall c :: 0 <= c < |v| ==> v[c] == a[r, c]
  {
    seq(a.Length1, c requires 0 <= c < a.Length1 && r < a.Length0 reads a => a[r, c])
  }

  /** All rows of an array, in order. */
  function RowsOf(a: array2<Symbol>): (rows: seq<Vector>)
    reads a
    ensures |rows| == a.Length0 && forall r :: 0 <= r < |rows| ==> rows[r] == RowOf(a, r)
  {
    seq(a.Length0, r requires 0 <= r < a.Length0 reads a => RowOf(a, r))
  }

  /** new_drives[i, :] = row: row i of the array becomes `row`, the other
    * rows stay as they were. */
  method PlaceRow(a: array2<Symbol>, i: nat, row: Vector)
    requires i < a.Length0 && |row| == a.Length1
    modifies a
    ensures forall c :: 0 <= c < a.Length1 ==> a[i, c] == row[c]
    ensures forall k, c :: 0 <= k < a.Length0 && k != i && 0 <= c < a.Length1 ==> a[k, c] == old(a[k, c])
  {
    forall c | 0 <= c < a.Length1 {
      a[i, c] := row[c];
    }
  }

  /** np.delete along axis 1: a fresh array holding, in order, the columns
    * of a listed in keep. */
  method DeleteColumns(a: array2<Symbol>, keep: seq<nat>) returns (kept: array2<Symbol>)
    requires forall c :: 0 <= c < |keep| ==> keep[c] < a.Length1
    ensures fresh(kept) && kept.Length0 == a.Length0 && kept.Length1 == |keep|
    ensures forall r, c :: 0 <= r < a.Length0 && 0 <= c < |keep| ==> kept[r, c] == a[r, keep[c]]
  {
    kept := new Symbol[a.Length0, |keep|];
    forall r, c | 0 <= r < a.Length0 && 0 <= c < |keep| {
      kept[r, c] := a[r, keep[c]];
    }
  }

  /** The loop of fix_failure: for each row i of `a`, in order, take the
    * step on drives[i, :]; encode the restored data, roll it by i and store
    * it as row i of a fresh full-width array. The first row the step
    * rejects ends the loop. */
  method RebuildRows(a: array2<Symbol>, step: (Vector, nat) -> RowOutcome)
    returns (b: array2<Symbol>, result: FixResult)
    requires forall stripe, i :: step(stripe, i).Restored? ==> |step(stripe, i).data| == DataWidth
    ensures fresh(b) && b.Length0 == a.Length0 && b.Length1 == NumDrives
    ensures result == RunRows(step, RowsOf(a))
    ensures result.AllRestored? ==> forall k :: 0 <= k < a.Length0 ==> |result.data[k]| == DataWidth
    ensures result.AllRestored? ==> forall k, c :: 0 <= k < a.Length0 && 0 <= c < NumDrives ==>
              b[k, c] == Roll(Encode(result.data[k]), k)[c]
  {
    b := new Symbol[a.Length0, NumDrives]((r, c) => 0);
    ghost var rows := RowsOf(a);
    var restoredRows: seq<Vector> := [];
    ghost var stripes: seq<Vector> := [];
    var i := 0;
    while i < a.Length0
      invariant 0 <= i <= a.Length0 && fresh(b)
      invariant b.Length0 == a.Length0 && b.Length1 == NumDrives
      invariant RunRows(step, rows[..i]) == AllRestored(restoredRows)
      invariant |restoredRows| == i && |stripes| == i
      invariant forall k :: 0 <= k < i ==>
                  |restoredRows[k]| == DataWidth && stripes[k] == Roll(Encode(restoredRows[k]), k)
      invariant forall k, c :: 0 <= k < i && 0 <= c < NumDrives ==> b[k, c] == stripes[k][c]
    {
      var stripe := RowOf(a, i);
      assert rows[..i + 1][..i] == rows[..i] && rows[..i + 1][i] == stripe;
      var outcome := step(stripe, i);
      if outcome.Failed? {
        RunRowsStops(step, rows, i + 1);
        return b, Stopped(outcome.why);
      }
      var restored := outcome.data;
      var stripePerm := Roll(Encode(restored), i);
      PlaceRow(b, i, stripePerm);
      StripesSnoc(stripes, restoredRows, restored);
      restoredRows := restoredRows + [restored];
      stripes := stripes + [stripePerm];
      i := i + 1;
    }
    assert rows[..i] == rows;
    result := AllRestored(restoredRows);
  }

  class Controller {
    /** drive_cap: the number of rows, one stripe each. */
    const cap: nat
    var drives: array2<Symbol>
    var fileId: nat
    var failedDrives: Option<seq<int>>
    /** The data row that each row of the array encodes (zeros if unused). */
    ghost var data: seq<Vector>
    /** The original drive number of each column still in the array. */
    ghost var cols: seq<nat>

    /** Row r holds, in each remaining column, the symbol that rolling the
      * stripe of data[r] by r placed on that column's drive. */
    ghost predicate Valid()
      reads this, drives
    {
      drives.Length0 == cap && drives.Length1 == |cols| && |data| == cap && fileId <= cap
      && (forall r :: 0 <= r < cap ==> |data[r]| == DataWidth)
      && |cols| <= NumDrives && (forall c :: 0 <= c < |cols| ==> cols[c] < NumDrives)
      && (|cols| == NumDrives ==> cols == AllDrives)
      && (forall r, c :: 0 <= r < cap && 0 <= c < |cols| ==>
            drives[r, c] == Roll(Encode(data[r]), r)[cols[c]])
    }

    /** __init__: a zero array of drive_cap rows by 8 drives, no file yet and
      * no failure recorded. */
    constructor (driveCap: nat)
      ensures Valid() && fresh(drives)
      ensures cap == driveCap && fileId == 0 && failedDrives == None && cols == AllDrives
      ensures forall r, c :: 0 <= r < cap && 0 <= c < NumDrives ==> drives[r, c] == 0
      ensures forall r :: 0 <= r < cap ==> data[r] == Zero(DataWidth)
    {
      cap := driveCap;
      drives := new Symbol[driveCap, NumDrives]((r, c) => 0);
      fileId := 0;
      failedDrives := None;
      data := seq(driveCap, _ => Zero(DataWidth));
      cols := AllDrives;
      new;
      forall r, c | 0 <= r < cap && 0 <= c < |cols| ensures drives[r, c] == Roll(Encode(data[r]), r)[cols[c]] {
        ZeroStripe(r);
      }
    }

    /** add_file: row file_id receives the encoded file rolled by file_id
      * (by RollPlaces, symbol k of the stripe lands on drive (k + file_id)
      * mod 8); no other row changes. */
    method AddFile(file: Vector)
      requires Valid() && |file| == DataWidth
      requires fileId < cap                // the next row must exist (IndexError otherwise)
      requires drives.Length1 == NumDrives // an 8-symbol row fits only the full array
      modifies this, drives
      ensures Valid() && drives == old(drives) && cols == old(cols) && failedDrives == old(failedDrives)
      ensures fileId == old(fileId) + 1 && data == old(data)[old(fileId) := file]
      ensures forall c :: 0 <= c < NumDrives ==>
                drives[old(fileId), c] == Roll(Encode(file), old(fileId))[c]
      ensures forall r, c :: 0 <= r < cap && r != old(fileId) && 0 <= c < NumDrives ==>
                drives[r, c] == old(drives[r, c])
    {
      var stripe := Encode(file);
      var stripePerm := Roll(stripe, fileId);
      forall c | 0 <= c < NumDrives {
        drives[fileId, c] := stripePerm[c];
      }
      data := data[fileId := file];
      fileId := fileId + 1;
      forall r, c | 0 <= r < cap && 0 <= c < |cols| ensures drives[r, c] == Roll(Encode(data[r]), r)[cols[c]] {
        if r == fileId - 1 {
          assert cols[c] == c && data[r] == file;
        }
      }
    }

    /** read_file: row file_id rolled back by file_id, minus its last two
      * symbols (the parity); on the full array, the file added as file_id. */
    function ReadFile(id: nat): (r: Vector)
      requires Valid() && id < cap
      reads this, drives
      ensures |r| == if drives.Length1 >= 2 then drives.Length1 - 2 else 0
      ensures cols == AllDrives ==> r == data[id]
    {
      var unrolled := Roll(RowOf(drives, id), -(id as int));
      if |unrolled| >= 2 then
        assert cols == AllDrives ==> unrolled == Encode(data[id]) by {
          if cols == AllDrives {
            assert RowOf(drives, id) == Roll(Encode(data[id]), id);
            RollInverse(Encode(data[id]), id);
          }
        }
        unrolled[..|unrolled| - 2]
      else
        []
    }

    /** fail_drives: delete the listed columns (np.delete along axis 1) and
      * record the list. */
    method FailDrives(failed: seq<int>)
      requires Valid()
      requires forall k :: 0 <= k < |failed| ==> 0 <= failed[k] < drives.Length1
      modifies this
      ensures Valid() && fresh(drives) && drives.Length0 == cap
      ensures drives.Length1 == |Survivors(KeepFlags(failed, old(drives.Length1)))|
      ensures forall r, c :: 0 <= r < cap && 0 <= c < drives.Length1 ==>
                drives[r, c] == old(drives[r, Survivors(KeepFlags(failed, drives.Length1))[c]])
      ensures |cols| == drives.Length1 && forall c :: 0 <= c < |cols| ==>
                cols[c] == old(cols)[Survivors(KeepFlags(failed, old(drives.Length1)))[c]]
      ensures failedDrives == Some(failed) && fileId == old(fileId) && data == old(data)
    {
      var keep := Survivors(KeepFlags(failed, drives.Length1));
      KeptColumns(failed, drives.Length1);
      var kept := DeleteColumns(drives, keep);
      var oldCols := cols;
      var newCols := seq(|keep|, c requires 0 <= c < |keep| => oldCols[keep[c]]);
      if |keep| == NumDrives {
        AllColumns(keep);
        assert newCols == AllDrives;
      }
      ghost var oldDrives := drives;
      cols := newCols;
      drives := kept;
      failedDrives := Some(failed);
      forall r, c | 0 <= r < cap && 0 <= c < |cols|
        ensures drives[r, c] == Roll(Encode(data[r]), r)[cols[c]]
      {
        assert drives[r, c] == old(oldDrives[r, keep[c]]);
      }
    }

    /** Under Valid, row r holds the symbols of the stripe of data[r] that
      * sit on the drives still present. */
    lemma RowsGather()
      requires Valid()
      ensures forall r :: 0 <= r < cap ==> RowsOf(drives)[r] == Gather(Roll(Encode(data[r]), r), cols)
    {
      forall r | 0 <= r < cap ensures RowsOf(drives)[r] == Gather(Roll(Encode(data[r]), r), cols) {
        assert RowOf(drives, r) == Gather(Roll(Encode(data[r]), r), cols);
      }
    }

    /** detect_failed_drives: a narrower array means a failure, which
      * fix_failure repairs; a full-width array is left alone. */
    method DetectFailedDrives() returns (r: Option<FixOutcome>)
      requires Valid()
      modifies this
      ensures Valid() && fileId == old(fileId) && failedDrives == old(failedDrives)
      ensures r.None? <==> old(drives.Length1) == NumDrives
      ensures r != Some(Rebuilt) ==> drives == old(drives) && data == old(data) && cols == old(cols)
      ensures r == Some(Rebuilt) ==> fresh(drives) && cols == AllDrives
      ensures r.Some? && old(failedDrives).Some? ==>
                RunRows(RowStep(KeepFlags(old(failedDrives).value, NumDrives)), old(RowsOf(drives)))
                == if r.value == Rebuilt then AllRestored(data) else Stopped(r.value)
      ensures r.Some? ==> (r.value == NoFailureRecorded <==> old(failedDrives).None?)
    {
      if drives.Length1 < NumDrives {
        var outcome := FixFailure();
        r := Some(outcome);
      } else {
        r := None;
      }
    }

    /** fix_failure: rebuild every row into a fresh full-width array from the
      * surviving columns, then install that array. An error in any row
      * leaves the controller as it was (the new array is only installed at
      * the end); failed_drives is not cleared. */
    method FixFailure() returns (r: FixOutcome)
      requires Valid()
      modifies this
      ensures Valid() && fileId == old(fileId) && failedDrives == old(failedDrives)
      ensures r == NoFailureRecorded <==> old(failedDrives).None?
      ensures r != Rebuilt ==> drives == old(drives) && data == old(data) && cols == old(cols)
      ensures r == Rebuilt ==> fresh(drives) && cols == AllDrives
      ensures old(failedDrives).Some? ==>
                RunRows(RowStep(KeepFlags(old(failedDrives).value, NumDrives)), old(RowsOf(drives)))
                == if r == Rebuilt then AllRestored(data) else Stopped(r)
    {
      if failedDrives.None? {
        return NoFailureRecorded;
      }
      var remList := KeepFlags(failedDrives.value, NumDrives);
      var newDrives, result := RebuildRows(drives, RowStep(remList));
      if result.Stopped? {
        ghost var k := RunRowsFailedRow(RowStep(remList), RowsOf(drives));
        return result.why;
      }
      drives := newDrives;
      data := result.data;
      cols := AllDrives;
      return Rebuilt;
    }

    /** The demonstration at the end of raid6_v0.py, for any two drives:
      * deleting them and running detect_failed_drives gives back the array
      * as it was, cell for cell, so read_file returns every file again. */
    method FailTwoAndRecover(failed: seq<int>)
      requires Valid() && drives.Length1 == NumDrives && TwoFailed(failed)
      requires forall k :: 0 <= k < |failed| ==> 0 <= failed[k] < NumDrives
      modifies this
      ensures Valid() && data == old(data) && cols == AllDrives && fileId == old(fileId)
      ensures drives.Length0 == cap && drives.Length1 == NumDrives
      ensures forall r, c :: 0 <= r < cap && 0 <= c < NumDrives ==> drives[r, c] == old(drives[r, c])
    {
      ghost var a: nat, b: nat :| NamesTwo(failed, a, b);
      ghost var before, data0 := drives, data;
      var flags := KeepFlags(failed, NumDrives);
      FailDrives(failed);
      var keep := Survivors(flags);
      assert cols == keep;
      OnesExceptTwo(flags, a, b, NumDrives);
      assert flags[..NumDrives] == flags;
      RowsGather();
      RestoreAllHeals(failed, a, b, RowsOf(drives), data);
      var outcome := DetectFailedDrives();
      assert outcome == Some(Rebuilt);
    }
  }
}
