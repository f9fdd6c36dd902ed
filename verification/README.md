# RAID-6 controller over GF(2^8)

This project models two versions of a RAID-6 controller in Dafny. Both keep
eight drives. Each data row of six byte symbols is encoded with an 8-by-6
generator matrix into a stripe: the six data symbols, a P parity (their XOR)
and a Q parity (a weighted sum with coefficients 32, 16, 8, 4, 2, 1). Stripe
`i` is rolled by `i` positions, so parity moves from drive to drive. When up
to two drives are lost, each stripe is rebuilt from the symbols of six
surviving drives. The controller builds the error matrix of the matching
generator rows, inverts it, restores the data row, re-encodes it and rolls it
back into place.

- `raid6_v0.py`: the first controller. The drives are the columns of one
  `drive_cap x 8` array of bytes, one file (a six-symbol row) per array row.
  `fail_drives` deletes columns. `detect_failed_drives` and `fix_failure`
  rebuild every row into a new full array.
- `raid6_v6.py`: the second controller. Each drive is a separate file with a
  square grid of `ceil(sqrt(drive_cap))` cells per side. Files of any length
  are padded to whole rows and recorded in `file_metadata`. A failure
  detector, a heal pass that re-creates lost drive files, and `read_file`
  work against drive files that may be missing.

The model is split into modules:

- `GF256` (`gf256.dfy`): the byte field. Addition is XOR. Multiplication is
  carry-less multiplication reduced modulo x^8+x^4+x^3+x^2+1 (0x11D), the
  default modulus of the `FField(8)` field the source builds. The file proves
  the field laws and that every nonzero symbol has an inverse.
- `Matrices` (`matrices.dfy`): vectors, matrices, `MatVec`
  (`LeftMulColumnVec`), and `Inverse`. `Inverse` is Gauss-Jordan elimination
  that either returns a left inverse or exhibits a nonzero kernel vector.
- `Coding` (`coding.dfy`): the generator matrix, encoding, rolling,
  `rows_ordered`, the error matrix, and the decode of one stripe. It also
  holds the MDS theorem: any six distinct generator rows form an invertible
  matrix.
- `Raid6V0` (`raid6_v0.dfy`): the first controller, as a class over an
  `array2`.
- `Raid6V6` (`raid6_v6.dfy`): the second controller, as a class over an
  `array3` of drives (drive, grid row, grid column). Each drive also has an
  existence flag.

Each class carries ghost state describing what the drives should hold: the
data rows written so far and the stripes they were encoded to. Its `Valid`
invariant ties that ghost state to the cells. In `raid6_v6.py` a drive whose
file exists but has not yet been rebuilt is not `intact`. The invariant
speaks only of intact drives.

Errors the source raises are modelled as results:

| exception | modelled as |
|---|---|
| `ValueError` from `Inverse` | `NotInvertible` |
| `FileNotFoundError` from `np.load` on a deleted drive | `DriveMissing` / `DriveGone` |
| `UnboundLocalError` from `init_drives` with nothing to initialise | `NothingToReplace` |
| `KeyError` in `read_file` | `NoSuchFile` |
| v0 `fix_failure` with `failed_drives is None` (a `TypeError`) | `NoFailureRecorded` |
| v0 7x6 error matrix with only one drive deleted | `NotInvertible` |
| v0 `ValueError` from `LeftMulColumnVec` in `restore_data` (raid6_v0.py:107): a 6x6 inverse applied to a row of another width, as when `fix_failure` runs again after a successful rebuild left the array eight wide | `WidthMismatch` |

Crashes the source does not guard against are preconditions. These are an
index past the end of the drive array or grid, and writing to a drive file
that is missing.

Where the code and its documentation disagree, the model follows the code:

- `detect_failed_drives` (raid6_v6.py:156-167) writes to `available_drives`
  only inside the branch for a present drive, and only after a failure has
  been seen. The field is then the very list the loop keeps appending to, so
  it ends up as the fresh flags. The field changes only when some missing
  drive comes before a present one. When only the highest-numbered drives
  are missing, the previous flags stay (`Detected`).
- `fix_failure` hands `p.map` a tuple of three iterators rather than stripe
  arguments. The model follows the evident intent: it runs `stripe(i,
  rem_fixed, new_avail)` for each stripe in turn, and stops at the first
  stripe that raises.
- `read_file` loads all eight drives for every stripe. With a drive file
  missing it fails on the first missing drive, even though six drives would
  suffice (`ReadStripes`).
- `fix_failure` in raid6_v0.py restores only when exactly two distinct drives
  were deleted. With one, the error matrix is 7x6 and `Inverse` refuses it.

## Model

| member | source | states |
|---|---|---|
| GF256.MulComm | raid6_v6.py:24 | field multiplication is commutative |
| GF256.MulAssoc | raid6_v6.py:24 | field multiplication is associative |
| GF256.MulAddRight | raid6_v6.py:24 | multiplication distributes over addition (XOR) on the right |
| GF256.MulAddLeft | raid6_v6.py:24 | multiplication distributes over addition on the left |
| GF256.MulInv | raid6_v0.py:15 | every nonzero symbol a has an inverse: a * Inv(a) == 1 == Inv(a) * a |
| GF256.InvNonzero | raid6_v0.py:15 | the inverse of a nonzero symbol is nonzero |
| GF256.NoZeroDivisors | raid6_v6.py:24 | a * b == 0 exactly when a == 0 or b == 0 |
| GF256.InvSearch | raid6_v6.py:24 | the inverse search returns 0 or a symbol w with a * w == 1 |
| GF256.Inv | raid6_v6.py:24 | the inverse table entry of a is 0 or a symbol w with a * w == 1 (MulInv: never 0 for nonzero a) |
| Matrices.FindPivot | raid6_v6.py:184 | the pivot search finds a row at or below r with a nonzero entry in column c, or shows there is none |
| Matrices.Inverse | raid6_v6.py:184 | Some(X) only for a square matrix, and then X * A == I; None only for a non-square matrix or one with a nonzero kernel vector |
| Matrices.EliminateCorrect | raid6_v6.py:184 | Gauss-Jordan elimination preserves B * A == M and the kernel of A, and ends in a left inverse or a kernel witness |
| Matrices.NoPivotSingular | raid6_v6.py:184 | a column with no pivot left yields a nonzero vector that A sends to zero |
| Matrices.LeftInverseDecodes | raid6_v6.py:225-228 | multiplying A * d by a left inverse of A gives back d |
| Matrices.LeftInverseInjective | raid6_v0.py:95 | a matrix with a left inverse sends only the zero vector to zero |
| Matrices.InverseComplete | raid6_v0.py:95 | whenever a square matrix has some left inverse, Inverse returns Some |
| Matrices.DotComm | raid6_v6.py:91-93 | the inner product is symmetric |
| Coding.GeneratorMatrix | raid6_v6.py:52-69 | the 8x6 generator: unit rows 0-5, an all-ones P row, Q coefficients nonzero and pairwise distinct |
| Coding.Encode | raid6_v6.py:91-93 | compute_parity: an eight-symbol stripe whose first six symbols are the data row itself |
| Coding.EncodeP | raid6_v6.py:91-93 | symbol 6 is the XOR of the six data symbols |
| Coding.EncodeQ | raid6_v6.py:91-93 | symbol 7 is 32 d0 + 16 d1 + 8 d2 + 4 d3 + 2 d4 + d5 |
| Coding.EncodeSystematic | raid6_v6.py:91-93 | the code is systematic: data, then P, then Q |
| Coding.EncodeZero | raid6_v0.py:60-62 | the all-zero row encodes to the all-zero stripe |
| Coding.ZeroStripe | raid6_v0.py:18 | a zero-filled drive row is the stripe of the zero data row under any rotation |
| Coding.Roll | raid6_v0.py:64-69 | np.roll: same length, and position i holds the symbol from position (i - k) mod n |
| Coding.RollInverse | raid6_v0.py:64-69 | rolling back by -k undoes np.roll by k |
| Coding.RollPlaces | raid6_v6.py:98 | rolling by n puts symbol k of a stripe on drive (k + n) mod 8 |
| Coding.Survivors | raid6_v6.py:208 | np.argwhere of the flags: as many entries as set flags, each one a set position |
| Coding.SurvivorsComplete | raid6_v6.py:208 | every set position is among the survivors |
| Coding.SurvivorsIncreasing | raid6_v6.py:170-177 | survivors come in drive order |
| Coding.RowsOrdered | raid6_v6.py:181-183 | rows_ordered lists, for each surviving drive t in drive order, the logical row (t - i) mod 8, all below 8 |
| Coding.MissingRows | raid6_v0.py:92-94 | with drives a and b lost, rows_ordered uses every logical row except the two distinct lost ones |
| Coding.SurvivingSymbols | raid6_v6.py:170-183 | the surviving symbols of stripe i equal the error matrix times the data row |
| Coding.ErrorKernelTrivial | raid6_v6.py:71-89 | a vector that six distinct generator rows send to zero is zero |
| Coding.ErrorMatrixInvertible | raid6_v6.py:184 | any six distinct generator rows, in any order, form an invertible error matrix (the MDS property) |
| Coding.KeptRowsInvertible | raid6_v6.py:181-184 | when six flags are set, the error matrix of rows_ordered has an inverse for every stripe i |
| Coding.Rebuild | raid6_v6.py:180-187 | stripe()'s pure part yields an eight-symbol stripe exactly when rem_fixed keeps six drives, and NotInvertible otherwise |
| Coding.DecodeStripe | raid6_v6.py:179-187 | with any two drives lost, the inverse exists, restore_data gives back the data row, and the re-encoded, rolled stripe is the one that was written |
| Coding.OnesNot | raid6_v6.py:208 | set and clear flags add up to the number of drives |
| Coding.TwoOut | raid6_v6.py:205 | six set flags out of eight name two distinct lost drives |
| Coding.OnesExceptTwo | raid6_v6.py:205 | with exactly two flags clear, six of the eight are set |
| Raid6V0.KeptColumns | raid6_v0.py:80 | np.delete keeps exactly the columns not listed, in increasing order |
| Raid6V0.AllColumns | raid6_v0.py:84 | eight increasing drive numbers below 8 are 0..7 |
| Raid6V0.RestoreRow | raid6_v0.py:91-98 | one row's restore yields six data symbols, or fails with NotInvertible or WidthMismatch |
| Raid6V0.RestoreRowNeedsSix | raid6_v0.py:95 | unless exactly six drives survive, the row cannot be restored |
| Raid6V0.RestoreRowHeals | raid6_v0.py:90-99 | with two drives deleted, restoring a row from its six survivors gives the written data row |
| Raid6V0.RunRows | raid6_v0.py:90-99 | the row loop: when it restores all rows, it restores one per row, row k to the data the step restores from row k |
| Raid6V0.RunRowsAll | raid6_v0.py:90-99 | the loop over rows succeeds with ds exactly when every row restores to ds[k] |
| Raid6V0.RunRowsStops | raid6_v0.py:90-99 | the loop stops at the first failing row: rows after it do not matter |
| Raid6V0.RunRowsFailedRow | raid6_v0.py:90-99 | a stopped loop names a row whose restore failed with that reason |
| Raid6V0.RestoreAllNeedsSix | raid6_v0.py:95 | unless exactly six drives survive, fix_failure fails on the first row |
| Raid6V0.RestoreAllHeals | raid6_v0.py:87-102 | with two drives deleted, every row is restored to the data it was written from |
| Raid6V0.StripesSnoc | raid6_v0.py:72-77 | appending the rolled stripe of a new row keeps every row the rolled encoding of its data |
| Raid6V0.PlaceRow | raid6_v0.py:99 | new_drives[i,:] = row sets row i and no other row |
| Raid6V0.DeleteColumns | raid6_v0.py:80 | np.delete: a fresh array whose column c is the old column keep[c] |
| Raid6V0.RebuildRows | raid6_v0.py:88-101 | the rebuild loop: its result is the recursive RunRows over the rows, and on success row k is the rolled encoding of the restored data |
| Raid6V0.Controller.constructor | raid6_v0.py:12-21 | a zero array of drive_cap rows by 8 drives, valid as the rolled stripes of zero rows |
| Raid6V0.Controller.AddFile | raid6_v0.py:72-77 | row file_id becomes the rolled stripe of the file, file_id advances, no other row changes |
| Raid6V0.Controller.ReadFile | raid6_v0.py:110-114 | with all eight drives in place, reading row id returns the data written there |
| Raid6V0.Controller.FailDrives | raid6_v0.py:79-81 | the listed columns are deleted and the rest keep their contents; the failure is recorded |
| Raid6V0.Controller.RowsGather | raid6_v0.py:90-91 | each array row is the written stripe gathered at the remaining drives |
| Raid6V0.Controller.DetectFailedDrives | raid6_v0.py:83-85 | rebuild happens exactly when fewer than eight columns remain, with fix_failure's outcome |
| Raid6V0.Controller.FixFailure | raid6_v0.py:87-102 | the outcome is that of the row loop; on success all eight drives hold the data rows again |
| Raid6V0.Controller.FailTwoAndRecover | raid6_v0.py:139-146 | failing any two drives, then detecting, restores every cell of every drive |
| Raid6V6.CeilSqrt | raid6_v6.py:43 | int(ceil(sqrt(n))): the least s with s * s >= n |
| Raid6V6.CeilSqrtLeast | raid6_v6.py:43 | no smaller square covers n |
| Raid6V6.Address | raid6_v6.py:231-245 | stripe idx is cell (idx div dim, idx mod dim) |
| Raid6V6.AddressInGrid | raid6_v6.py:240-245 | an index below dim * dim addresses a cell of the grid |
| Raid6V6.AddressInjective | raid6_v6.py:231-236 | distinct stripes use distinct cells |
| Raid6V6.Pad | raid6_v6.py:106-111 | the file zero-padded to a multiple of six, by fewer than six symbols |
| Raid6V6.Chunks | raid6_v6.py:113 | consecutive six-symbol slices of the padded file |
| Raid6V6.FlattenChunks | raid6_v6.py:113 | joining the chunks gives the padded file back |
| Raid6V6.ReadBack | raid6_v6.py:105-116 | pad, chunk, flatten and trim is the identity on any file |
| Raid6V6.Detected | raid6_v6.py:156-167 | available_drives afterwards is the fresh flags or the previous ones: the previous when every drive is present or only the highest-numbered are missing, the fresh ones when a missing drive comes before a present one |
| Raid6V6.NewAvail | raid6_v6.py:203 | new_avail[j] holds exactly when both previous and available flags hold |
| Raid6V6.NewAvailAllUp | raid6_v6.py:199-203 | with previous_avail all ones, new_avail is available_drives |
| Raid6V6.RemFixed | raid6_v6.py:204-207 | rem_fixed keeps only available drives, clears only the lowest set flag and only when more than six are set, and so leaves exactly six when six or seven are available |
| Raid6V6.StripeStep | raid6_v6.py:179-187 | the step stripe() takes: it rebuilds a full eight-symbol stripe exactly when it gets six symbols and rem_fixed keeps six drives |
| Raid6V6.StripeStepRestores | raid6_v6.py:179-187 | with six drives kept, every written stripe is rebuilt from its survivors |
| Raid6V6.DescribesExtend | raid6_v6.py:114 | writing more stripes keeps each recorded file where it was |
| Raid6V6.RecordFile | raid6_v6.py:105-116 | add_file's metadata entry describes the new file, and older entries stay valid |
| Raid6V6.PlacedSnoc | raid6_v6.py:96-103 | write_row extends the placed stripes by the rolled encoding of the new row |
| Raid6V6.RolledBackRoll | raid6_v6.py:263-264 | reading back rolls by -j and keeps the first symbols |
| Raid6V6.ReadRowPlaced | raid6_v6.py:257-264 | reading stripe s rolled back by s gives the data row written there |
| Raid6V6.ReadRowsPlaced | raid6_v6.py:257-264 | reading a run of placed stripes gives their data rows |
| Raid6V6.FileReadsBack | raid6_v6.py:248-271 | the stripes a metadata entry names read back to the file's bytes |
| Raid6V6.CollectGathers | raid6_v6.py:170-177 | assemble_stripe's loop collects the symbols of the available drives in drive order |
| Raid6V6.Controller.constructor | raid6_v6.py:20-34 | eight zero drives of side ceil(sqrt(drive_cap)), all available, no stripes, no files |
| Raid6V6.Controller.WriteItem | raid6_v6.py:231-236 | sets stripe idx on drive j and nothing else |
| Raid6V6.Controller.WriteStripe | raid6_v6.py:100-101 | writes symbol j of a stripe to drive j at index idx, nothing else |
| Raid6V6.Controller.WriteRow | raid6_v6.py:96-103 | writes the rolled encoding of the row at num_stripes, advances num_stripes, keeps the invariant |
| Raid6V6.Controller.WriteRows | raid6_v6.py:115-116 | writes every chunk in order: each new stripe holds, on every drive, the rolled encoding write_row placed; no other stripe changes |
| Raid6V6.Controller.AddFile | raid6_v6.py:105-116 | pads the file, records [rows, rem, start] and writes the chunks; every drive holds the placed stripes at the new indices, nothing else changes, and the invariant is kept |
| Raid6V6.Controller.DetectFailedDrives | raid6_v6.py:156-167 | failed_drives holds exactly when some drive file is missing; available_drives follows the aliasing rule |
| Raid6V6.Controller.ZeroDrive | raid6_v6.py:44-47 | one drive file re-created, zero-filled |
| Raid6V6.Controller.InitDrives | raid6_v6.py:36-49 | the listed drives are re-created zero-filled; an empty list fails |
| Raid6V6.Controller.AssembleStripe | raid6_v6.py:170-177 | the symbols of the available drives in drive order, or the first missing drive |
| Raid6V6.Controller.Stripe | raid6_v6.py:179-191 | writes the rebuilt stripe to the replacement drives only, or reports NotInvertible or a missing drive |
| Raid6V6.Controller.HealStripes | raid6_v6.py:212-216 | runs stripe() over all stripes, stopping at the first failure; the cells written are those of the stripes rebuilt |
| Raid6V6.Controller.SurvivedPlaced | raid6_v6.py:180 | on intact drives, the assembled symbols are the written stripe's survivors |
| Raid6V6.Controller.ReplaceDrives | raid6_v6.py:208 | the unavailable drives are re-created zero-filled, the others untouched |
| Raid6V6.Controller.Heal | raid6_v6.py:208-216 | with rem_fixed drives intact and six of them, the replacement drives are rebuilt and become intact; available drives are never changed |
| Raid6V6.Controller.Repair | raid6_v6.py:203-216 | nothing to replace when all are available; otherwise re-create and heal, with one or two lost drives fully recovered |
| Raid6V6.Controller.FixFailure | raid6_v6.py:193-218 | detect, compute new_avail and rem_fixed, re-create and heal; when the detected flags have six or seven set and every flagged drive is intact, all drives end up present and intact |
| Raid6V6.Controller.ReadRowsNext | raid6_v6.py:257-264 | one more stripe read appends its data row |
| Raid6V6.Controller.ColumnPlaced | raid6_v6.py:259-260 | with all drives intact, the eight symbols of stripe s are its placed stripe |
| Raid6V6.Controller.ColumnsPlaced | raid6_v6.py:257-260 | with all drives intact, a run of stripes read is the run placed |
| Raid6V6.Controller.ReadsBack | raid6_v6.py:248-271 | with all drives intact, reading a recorded file gives back exactly the bytes it was added with |
| Raid6V6.Controller.ReadStripes | raid6_v6.py:256-264 | the rolled-back data rows of stripes start..start+count, or the first missing drive |
| Raid6V6.Controller.ReadFile | raid6_v6.py:248-271 | an unknown file gives NoSuchFile, a missing drive DriveGone; with all drives intact the file's own bytes |

## Left out

- Disk I/O: `np.save`/`np.load` and memory maps are modelled as an in-memory `array3`, with one existence flag per drive file. Paths and `os.path.exists` are that flag.
- Deleting drive files from outside the program is not an operation of the model. Any pattern of missing drives is a state the operations accept.
- `Pool(1).map` concurrency: the stripes are healed one after another.
- `sleep`, `time`, `tqdm` and `print` are left out, as are the `__main__` loop (raid6_v6.py:274-291) and the random demo data of raid6_v0.py:118-135.
- `detect_new_file`, `read_file_memory` and `detect_format`: directory listing and PNG/text decoding are I/O. The model starts from the bytes handed to `add_file`.
- pyfinite's `FField` and `GenericMatrix` sources are not part of this model. The field polynomial 0x11D is assumed. `Inverse` is an own Gauss-Jordan elimination whose contract matches a correct inverse.
- Matrices.Inverse: does not model which error pyfinite raises on a non-square or singular matrix, only that none is returned.
- Floating-point `np.sqrt`/`np.ceil` and `int(idx/drive_dim)` are exact integer arithmetic (`CeilSqrt`, `Address`).
- `num_drives` is fixed at 8 and `drive_path`/`file_src` are left out. The code hard-codes eight-drive lists and the 8x6 generator.
- `id_counter`, `files` and `num_stripes` bookkeeping outside `add_file` are left out.
- Raid6V6.Controller.AddFile: the source pads the caller's list in place. The model returns the padded list as `padded` instead of mutating a shared list.
- Raid6V6.Controller.AddFile: the requires that every drive file exists and that the new stripes fit the grid stand for the crashes `np.load` and an index past the grid raise there.
- Raid6V0.Controller.AddFile: requires a free row and all eight columns present. The source raises IndexError or a shape error otherwise.
- Raid6V0.Controller.AddFile: requires |file| == DataWidth. The source raises ValueError in LeftMulColumnVec (raid6_v0.py:61) for a row of another length.
- Raid6V0.Controller.FailDrives: requires every listed index to lie in 0..width-1. np.delete raises IndexError past the width and accepts negative indices, which the model excludes.
- Raid6V0.Controller.ReadFile: only the case of all eight columns present is pinned to the written data. After a deletion the source reads shifted columns, and the model states only the width.
- Raid6V6.Controller.Heal: the model says nothing about the cells of replacement drives when healing stops part-way, beyond which stripes were written.
- Raid6V6.Controller.Heal, Raid6V6.Controller.Repair, Raid6V6.Controller.FixFailure: on NotInvertible the ensures say that rem_fixed does not keep six drives or that a kept drive was not intact. The stronger statement that rem_fixed does not keep six drives holds too (StripeStep succeeds on every six-symbol stripe when six are kept) but is not carried through the heal pass.
