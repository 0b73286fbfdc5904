# Avail data availability: a verified model

Avail blocks carry application data. The builder sorts and groups the submitted extrinsics, encodes and pads them into
31-byte cells, lays the cells out in a matrix of BLS12-381 scalars, and doubles every column with an erasure code.
Light clients fetch single cells; from half of the cells of a column they rebuild it, and from the columns they rebuild
the extrinsics. This project models that pipeline in both directions and proves that the second direction undoes the
first, for every extrinsic list, every filler and every choice of sampled cells.

The modules follow the pipeline.

| part | modules |
|---|---|
| field, polynomials, evaluation domains | `Field`, `Poly`, `Domain`, `Generators`, `Primality`, `Powers2`, `Division` |
| erasure-code reconstruction | `PolyReconstruction`, `PolyReconstructionCorrect` |
| encoding, grouping, sizing, flattening | `Bytes`, `Scale`, `Sorting`, `OrderedMap`, `Grouping`, `Sizing`, `Flattening` |
| index and matrix arithmetic | `DataLookup`, `Matrix` |
| column extension | `Extend` |
| reading data back | `SparseSliceRead`, `Unflattening`, `Recovery`, `RecoveryRuns`, `RecoveryCorrect`, `Sharpness` |
| whole blocks | `BlockRecovery`, `EndToEnd`, `AppDecoding` |
| the second builder, its rows and blocks, and its recovery | `Grid`, `BuildersAgree`, `Acceptance`, `GridRows`, `GridRecovery`, `Multiproof` |
| cells on the wire and merged rows | `CellData`, `RowMerge` |

Operations that the program performs step by step (pushing to vectors, overwriting coefficients, filling maps, draining
a deque) are methods with loops, each proved equal to a function of its inputs; the theorems are about those functions.

## Conventions

* `Field` is the concrete field: integers modulo the 255-bit prime of BLS12-381, multiplied by the recurrence of the
  product (`Field.MulIsProduct` equates it with integer multiplication). Lemmas that divide require `PrimeModulus()`, that
  this number is prime; `Primality.ModulusIsPrime` proves it, so nothing is assumed. That it is the group order of the
  curve, that the generator of a domain of N points is 7^((P - 1) / N) and has exact order N, and that 5^N is not 1 for
  any domain size N are proved too.
* `fft` and `ifft` are the mathematical transforms, including the resize to the domain size before evaluation.
* A panic is an error value: `Panic` for an `expect` or an overlong list in the codec, `RangePanic` for slicing out of
  bounds. The debug assertion that an extended column has the extended height is kept as `Panic`; those of `app_rows` are
  not. `padded_len` has no value where its 32-bit arithmetic overflows; the 32-bit row product of `extended_data_row`
  wraps around as in a release build.
* `usize` has 64 bits. The chunk size is 32 and the features are the default ones (no `maximum-block-size`).
* The filler that comes from a seeded ChaCha stream is an arbitrary function from positions to chunks.
* The order in which a hash map yields its values is left open (`Recovery.ValuesOf`) and proved irrelevant. The amount
  that a vector reserves beyond the capacity asked for in `zero_poly_fn` is left open too.
* Matrices are held as their columns.

Where the code and its comments differ, the model follows the code. The comment on `Dimensions` says that data is in the
odd rows of the extended matrix; the code puts it in rows 0, 2, 4 and so on. The comment on `reconstruct_column` promises
as many cells as rows; the code returns the half that holds data. The padding is named after ISO/IEC 9797-1 and is zero
bytes only, at least one.

Some things one would expect do not hold, and the model says exactly when they do:

* A comment in `reconstruct_column` asks for a power of two as row count and the code checks only evenness. For any other
  even count it answers, with more cells than half the rows (`RecoveryCorrect.ColumnHeightExactly`; with six rows there
  are four cells, `RecoveryCorrect.SixRowsGiveFourCells`).
* `reconstruct_column` counts cells, not the rows it can read. It answers from a single row, and below half of the rows
  its answer is wrong for some column that the cells belong to (`Sharpness.HalfIsSharp`, `Sharpness.OneRowIsAnswered`).
* The two builders count cells differently when 31 divides the length of an encoding
  (`BuildersAgree.LookupsAgreeExactly`; one extrinsic of 29 bytes, `BuildersAgree.FullChunkDiffers`), so one accepts lists
  that the other refuses (`Acceptance.AcceptanceDiffersExactly`; one extrinsic of 121 bytes with room for four cells,
  `Acceptance.FullRowDiffers`).
* A compact index can expand to an empty range, and then a client asks for a row in which the application has no cell
  (`GridRows.AppSpecificRowsExactly`; `GridRows.RowWithoutCell`). A built grid has no such range, and there both sides
  agree (`GridRecovery.AppRowsOfBuiltGrid`).
* A grid of more than 2^27 - 1 cells has byte offsets beyond 32 bits: reconstruction reports the overflow, one application
  beyond the limit is reported missing, and decoding its own cells gives nothing
  (`GridRecovery.GridExtrinsicsComeBack`, `GridRecovery.GridAppComesBack`; such a grid is
  `GridRecovery.OffsetsCanOverflow`). Flat blocks never come that far.
* A full index loses every range in its compact form (`DataLookup.RangesSurvive`; `DataLookup.FullIndexLosesRange`).

## Model

| member | source | states |
|---|---|---|
| `PolyReconstruction.ExpandRootOfUnity` | kate/recovery/src/com.rs:455-464 | the loop terminates because the generator has order N, with exactly the powers 0 to N |
| `PolyReconstruction.MultiplyIn` | kate/recovery/src/com.rs:478-489 | one turn of the in-place double loop multiplies the monic polynomial by (x - root) |
| `PolyReconstruction.PadToCapacity` | kate/recovery/src/com.rs:490-493 | zeros are appended up to a capacity of at least `length` and at least what the vector holds |
| `PolyReconstruction.ZeroPolyFn` | kate/recovery/src/com.rs:467-496 | the coefficients of the monic product over the missing points, padded with zeros to at least `length`, and its values on the domain |
| `PolyReconstruction.ShiftPoly` | kate/recovery/src/com.rs:499-512 | coefficient k is multiplied by 5^-k in place |
| `PolyReconstruction.UnshiftPoly` | kate/recovery/src/com.rs:516-525 | coefficient k is multiplied by 5^k in place |
| `PolyReconstruction.WeighByZero` | kate/recovery/src/com.rs:424-431 | present entries times the zero polynomial's values, zero for missing ones |
| `PolyReconstruction.DivideInPlace` | kate/recovery/src/com.rs:437-441 | divides pointwise in place, and stops exactly when some divisor is zero |
| `PolyReconstruction.ReconstructPoly` | kate/recovery/src/com.rs:406-452 | the whole in-place run computes the specification, both `BadZeroPoly` exits included |
| `Domain.NewDomainIsValid` | kate/recovery/src/com.rs:561-562 | every domain that exists has a generator of exact order N, and 5^N is not 1 |
| `Generators.DomainIsExactly` | kate/src/com.rs:350-351 | domains exist for exactly up to 2^32 points; each has the least power of two that is enough and the generator 7^((P - 1) / size) |
| `Generators.ModulusOfCurve` | kate/src/com.rs:350-351 | the field is that of BLS12-381: its modulus is x^4 - x^2 + 1 for the parameter x of the curve |
| `Primality.ModulusIsPrime` | kate/recovery/src/com.rs:437-441 | the modulus is prime, on which every division relies: no number between 1 and the modulus divides it |
| `Domain.IfftOfFft` | kate/recovery/src/com.rs:432 | the inverse transform undoes the transform |
| `Domain.FftOfIfft` | kate/src/com.rs:363-364 | the transform undoes the inverse transform |
| `PolyReconstructionCorrect.ZeroPolyOnDomain` | kate/recovery/src/com.rs:467-496 | for any list that fits its domain the zero polynomial vanishes on the domain exactly at the places of the missing positions |
| `PolyReconstructionCorrect.ZeroPolyOnCoset` | kate/recovery/src/com.rs:437-441 | the shifted zero polynomial has no root on the domain, so every division succeeds |
| `PolyReconstructionCorrect.UnshiftUndoesShift` | kate/recovery/src/com.rs:499-525 | unshifting undoes shifting on every coefficient list, padding included |
| `PolyReconstructionCorrect.ReconstructCorrect` | kate/recovery/src/com.rs:406-452 | from any values, at least one, of a polynomial with at most N/2 and at most as many coefficients, output i is its value at the 2i-th point, and no error occurs |
| `PolyReconstructionCorrect.FailsExactlyOnNothing` | kate/recovery/src/com.rs:406-452 | `BadZeroPoly` occurs exactly when the list fills its domain and no entry is present; a shorter list is always answered |
| `RecoveryCorrect.ColumnRecovered` | kate/recovery/src/com.rs:538-594 | any n or more of the 2n cells of an extended column give back its n data cells if and only if n is a power of two |
| `Sharpness.RowsDetermineExactly` | kate/recovery/src/com.rs:538-594 | the readable rows of an extended column determine its data cells if and only if they are at least half |
| `Sharpness.HalfIsSharp` | kate/recovery/src/com.rs:538-594 | the answer to accepted cells is right for every column they belong to if and only if at least half of its rows are readable, each counted once |
| `Sharpness.OneRowIsAnswered` | kate/recovery/src/com.rs:538-594 | two equal cells of one row of four are answered, wrongly for some column they belong to |
| `RecoveryCorrect.ColumnAnswersExactly` | kate/recovery/src/com.rs:538-594 | an answer exactly when the checks pass and, for a power of two, some row is readable; the only other outcome past the checks is `BadZeroPolynomial` |
| `RecoveryCorrect.ColumnChecks` | kate/recovery/src/com.rs:570-582 | which check refuses, in order, in terms of the row count, the number of cells and their columns alone |
| `RecoveryCorrect.FindRowIsFirst` | kate/recovery/src/com.rs:555-566 | the first cell of a row decides what is read for it, and nothing is read without a cell |
| `RecoveryCorrect.ColumnHeightExactly` | kate/recovery/src/com.rs:567-570 | past the checks there is an answer with half of `row_count` cells if and only if `row_count` is a power of two and some row is readable; for any other even count there always is an answer, with more cells |
| `RecoveryCorrect.SixRowsGiveFourCells` | kate/recovery/src/com.rs:567-570 | three cells of a column of six rows give four cells |
| `Recovery.ReconstructColumnOf` | kate/recovery/src/com.rs:538-594 | the checks in order, the filled subset, and the reconstruction |
| `Recovery.MapCellsByColumn` | kate/recovery/src/com.rs:103-120 | filling the nested maps, stopping at the first cell outside the matrix or at a taken position |
| `RecoveryCorrect.MapCellsKeepsAll` | kate/recovery/src/com.rs:103-120 | distinct cells inside the matrix are all kept in their own columns, nothing else is there, and the counts match |
| `RecoveryCorrect.MapCellsSucceedsExactly` | kate/recovery/src/com.rs:103-120 | accepted exactly when every row is below twice the data rows, every column below the width, and no position occurs twice |
| `RecoveryCorrect.MapCellsRefusesFirst` | kate/recovery/src/com.rs:103-120 | the first cell outside or at an earlier position decides the refusal, and the error says which of the two it is |
| `Recovery.ValuesOf` | kate/recovery/src/com.rs:272 | every value of the map once, in any order |
| `RecoveryRuns.OrderIsIrrelevant` | kate/recovery/src/com.rs:272-275 | any two orders of the cells of a column reconstruct alike |
| `RecoveryRuns.ReconstructAvailableData` | kate/recovery/src/com.rs:254-292 | the run over columns and data cells computes the specification |
| `RecoveryRuns.ReconstructAllExtrinsics` | kate/recovery/src/com.rs:199-209 | the run computes the specification, each error in its place |
| `RecoveryRuns.ReconstructExtrinsicsOfApp` | kate/recovery/src/com.rs:173-189 | the run computes the specification, each error in its place |
| `RecoveryRuns.DecodeExtrinsicsOfApp` | kate/recovery/src/com.rs:304-347 | the run computes the specification, each error in its place |
| `BlockRecovery.AvailableData` | kate/recovery/src/com.rs:254-292 | the data has the block's cell wherever the column was sampled by half, and zeros where it was not sampled |
| `BlockRecovery.AvailableExactly` | kate/recovery/src/com.rs:254-292 | on sampled cells success if and only if every column is absent or half there; otherwise the first column that is not is reported |
| `EndToEnd.UnflattenUndoesFlatten` | kate/recovery/src/com.rs:372-401 | on the output of `flatten_and_pad_block` no projected range overflows, is empty or leaves the data, and unflattening gives the grouped extrinsics for any filler |
| `EndToEnd.FlattenedBlockBuilds` | kate/src/com.rs:139-211 | an accepted block is exactly full, its layout builds an index, and its extension succeeds exactly when it fits 16-bit dimensions |
| `EndToEnd.ExtrinsicsComeBack` | kate/recovery/src/com.rs:199-209 | from any distinct cells with at least half of every column, exactly the submitted extrinsics come back, grouped and in submission order |
| `EndToEnd.AppExtrinsicsComeBack` | kate/recovery/src/com.rs:162-189 | the same for one application from the columns it touches, the others being absent or half there; `MissingId` exactly for applications that submitted nothing |
| `AppDecoding.DecodeAppCorrect` | kate/recovery/src/com.rs:304-347 | from the application's own data cells the same list; the first cell of its range that was not given is the one reported; byte offsets always fit |
| `SparseSliceRead.SparseSliceRead.Read` | kate/recovery/src/sparse_slice_read.rs:19-51 | copies min(buffer, bytes left) bytes of the concatenated parts, and what remains is the exact suffix |
| `SparseSliceRead.SparseSliceRead.CopyNext` | kate/recovery/src/sparse_slice_read.rs:28-46 | one turn: the front part is copied as far as it fits and its rest is put back; empty parts are skipped |
| `SparseSliceRead.SparseSliceRead.ReadRun` | kate/recovery/src/sparse_slice_read.rs:19-51 | any run of reads yields a prefix of the concatenation, and falls short only at its end |
| `SparseSliceRead.SparseSliceRead.DecodeAppData` | kate/recovery/src/com.rs:394-396 | decoding through the reader agrees with decoding the concatenation of its parts |
| `Scale.CompactRoundTrip` | kate/recovery/src/com.rs:395 | every compact length decodes to itself and leaves what follows (Polkadot Protocol Specification, section A.2.2) |
| `Scale.RoundTrip` | kate/src/com.rs:154 | decoding an encoded list, whatever follows it, gives the list and what follows |
| `Scale.DecodeIsCanonical` | kate/recovery/src/com.rs:395 | whatever decodes is the encoding of its result followed by the rest |
| `Scale.EncodingsAsPublished` | kate/src/com.rs:154 | the worked examples of the Polkadot Protocol Specification, section A.2.2, in every mode of the compact form |
| `Unflattening.ExtractParts` | kate/recovery/src/com.rs:378-388 | the first 31 bytes of every whole chunk |
| `Unflattening.PartsOfChunks` | kate/recovery/src/com.rs:378-388 | part k is bytes 32 k to 32 k + 31 of the slice, and a rest that is no whole chunk is left out |
| `Unflattening.UnflattenRangeExactly` | kate/recovery/src/com.rs:372-401 | a range inside the data gives a list exactly when its payload begins with the encoding of that list, and is refused by the codec otherwise |
| `Unflattening.UnflattenExactly` | kate/recovery/src/com.rs:372-401 | one group per range in order, or the error of the first range that is refused, or `InvalidLen` |
| `Unflattening.UnflattenPaddedData` | kate/recovery/src/com.rs:372-401 | the run over the ranges, each decoded through its own reader, computes the specification |
| `Unflattening.UnflattenRestores` | kate/recovery/src/com.rs:372-401 | with the projected ranges of its index, a block of the groups' cells and any filler unflattens to the groups |
| `Unflattening.ProjectedRangesInBounds` | core/src/data_lookup/mod.rs:73-88 | no projected range of a block's index overflows, is empty or leaves the data |
| `Grouping.AppExtrinsicsGroupByAppId` | kate/src/com.rs:129-137 | the fold that extends the last group or opens a new one |
| `Sorting.SortOrders` | kate/src/com.rs:145-147 | sorting by any strict weak order orders the elements and keeps each as often as it occurs |
| `OrderedMap.AppendAt` | kate/src/gridgen/core.rs:78-84 | extending an entry changes what one key holds and leaves every other key alone |
| `OrderedMap.LookupDetermines` | kate/src/gridgen/core.rs:76-84 | a map in key order without empty lists is determined by what it holds for each key |
| `Grouping.SortedIsStable` | kate/src/com.rs:145-147 | the sort orders by id, loses nothing, and keeps each application's submission order |
| `Grouping.GroupedIsGrouping` | kate/src/com.rs:129-147 | each application once, ascending, with exactly its data in submission order |
| `Grouping.GroupingIsUnique` | kate/src/com.rs:129-137 | that description determines the list of groups |
| `Grouping.FoldIntoMap` | kate/src/gridgen/core.rs:78-84 | the fold into the ordered map |
| `Grouping.GroupingsAgree` | kate/src/gridgen/core.rs:76-84 | sorting and grouping equals grouping through the ordered map |
| `Flattening.PaddedLenIsLeast` | kate/src/lib.rs:64-70 | up to 4294967291 the padded length is the least multiple of 31 above the length |
| `Flattening.PadToChunksCorrect` | kate/src/com.rs:292-303 | the `expect` fires exactly above that length; otherwise the chunks are the data and at least one zero byte |
| `Flattening.PaddedLenCorrect` | kate/src/lib.rs:74-91 | `padded_len` is the byte count of those chunks widened, while that fits 32 bits |
| `Flattening.FlattenAndPadBlock` | kate/src/com.rs:139-211 | the run computes the specification: encode, pad, widen, size, fill |
| `Flattening.BlockIsFull` | kate/src/com.rs:163-211 | the data is the cells of the groups followed by filler, one cell per matrix position |
| `Flattening.LayoutBuilds` | kate/src/com.rs:151-161 | the layout of ordered groups always builds an index, with one range per group |
| `Sizing.BlockDimensionsSucceed` | kate/src/com.rs:213-274 | an answer exactly when both limits are powers of two whose product in bytes fits 32 bits and holds the input; which error otherwise |
| `Sizing.BlockDimensionsShape` | kate/src/com.rs:213-274 | rows and columns are powers of two that hold the input; apart from the exact fit the size is the least power of two from 128 on, with more than one row only at full width; within the limits when they allow four cells |
| `Sizing.TargetIsLeastPow2` | kate/src/com.rs:248-253 | the target size is a power of two, at least the input and the minimum, and the least such |
| `Sizing.NextPow2OfQuotient` | kate/src/gridgen/core.rs:449-456 | rounding up to a power of two commutes with dividing by one |
| `Sizing.SizesAgree` | kate/src/gridgen/core.rs:430-471 | both sizing functions choose the same rows and columns, or both answer `BlockTooBig` |
| `Sizing.BlockDimsExactly` | kate/src/gridgen/core.rs:430-471 | every answer for any limits: one row of the least power of two or of the minimum width, or whole rows rounded up to a power of two |
| `Sizing.BlockDimsRefuse` | kate/src/gridgen/core.rs:430-471 | which error for any limits; from the maximum width on, away from the 64-bit maximum |
| `DataLookup.FromIdAndLenIter` | core/src/data_lookup/mod.rs:92-123 | the loop over ids and lengths computes the specification, each error in its place |
| `DataLookup.FromIdAndLenCorrect` | core/src/data_lookup/mod.rs:92-123 | success exactly on ascending ids with positive lengths that fit together; the ranges then tile the interval from 0 |
| `DataLookup.FromIdAndLenRefusesFirst` | core/src/data_lookup/mod.rs:92-123 | the first entry that cannot be added decides the refusal: order before emptiness before overflow |
| `DataLookup.FindRangeIsFirst` | core/src/data_lookup/mod.rs:54-60 | the first entry of an id is its range, and an id without an entry has none |
| `DataLookup.ProjectedRangesExactly` | core/src/data_lookup/mod.rs:70-88 | for any chunk size: all ranges times the size, in order, exactly when all products fit 32 bits, else the overflow |
| `DataLookup.ProjectedRangeExactly` | core/src/data_lookup/mod.rs:62-68 | the same for the range of one id |
| `DataLookup.TryFrom` | core/src/data_lookup/mod.rs:141-172 | the expanding loop computes the specification |
| `DataLookup.ExpandSucceedsExactly` | core/src/data_lookup/mod.rs:141-172 | of all forms only those are refused whose last start is beyond a size that is neither zero nor full; the two kinds of error form give the error index |
| `DataLookup.ExpandedEntries` | core/src/data_lookup/mod.rs:141-172 | the entries of every other expanded form, from each start to the next one or to the size |
| `DataLookup.CompactThenExpand` | core/src/data_lookup/compact.rs:72-85 | what comes back from every index built from ids and lengths, full ones included |
| `DataLookup.RoundTripExactly` | core/src/data_lookup/compact.rs:59-85 | the round trip is the identity if and only if the index is empty or starts at id 0, and its total is below the 32-bit maximum |
| `DataLookup.RangesSurvive` | core/src/data_lookup/mod.rs:54-60 | the round trip keeps the range of every id but 0 when the total is below the 32-bit maximum, and loses every range of a full index |
| `DataLookup.FullIndexLosesRange` | core/src/data_lookup/compact.rs:59-85 | one application with as many cells as 32 bits count has a range, and none after the round trip |
| `DataLookup.ErrorIsFixed` | core/src/data_lookup/compact.rs:65-75 | the error index is compacted to a size of zero with one item, and comes back from it |
| `Extend.ParExtendDataMatrix` | kate/src/com.rs:324-375 | the run over the columns computes the specification, each error in its place |
| `Extend.ExtensionIsSystematic` | kate/src/com.rs:349-370 | every k-th extended cell is the original one, and all are values of one polynomial with as many coefficients as the column has cells |
| `Extend.ExtendAcceptsExactly` | kate/src/com.rs:324-375 | a block is accepted if and only if the extended dimensions are positive and fit 16 bits, the rows are a power of two, and it is made of whole chunks below the modulus, enough for the matrix |
| `Extend.ExtendedMatrixIsSystematic` | kate/src/com.rs:349-370 | every column of every accepted block is extended by a systematic low-degree code: values of one polynomial at the powers of 7^((P - 1) / size) |
| `Extend.ExtendedMatrixHoldsBlock` | kate/src/com.rs:344-370 | row 2 r of column c is the chunk at row r and column c of the block, read with its least significant byte first |
| `Extend.ExtendRefusesExactly` | kate/src/com.rs:324-375 | which error, in the order of the checks |
| `BlockRecovery.FlatBytesAreScalars` | kate/src/com.rs:305-309 | padded chunks always convert to scalars |
| `Grid.PadToScalar` | kate/src/gridgen/core.rs:473-482 | the copy into a zeroed buffer |
| `Grid.PadToBlsScalarSucceeds` | kate/src/gridgen/core.rs:473-482 | up to 31 bytes always convert, to the scalar of the padded chunk |
| `Grid.ChunkScalars` | kate/src/gridgen/core.rs:90-93 | the chunks of an encoding, each converted by `pad_to_bls_scalar`, whose error never occurs |
| `Grid.ScalarsByApp` | kate/src/gridgen/core.rs:86-97 | the scalars of every group in order, or the panic of the codec |
| `Grid.FillGrid` | kate/src/gridgen/core.rs:110-118 | the scalars of all groups, then converted filler, as many as the grid takes |
| `Grid.BuildGrid` | kate/src/gridgen/core.rs:69-124 | the run over groups, conversions, index, size and filler computes the specification |
| `Grid.CellCounts` | kate/src/gridgen/core.rs:90-93 | floor(L/31) + 1 cells in one builder, ceil(L/31) in the other; the same cells exactly when 31 does not divide L |
| `BuildersAgree.BuildersAgree` | kate/src/gridgen/core.rs:69-124 | when no encoding has a length divisible by 31 and the limits match: the same acceptance, index, dimensions and cells, and exactly which error each reports |
| `BuildersAgree.RefusalsAgreeExactly` | kate/src/com.rs:139-211 | those errors are the same if and only if a group cannot be encoded, or all can be padded and the cells have 32-bit offsets |
| `BuildersAgree.LookupsAgreeExactly` | kate/src/com.rs:150-161 | whenever both builders accept, under any limits, their indexes are equal if and only if no encoding has a length divisible by 31 |
| `BuildersAgree.BuildersAgreeExactly` | kate/src/gridgen/core.rs:99-118 | under matching limits two accepted results are the same if and only if no encoding has a length divisible by 31 |
| `BuildersAgree.FullChunkDiffers` | kate/src/gridgen/core.rs:90-93 | one extrinsic of 29 bytes takes two cells in one builder and one in the other |
| `Acceptance.FlattenAcceptsExactly` | kate/src/com.rs:139-211 | accepted if and only if the limits are powers of two whose product in bytes fits 32 bits, every group can be encoded, and the sum of L/31 + 1 is at most the product |
| `Acceptance.GridAcceptsExactly` | kate/src/gridgen/core.rs:69-124 | under power-of-two limits with at least four columns and below 2^27 cells, accepted if and only if every group can be encoded and the sum of ceil(L/31) is at most their product |
| `Acceptance.EncodableExactly` | kate/src/com.rs:150-161 | all groups can be encoded exactly when no application has more extrinsics and no extrinsic more bytes than 32 bits count |
| `Acceptance.AcceptanceDiffersExactly` | kate/src/gridgen/core.rs:69-124 | the second builder accepts all that the first does, and more exactly when one more cell for every full last chunk does not fit |
| `Acceptance.FullRowDiffers` | kate/src/gridgen/core.rs:90-93 | one extrinsic of 121 bytes that only the second builder accepts in four cells |
| `GridRows.ExtendAllColumns` | kate/src/gridgen/core.rs:207-234 | the in-place transforms column by column compute the specification |
| `GridRows.ExtendColumnsAcceptsExactly` | kate/src/gridgen/core.rs:207-234 | accepted if and only if the new height fits 16 bits and is a power of two; which error otherwise |
| `GridRows.ExtendColumnsIsSystematic` | kate/src/gridgen/core.rs:207-234 | an accepted extension keeps index and width, multiplies the height, and is a systematic low-degree code in every column |
| `GridRows.AppSpecificRowsExactly` | kate/recovery/src/com.rs:129-157 | the rows ascend, and they are the rows of the application's cells if and only if its range derives no row without a cell |
| `GridRows.RowWithoutCell` | kate/recovery/src/matrix.rs:224-237 | a compact index that expands to an empty range in the middle of a row: that row is asked for, and there is no cell |
| `GridRows.AppRowsOfExtension` | kate/src/gridgen/core.rs:155-205 | after an extension by any factor k, for every range: exactly the original rows from that of its first cell to that of its last, row y with its scalars in column order at index k*y, and none at all if and only if the first does not come after the last and the last is beyond the grid |
| `GridRows.AppRowsExactly` | kate/src/gridgen/core.rs:155-205 | for any grid, index, range and original dimensions, or none given: both errors in order, and otherwise which rows with which scalars |
| `GridRows.AppRowsAgree` | kate/src/gridgen/core.rs:155-205 | with factor two those are at exactly the indices that a client computes if and only if the range ends in the grid with its rows in order, or has no row on either side |
| `GridRecovery.AppRowsOfBuiltGrid` | kate/src/gridgen/core.rs:155-205 | on every grid built from extrinsics and extended by two, the rows returned, the rows a client asks for and the rows of the cells are the same, for every id the index has |
| `GridRecovery.DimsHoldAll` | kate/src/gridgen/core.rs:430-471 | under any limits a chosen size has room for all cells |
| `GridRecovery.GridExtrinsicsComeBack` | kate/src/gridgen/core.rs:69-124 | from any distinct cells of the grid extended by two with at least half of every column, the grouped extrinsics come back if and only if its byte offsets fit 32 bits; otherwise the overflow is reported |
| `GridRecovery.GridAppComesBack` | kate/recovery/src/com.rs:162-189 | one application of such a grid, by reconstruction and by decoding, with what happens when its byte offsets do not fit |
| `GridRecovery.OffsetsCanOverflow` | kate/src/gridgen/core.rs:69-124 | a list whose grid is built and extended although its byte offsets do not fit 32 bits |
| `Multiproof.DimsSucceedExactly` | kate/src/gridgen/core.rs:420-428 | refused exactly when, in some direction, the target is smaller than the grid and does not divide it; otherwise the smaller of the two in each direction |
| `Multiproof.BlocksAreEqual` | kate/src/gridgen/core.rs:390-415 | blocks exist exactly inside the grid of blocks, with equal sizes, each where its coordinates times that size say, and lie in the grid |
| `Multiproof.BlocksTile` | kate/src/gridgen/core.rs:390-415 | every cell of the grid lies in one block and in no other |
| `CellData.BlockRoundTrip` | kate/recovery/src/data.rs:72-112 | a block's 16 bytes read back as the block |
| `CellData.BlockIsReproduced` | kate/recovery/src/data.rs:83-112 | exactly sixteen bytes are accepted, and written back unchanged |
| `CellData.BlockNeedsSixteenBytes` | kate/recovery/src/data.rs:83-112 | any other length is refused with its own error |
| `CellData.FromBytes` | kate/recovery/src/data.rs:128-177 | the checks in order and the loop over scalars compute the specification |
| `CellData.ReadLimbs` | kate/recovery/src/data.rs:155-166 | four big-endian limbs written into the fixed buffer |
| `CellData.ToBytes` | kate/recovery/src/data.rs:179-196 | proof, block, 32-bit count and scalars, in that order |
| `CellData.Data` | kate/recovery/src/data.rs:198-208 | the limbs of all scalars, big-endian, in order |
| `CellData.CellRoundTrip` | kate/recovery/src/data.rs:128-196 | reading what was written gives the cell back exactly when it has fewer than 2^32 scalars; otherwise the length check refuses |
| `CellData.CellIsReproduced` | kate/recovery/src/data.rs:128-196 | every accepted byte string is reproduced by writing the cell it is read as |
| `CellData.CellLayout` | kate/recovery/src/data.rs:179-208 | where every field of a written cell is, which way round its bytes are, and each limb |
| `CellData.CellAcceptsExactly` | kate/recovery/src/data.rs:128-177 | accepted exactly when the fixed fields are there and the length is the announced one; which error otherwise |
| `RowMerge.Rows` | kate/recovery/src/data.rs:284-299 | the loop over the sorted cells and the filter compute the specification |
| `RowMerge.RowsAreTheCompleteOnes` | kate/recovery/src/data.rs:284-299 | for distinct positions inside the width: ascending, exactly the complete rows, each with bytes 48 to 80 of its cells in column order |

## Left out

- KZG commitments, openings, multiproof creation and verification, and reference-string loading: calls into a cryptographic library.
- The internals of `ark_poly` and of `parity-scale-codec`: the transforms and the encoding are stated by their definitions.
- `reconstruct_columns`: `reconstruct_column` applied to each entry of a hash map.
- `columns_positions`, `iter_extended_partition_positions`, `iter_mcell_partition_positions`: random sampling and floating-point partition sizes.
- The in-place `sort_by` calls and the single `resize` calls are functions on values; in-place movement is not captured there.
- `par_extend_data_matrix`: the parallel iteration is a sequential loop, and nalgebra's storage order is not captured.
- A hash map or ordered map of the library is a `map` value or its entries in key order; hashing and tree layout are not captured.
- A grid that is first extended by other factors and then indexed with extended dimensions, as some of the repository's tests do.
- The SCALE form of cells, of block dimensions and of the compact index, headers, runtime glue, ABI, serde, metrics and logging.
