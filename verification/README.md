# A model of the linear algebra operators

The library builds dense linear algebra out of small operators that split a
computation among threads, repack matrices into other layouts, and reorder sums.
Each of them has to give the answer of a simple definition. This project models
those operators in Dafny and proves that they do, over exact real numbers.

* **Teams** (`TeamPacking`, `TeamSafety`, `Team`). Threads meet at a reusable
  counter barrier, pack their panels into a shared buffer, meet again, and read it.
  Every atomic operation, every row written and every row read is one step of one
  thread; team size, number of rounds and schedule are arbitrary. `Team` is the
  object whose methods perform those steps.
* **Partitions** (`Parallel`, `Split2D`, `Bookend`, `Crop`). Ranges of work per
  thread, factors of a thread count, the mirrored panel pairs that balance a
  triangle, and the cut that removes a virtual margin.
* **Packing** (`Interleave`, `InterleaveView`, `TileInterleave`, `SplitComplex`,
  `TriangularForm`, `CopyTriangle`). What the packing loops write, against the view
  that says what must be read there.
* **Matrix times vector** (`Mv`, `MvPasses`, `BandedMv`, `BandInverse`, `GemvKernels`).
  Products reorganised by columns, by rows, by stored and mirrored halves, by panels of
  rows, and into several passes that apply beta once.
* **Triangular systems** (`Trsm`, `Trmm`, `TriangularInverse`, `BandSolve`).
  In-place loops proved against `TriangularSystem.Solves`, and the theorems that
  products and solves undo each other.
* **Storage** (`BandStorage`, `PackedTriangle`, `Views`). Address maps, after the
  LAPACK Users' Guide, section 5.3.2 (Packed Storage) and section 5.3.3 (Band
  Storage).

`Sums` and `NumericUtils` hold the arithmetic the others share, `Kernels` the strided vectors and
the contracts of the two vector kernels.

Loops that update a matrix or a vector are methods over `array2` or over `Kernels.Vec`, a
vector that runs through an array with a step of its own, forwards or backwards;
pure address arithmetic is functions; the barrier's fields are those of a class.
The triangular routines read A through a partial function that may be called on
the stated triangle only, so that reading anything else would not verify.
Products of reals go through `Sums.Mul`, whose definition most proofs hide.

## Where the code and its documentation part

* `iround` is documented to round up, and `iround_floor` is named for rounding down. For
  a negative `n` that is not a multiple they do not; for all other `n` they do.
* `chunk_fill` divides by zero exactly when the chunk divides a positive dimension.
* The bookend split computes the middle panel of an odd number of panels twice; its
  caller uses an unroll of one, for which the number is even.
* The strided-first kernel leaves y unscaled when A has no columns.
* The general copy with zero slack writes zeros into the virtual side of a lower
  destination when the source is narrower than the start of the last row copied.
* `split_2d` reaches its fallback only when the rounded root is zero.
* In a packed block, the lanes of fully virtual columns are written only when the
  flags ask for zeros there.

In each case the model does what the code does, and the condition under which the
documentation holds is a theorem listed below.

## Model

| member | source | states |
|---|---|---|
| `TeamPacking.StepKeepsInv` | src/core/framework/synchronization.hpp:52-70 | every single step of any thread keeps the invariant that links `bar`, `passed`, each saved `passed_old`, the returned numbers and the buffer |
| `TeamPacking.InitKeepsInv` | src/core/operators/bcms.hpp:184-196 | freshly set up records (ids -1, counters 0, buffer arbitrary) satisfy that invariant for any team size |
| `TeamPacking.StepFetch` | src/core/framework/synchronization.hpp:55-58 | the `fetch_add` step keeps the invariant, in particular that no two threads hold one number of a generation and that `bar` counts the arrived |
| `TeamPacking.StepReset` | src/core/framework/synchronization.hpp:58-59 | `bar = 0` by the last thread keeps the invariant, in particular that all the others still wait |
| `TeamPacking.StepStore` | src/core/framework/synchronization.hpp:61-61 | the store that lets a generation go keeps the invariant, in particular that after a packing phase the buffer is the whole packed matrix |
| `TeamPacking.StepSpin` | src/core/framework/synchronization.hpp:65-67 | a turn of the spin loop, leaving it or not, keeps the invariant |
| `TeamPacking.StepPack` | src/core/operators/bcms.hpp:253-257 | writing one row of a panel keeps the invariant, in particular what the other threads have written |
| `TeamPacking.StepRead` | src/core/operators/bcms.hpp:246-260 | reading one row keeps the invariant, in particular that what has been read so far is a prefix of this round |
| `TeamPacking.PackingComplete` | src/core/operators/bcms.hpp:235-246 | when the last thread reaches the second barrier, the union of all panels, whatever ids the threads drew, is the full packing of the round |
| `TeamPacking.PanelShape` | src/core/operators/bcms.hpp:250-256 | a thread's panel is its range of the split, inside the matrix, and empty for ids beyond the split; the clip of the last panel never changes it |
| `TeamSafety.LeadsKeepsInv` | src/core/framework/synchronization.hpp:52-70 | the invariant holds along any schedule of any length |
| `TeamSafety.AnyThreadMayStep` | src/core/operators/bcms.hpp:224-262 | in every reachable state every thread can take its step without an index out of range |
| `TeamSafety.ReadersSeeTheirRound` | src/core/operators/bcms.hpp:246-260 | while any thread reads round r the buffer holds exactly the packing of round r and no thread is writing |
| `TeamSafety.PackingWaitsForReaders` | src/core/operators/bcms.hpp:231-259 | no thread starts packing a round before every thread has finished reading the round before |
| `TeamSafety.WritersAreApart` | src/core/operators/bcms.hpp:253-257 | two threads that pack at the same time have disjoint rows left to write |
| `TeamSafety.FinishedThreadsReadEverything` | src/core/operators/bcms.hpp:224-262 | a thread that is done has read, round for round, exactly the matrices that were packed |
| `TeamSafety.LoadStaysFresh` | src/core/framework/synchronization.hpp:53-55 | `passed` cannot change between a thread's load of it and its own `fetch_add` |
| `TeamSafety.NobodyLeavesEarly` | src/core/framework/synchronization.hpp:58-68 | when one thread has left generation g every thread has arrived in it |
| `TeamSafety.TicketsArePermutation` | src/core/framework/synchronization.hpp:55-69 | the numbers a complete generation returned are a permutation of 0 .. nthreads - 1: each was returned to exactly one thread |
| `TeamSafety.IdsAreDistinct` | src/core/operators/bcms.hpp:231-233 | the ids threads adopt from their first barrier are distinct and smaller than the team size |
| `TeamSafety.SomeThreadProgresses` | src/core/framework/synchronization.hpp:65-65 | while any thread is not done, some thread has a step that is not a futile spin |
| `TeamSafety.EffectiveStepEndsSooner` | src/core/framework/synchronization.hpp:52-70 | every step that is not a futile spin decreases a bounded measure, so no schedule can postpone the end for ever without spinning |
| `TeamSafety.EveryRunCanFinish` | src/core/operators/bcms.hpp:224-262 | from every reachable state some schedule brings all threads to the end of all rounds |
| `TeamSafety.EffectiveStepsBounded` | src/core/framework/synchronization.hpp:52-70 | along every schedule the number of steps that are not futile spins is at most the measure of the first state |
| `Team.Bcms.constructor` | src/core/operators/bcms.hpp:164-199 | the set-up team is an initial state of the transition system |
| `Team.Bcms.BarrierStep` | src/core/framework/synchronization.hpp:52-70 | the object's atomic operations are the barrier steps of the transition system |
| `Team.Bcms.WorkStep` | src/core/operators/bcms.hpp:248-260 | the object's packing and reading are its remaining steps |
| `Team.Bcms.Execute` | src/core/operators/bcms.hpp:224-262 | any schedule run on the object is a run of the transition system, and every finished thread has read every round's matrix |
| `NumericUtils.IRoundIsCeiling` | src/common/perflibs_numeric_utils.hpp:41-52 | `iround` returns a multiple of r; it is the next one at or above n exactly when n is not a negative non-multiple (for those the documentation is wrong: the truncating remainder overshoots) |
| `NumericUtils.IRoundFloorIsFloor` | src/common/perflibs_numeric_utils.hpp:77-84 | `iround_floor` returns a multiple of r; it is the last one at or below n under the same exact condition |
| `NumericUtils.IRoundDivBounds` | src/common/perflibs_numeric_utils.hpp:71-73 | `iround_div` is the least number of blocks of r that hold n |
| `Parallel.WorkDistribution` | src/core/framework/parallel.hpp:234-260 | the imperative form computes the first element and the size of a thread's range |
| `Parallel.SplitIsConsecutive` | src/core/framework/parallel.hpp:198-209 | the ranges are consecutive from 0 to the dimension, non-empty when there is work, start on multiples of the interleave, and there are at most max_threads of them |
| `Parallel.SplitIsEven` | src/core/framework/parallel.hpp:198-209 | ranges never grow with the thread number and all but the last differ by at most one interleave unit |
| `Parallel.ExactCover` | src/core/framework/parallel.hpp:198-260 | every element of the dimension has exactly one owner |
| `Parallel.OwnerUnique` | src/core/framework/parallel.hpp:234-260 | no element has two owners in any consecutive split |
| `Parallel.UnitBlocks` | src/core/framework/parallel.hpp:219-222 | `iround_div` by a chunk of one is the dimension itself, the interleave the chunked form always splits with |
| `Parallel.FillFailsWhenChunkDivides` | src/core/framework/parallel.hpp:224-227 | `chunk_fill` divides by zero exactly when the dimension is positive and a multiple of the chunk |
| `Parallel.FillIsExact` | src/core/framework/parallel.hpp:224-227 | otherwise every range but the last is exactly one chunk, the last is shorter, and together they are the dimension |
| `Parallel.ChunkedIsConsecutive` | src/core/framework/parallel.hpp:216-229 | in every mode and for every size a chunked split that exists is a partition into non-empty ranges for at most max_threads threads |
| `Parallel.ChunkIsATarget` | src/core/framework/parallel.hpp:216-229 | it has as many threads as chunks, up to max_threads; spread, no range exceeds a chunk when there are no more chunks than threads; with more chunks than threads none is shorter than one; and ranges differ by at most one |
| `Parallel.NoThreadLeftOut` | src/core/framework/parallel.hpp:203-206 | no thread is left out while another has more than one interleave unit |
| `Split2D.Split` | src/core/framework/2d_split.hpp:27-67 | the factors multiply to max_threads, and the first is a divisor nearest to the rounded root, the smaller of two equally near; the fallback is reached only when the rounded root is 0 |
| `Bookend.OffMiddleOnce` | src/core/operators/bookend_triangular_split.hpp:54-119 | a stored element of C outside the middle panel is computed by exactly one thread, in exactly one of its two blocks, for lower and upper C at any offset |
| `Bookend.MiddleTwice` | src/core/operators/bookend_triangular_split.hpp:71-72 | a stored element of the middle panel of an odd number of panels is computed twice |
| `Bookend.ExactCoverOfC` | src/core/operators/bookend_triangular_split.hpp:54-119 | hence the blocks cover the stored part of C exactly once if and only if none of it lies in a middle panel |
| `Bookend.EvenPanelsDisjoint` | src/core/operators/bookend_triangular_split.hpp:54-119 | with an even number of panels no element at all, stored or virtual, is in two blocks |
| `Bookend.BlocksInsideC` | src/core/operators/bookend_triangular_split.hpp:94-102 | every block lies inside C and keeps the correspondence with the rows of A and B |
| `Bookend.UnitUnrollIsEven` | src/core/operators/bookend_triangular_split.hpp:59-61 | with an unroll of one the number of panels is always even |
| `Bookend.OddPanelsExample` | src/core/operators/bookend_triangular_split.hpp:59-72 | with a larger unroll it can be odd: a concrete job whose middle column is computed twice |
| `Bookend.TeamComputes` | src/core/operators/bookend_triangular_split.hpp:65-92 | every element assigned to a team is computed by one of its threads |
| `Bookend.SharedElement` | src/core/operators/bookend_triangular_split.hpp:71-102 | two blocks that share an element belong to one thread and one side, or to mirrored positions of a middle panel |
| `Bookend.EveryPlaceWorks` | src/core/operators/bookend_triangular_split.hpp:63-92 | when the line of a team has a unit for each of its max_threads / teams places, the thread at every place has rows of that team's panels |
| `Bookend.TeamIsEven` | src/core/operators/bookend_triangular_split.hpp:86-99 | threads of one team have the same number of rows but for one unit, the last of them excepted |
| `Bookend.NoEmptyRows` | src/core/operators/bookend_triangular_split.hpp:77-84 | a row computed on the front side, or on either side of a lower C, has a stored element in its panel |
| `TriangularForm.CntgBoundsExact` | src/core/matrix/operations.hpp:109-135 | the contiguous bounds of a strided position are exactly its stored elements, with or without the diagonal, at any offset of the window |
| `TriangularForm.StrdBoundsExact` | src/core/matrix/operations.hpp:156-188 | the strided bounds of a contiguous position are exactly its stored elements |
| `TriangularForm.HullsHoldEverything` | src/core/matrix/operations.hpp:138-206 | the bounds of a whole window contain every stored element of it |
| `CopyTriangle.CopyTri` | src/core/matrix/operations.hpp:336-493 | between matrices of one size both copies copy exactly the stored elements of the triangular one and change nothing else (`copy_from_tri` and `copy_to_tri` share the loops and differ in which operand is triangular) |
| `CopyTriangle.CopyFallback` | src/core/matrix/operations.hpp:289-330 | the general copy between any two sizes, element by element, with and without zero slack |
| `CopyTriangle.ZerosSpareTheVirtualSide` | src/core/matrix/operations.hpp:300-318 | its zero slack stays on the stored side if and only if the last copied row starts within the source; otherwise it overwrites virtual elements |
| `CopyTriangle.FallbackPads` | src/core/matrix/operations.hpp:289-330 | a stored element ends as the source's where the source has it, else as zero or as it was, for sources of any size; without zero slack nothing else changes |
| `CopyTriangle.FallbackOfOneSize` | src/core/matrix/operations.hpp:289-330 | between matrices of one size the general copy does what the moving-bounds copies do |
| `Crop.CropKeepsEverything` | src/core/operators/crop.hpp:35-75 | the cropped block lies inside C, starts on unit boundaries, ends on them or at the end of C, and contains every stored element of C |
| `Crop.CropMoves` | src/core/operators/crop.hpp:57-62 | an element is as virtual in the block as it was in C |
| `Crop.HullsAreTight` | src/core/matrix/operations.hpp:138-206 | each of the four bounds of a window has a stored element at it |
| `Crop.CropIsTight` | src/core/operators/crop.hpp:45-52 | the block exceeds those bounds by less than one unit on each side |
| `Interleave.CopyN` | src/core/framework/interleave_fallback_kernel.hpp:93-197 | one column of a block: zeros, implicit diagonal, source elements, zeros, and zero padding, lane by lane, nothing else written |
| `Interleave.UpperPhases` | src/core/framework/interleave_fallback_kernel.hpp:353-519 | the zero columns and the partial triangle of a block with a virtual upper part |
| `Interleave.RectanglePhase` | src/core/framework/interleave_fallback_kernel.hpp:521-535 | the full columns |
| `Interleave.LowerPhases` | src/core/framework/interleave_fallback_kernel.hpp:537-700 | the partial triangle and the zero columns of a block with a virtual lower part |
| `Interleave.NInterleaveCntgLoop` | src/core/framework/interleave_fallback_kernel.hpp:338-710 | the five phases in sequence and the slack columns write every cell of a block with what the flags demand of it, each column exactly once |
| `InterleaveView.OmniInterleave` | src/core/framework/interleave_fallback_kernel.hpp:754-959 | all the blocks, the last one narrower: every cell is its block's, everything else in memory is as before |
| `InterleaveView.PackTriangle` | src/core/matrix/adaptors.hpp:244-264 | the cell at (s / I) * dst_stride + c * I + s % I equals the value of `Views.Triangular` at (c, s), for lower and upper, unit and non-unit, any window offset and any interleave up to 20; slack columns are zero; padding lanes are zero or untouched |
| `InterleaveView.TriangularAtIsView` | src/core/matrix/adaptors.hpp:244-264 | what the packing must hold is the value of the library's triangular view of the same memory |
| `InterleaveView.CellReadsAsView` | src/core/framework/interleave_fallback_kernel.hpp:754-1015 | cell by cell: the view on the window, zero in the slack columns, and in the padding lanes zero or what was there |
| `InterleaveView.BlockCellIsView` | src/core/kernel_specs/interleave_kernel_spec.hpp:310-318 | the flags chosen for a triangle (a lower matrix gets a virtual upper part) make each cell the value of the view |
| `InterleaveView.CellOfElement` | src/core/framework/interleave_fallback_kernel.hpp:754-959 | the index of an element leads back to its block, column and lane |
| `TileInterleave.CntgLoops` | src/core/framework/tile_interleave.hpp:238-263 | full, partial and empty tiles of one band fill exactly the columns up to the rounded width, source first and zeros after it |
| `TileInterleave.FullTile` | src/core/framework/tile_interleave.hpp:207-212 | a full tile |
| `TileInterleave.PartialTile` | src/core/framework/tile_interleave.hpp:215-227 | a tile with the end of the source in it |
| `TileInterleave.EmptyTile` | src/core/framework/tile_interleave.hpp:229-236 | a tile beyond the end of the source |
| `TileInterleave.Pack` | src/core/framework/tile_interleave.hpp:265-276 | all bands of a panel |
| `TileInterleave.TileInterleaveWhole` | src/core/framework/tile_interleave.hpp:207-276 | reading any in-range element back gives the source, reading the slack up to the rounded width gives zero, and no other memory is written |
| `TileInterleave.PackPanels` | src/core/framework/tile_interleave.hpp:207-276 | packing strided panels that start on tile boundaries leaves the same memory as one packing of the whole |
| `TileInterleave.PanelCorner` | src/core/matrix/interleaved_tile_matrix_base.hpp:90-100 | a panel cut with `sub_matrix` at a tile boundary addresses the elements of the whole |
| `TileInterleave.SubAtTileCorner` | src/core/matrix/interleaved_tile_matrix_base.hpp:90-100 | `sub_matrix` at any tile corner commutes with the index map |
| `TileInterleave.ElemPlace` | src/core/matrix/interleaved_tile_matrix_base.hpp:55-70 | the index of an element leads back to its two coordinates |
| `TileInterleave.PlaceElem` | src/core/matrix/interleaved_tile_matrix_base.hpp:55-70 | and the coordinates of an address lead back to the address |
| `TileInterleave.TileLayout` | src/core/matrix/interleaved_tile_matrix_base.hpp:55-70 | neighbours in a tile are one and CntgInterleave apart, tiles follow each other, and bands are dst_strd_step apart |
| `TileInterleave.ElemsDistinct` | src/core/matrix/interleaved_tile_matrix_base.hpp:55-70 | distinct elements of a matrix that fits have distinct indices |
| `TileInterleave.FilledReadsBack` | src/core/matrix/interleaved_tile_matrix_base.hpp:72-74 | what was packed is what the matrix type reads |
| `SplitComplex.PartsDistinct` | src/core/matrix/split_complex_matrix.hpp:78-107 | distinct elements, and the two parts of one, have distinct places whenever split_factor divides interleave and strd_step >= cntg * interleave |
| `SplitComplex.IndexDecodes` | src/core/matrix/split_complex_matrix.hpp:78-107 | row, block and position can be read off the index of a part |
| `SplitComplex.BlockPositionDecodes` | src/core/matrix/split_complex_matrix.hpp:92-104 | inside a block the position tells the element and whether it is the imaginary part |
| `SplitComplex.WriteCell` | src/core/framework/interleave_split_complex_kernels.hpp:37-54 | one iteration of the double loop writes the two numbers of one cell and nothing else |
| `SplitComplex.InterleaveSplitComplex` | src/core/framework/interleave_split_complex_kernels.hpp:17-100 | both kernels (the second is the first on a source read across its storage) leave every cell as packed and all other memory untouched |
| `SplitComplex.ReadsBack` | src/core/matrix/split_complex_matrix.hpp:127-133 | every element, padding included, reads back as the complex number that was packed |
| `SplitComplex.AtIsView` | src/core/framework/interleave_split_complex_kernels.hpp:37-94 | the element packed as (c, s) is the one the library's view of the source reads there, and for the second kernel that of its transpose |
| `SplitComplex.LayoutInBlock` | src/core/matrix/split_complex_matrix.hpp:92-107 | real parts of a split group are adjacent, the next group follows their imaginary parts, and an imaginary part is one group after its real part |
| `SplitComplex.LayoutOfBlocks` | src/core/matrix/split_complex_matrix.hpp:80-100 | the blocks start the memory and follow each other, and rows are strd_step complex numbers apart |
| `Views.SubAddr` | src/core/matrix/matrix_base.hpp:152-169 | a part of a view addresses the same elements and remembers the same parent |
| `Views.SubValue` | src/core/matrix/adaptors.hpp:244-264 | a part of a triangular or symmetric view reads what the whole reads there |
| `Views.TransposeValue` | src/core/matrix/adaptors.hpp:232-234 | the transpose reads (s, c) where the view reads (c, s) and undoes itself |
| `Views.ReflectTransposeValue` | src/core/matrix/adaptors.hpp:345-369 | `reflect_transpose` preserves every symmetric value and undoes itself |
| `Views.ReflectTransposePhysical` | src/core/matrix/adaptors.hpp:345-369 | and makes physical exactly what was virtual |
| `Views.ReflectAddr` | src/core/matrix/matrix_base.hpp:217-231 | reflecting swaps the two positions of an address in the parent |
| `Views.PhysicalValue` | src/core/matrix/adaptors.hpp:349-369 | a stored element is read from where it stands |
| `Views.MirrorValue` | src/core/matrix/adaptors.hpp:349-369 | a symmetric matrix on its parent's diagonal reads the same on both sides of it |
| `Mv.NaiveMv` | src/core/naive/mv.hpp:18-41 | the double loop leaves beta * y + alpha * A * x, beta only on the first pass |
| `Mv.AxpbyExec` | src/core/blas/mv.hpp:39-46 | one axpby with a stored column |
| `Mv.DotExec` | src/core/blas/mv.hpp:65-76 | one dot product with a stored row |
| `Mv.PhysicalColumn` | src/core/blas/mv.hpp:121-141 | the stored half of a column, with an implicit one on a unit diagonal |
| `Mv.VirtualRow` | src/core/blas/mv.hpp:148-157 | the mirrored half of a row, read through `reflect_transpose` |
| `Mv.GatheredStep` | src/core/blas/mv.hpp:119-158 | one column adds to each row exactly the elements that had not been added: the mirrored half completes the row of the diagonal |
| `Mv.MvReflect` | src/core/blas/mv.hpp:110-203 | the column walk, upper or lower, symmetric or triangular, leaves beta * y + alpha * A * x with beta applied exactly once to each element |
| `Mv.TriangularRow` | src/core/blas/mv.hpp:359-408 | a row of a triangle is its diagonal, its stored stretch, and zeros |
| `Mv.TrmvVectorSplit` | src/core/blas/mv.hpp:359-408 | the row walk over a triangle leaves the same |
| `Mv.ReflectMatchesNaive` | src/core/blas/mv.hpp:110-203 | started from equal vectors, the column walk and the double loop leave equal vectors |
| `MvPasses.RunColumnPanels` | src/core/operators/residents.hpp:98-118 | one pass per panel of columns, each told where its panel starts, leaves beta * y + alpha * A * x over the whole of x: beta is applied once however many passes there are |
| `MvPasses.TwoNaivePasses` | src/core/naive/mv.hpp:26-40 | a second pass, with iteration one, adds its own product and leaves the first unscaled |
| `MvPasses.TwoReflectPasses` | src/core/blas/mv.hpp:116-117 | the same of the column walk |
| `MvPasses.SquareOfRows` | src/core/blas/mv.hpp:311-339 | the bounds of the first row of a block of rows place its square on the diagonal of the whole, and its panel beside it |
| `MvPasses.SquarePanel` | src/core/blas/mv.hpp:306-344 | the square, by rows or by columns, and then the panel as iteration one give a block of rows of a triangle its whole product |
| `MvPasses.RunRowBlocks` | src/core/packages/matmul/strategies/inplace_matmul_vector.hpp:48-90 | however the rows are cut into blocks, square and panel passes over all of them give beta * y + alpha * A * x for the whole triangle |
| `MvPasses.RowOfSub` | src/core/matrix/adaptors.hpp:244-264 | a row of a part of a matrix times its part of x is that part of the row of the whole |
| `BandStorage.AddressInside` | src/core/matrix/banded_matrix_base.hpp:266-278 | every element of the band has an address inside the array, in both storage orders |
| `BandStorage.BandAtTop` | src/core/matrix/banded_matrix_base.hpp:266-278 | the band of a column starts at the top of its array column, and stored transposed the band of a row at the start of its array column |
| `BandStorage.BandLayout` | src/core/matrix/banded_matrix_base.hpp:418-479 | the layout of the LAPACK Users' Guide, section 5.3.3: element (i, j) is at place ku + i - j of array column j, or transposed at place kl + j - i of array column i |
| `BandStorage.AddressesDistinct` | src/core/matrix/banded_matrix_base.hpp:266-278 | distinct elements of the band have distinct addresses |
| `BandStorage.ConventionsAgree` | src/core/matrix/banded_matrix_base.hpp:266-297 | the two index conventions (row first or column first) name the same address for the same element |
| `BandStorage.WalksAreTheBand` | src/core/matrix/banded_matrix_base.hpp:232-257 | the band positions of a column, and of a row, are exactly the elements of the band |
| `BandStorage.RowInStorage` | src/core/matrix/banded_matrix_base.hpp:266-278 | a stretch of a row lies in consecutive places when the storage is transposed |
| `BandStorage.ColumnInStorage` | src/core/matrix/banded_matrix_base.hpp:266-278 | a stretch of a column lies in consecutive places when it is not |
| `BandedMv.ColumnRangeExact` | src/core/blas/banded_mv_common.hpp:96-132 | the cropped band positions of a panel are exactly the elements of the column that the panel works on, a unit diagonal excluded |
| `BandedMv.OutsideColumnsZero` | src/core/blas/banded_mv_common.hpp:92-93 | the active column range misses no element of the band |
| `BandedMv.ActiveRangeTight` | src/core/blas/banded_mv_common.hpp:92-93 | and its first and last column hold elements of the band |
| `BandedMv.AddColumn` | src/core/blas/banded_mv_common.hpp:134-145 | one axpby adds exactly column j of the panel |
| `BandedMv.ByColumns` | src/core/blas/banded_mv_common.hpp:88-146 | the column-oriented path leaves alpha * A * x + beta * y on the panel and nothing else changed |
| `BandedMv.ByRows` | src/core/blas/banded_mv_common.hpp:147-168 | so does the row-oriented path |
| `BandedMv.RowDot` | src/core/blas/banded_mv_common.hpp:155-167 | one row is one dot product over its band positions, shifted past a unit diagonal |
| `BandedMv.Mirrored` | src/core/blas/banded_mv_common.hpp:412-444 | the virtual half of row j is the stored part of column j beyond the diagonal, clipped at the matrix edge |
| `BandedMv.VirtualPointerRight` | src/core/blas/banded_mv_common.hpp:364-465 | the pointer arithmetic from the panel's part of the column reaches the first mirrored element even when it lies in another panel |
| `BandedMv.DiagonalStep` | src/core/blas/banded_mv_common.hpp:385-480 | the two halves together add each element of the diagonal's row once |
| `BandedMv.ByHalves` | src/core/blas/banded_mv_common.hpp:314-482 | a panel of a symmetric matrix gets alpha * Sym(A) * x + beta * y, for both stored halves and any bandwidth |
| `BandedMv.PanelsCompose` | src/core/blas/gbmv_driver.hpp:75-120 | panels that follow each other extend a finished product |
| `BandedMv.RunPanels` | src/core/blas/banded_mv_common.hpp:303-482 | any partition of the rows into panels, run in any order, gives alpha * A * x + beta * y on every row, for general, triangular and symmetric bands: each mirrored element is counted exactly once |
| `BandedMv.Gbmv` | src/core/blas/gbmv_driver.hpp:54-120 | over the split into threads the whole y is alpha * A * x + beta * y, for general, triangular and symmetric bands |
| `BandSolve.UpperByRows` | src/core/blas/compressed_solve.hpp:65-98 | transposed storage, upper: solves A * B = B_old |
| `BandSolve.LowerByRows` | src/core/blas/compressed_solve.hpp:99-132 | transposed storage, lower |
| `BandSolve.UpperByColumns` | src/core/blas/compressed_solve.hpp:65-98 | column storage, upper |
| `BandSolve.LowerByColumns` | src/core/blas/compressed_solve.hpp:99-132 | column storage, lower |
| `BandSolve.TriBandSv` | src/core/blas/compressed_solve.hpp:62-133 | all four orders, both diagonals, any bandwidth, bands clipped at the edge: A * B = B_old |
| `BandSolve.NaiveTbsv` | src/core/naive/tbsv.hpp:15-41 | the element-by-element form solves the same system |
| `BandSolve.TriBandSvMatchesNaive` | src/core/blas/compressed_solve.hpp:62-133 | from equal right-hand sides it leaves the same B as the element-by-element form |
| `BandSolve.OrderDoesNotMatter` | src/core/blas/compressed_solve.hpp:140-166 | two bands that read as one matrix, however stored, leave one B |
| `BandInverse.Tbmv` | src/core/packages/matmul/strategies/compressed_triangular_matrix_vector.hpp:24-51 | the in-place banded triangular product, B itself standing in for a unit diagonal, is A * B |
| `BandInverse.UnitDiagonal` | src/core/blas/banded_mv_common.hpp:98-132 | a row with and without its implicit one differ by that element of x |
| `BandInverse.ProductThenSolve` | src/core/blas/compressed_solve.hpp:62-133 | a banded product, whatever its split, is undone by a banded solve, whatever its order: all of memory is as before |
| `BandInverse.SolveThenProduct` | src/core/blas/compressed_solve.hpp:62-133 | and the reverse |
| `Trsm.LeftNoTransUpper` | src/core/naive/trsm.hpp:45-63 | this loop nest solves op(A) * X = B, alpha having been applied first, for both diagonals |
| `Trsm.LeftNoTransLower` | src/core/naive/trsm.hpp:64-73 | this loop nest solves op(A) * X = B, alpha having been applied first, for both diagonals |
| `Trsm.LeftTransUpper` | src/core/naive/trsm.hpp:77-88 | this loop nest solves op(A) * X = alpha * B_old, for both diagonals |
| `Trsm.LeftTransLower` | src/core/naive/trsm.hpp:89-100 | this loop nest solves op(A) * X = alpha * B_old, for both diagonals |
| `Trsm.RightNoTransUpper` | src/core/naive/trsm.hpp:108-127 | this loop nest solves X * op(A) = alpha * B_old, for both diagonals |
| `Trsm.RightNoTransLower` | src/core/naive/trsm.hpp:128-147 | this loop nest solves X * op(A) = alpha * B_old, for both diagonals |
| `Trsm.RightTransUpper` | src/core/naive/trsm.hpp:150-169 | this loop nest solves X * op(A) = alpha * B_old, for both diagonals |
| `Trsm.RightTransLower` | src/core/naive/trsm.hpp:170-189 | this loop nest solves X * op(A) = alpha * B_old, for both diagonals |
| `Trsm.NaiveTrsm` | src/core/naive/trsm.hpp:16-193 | all eight variants: op(A) * X = alpha * B_old on the left, X * op(A) = alpha * B_old on the right, for every size and any non-zero diagonal, reading only the stated triangle |
| `TriangularSystem.SolutionUnique` | src/core/naive/trsm.hpp:16-193 | a triangular system without a zero on its diagonal has at most one solution |
| `Trmm.LeftNoTransUpper` | src/core/naive/trmm.hpp:35-52 | this loop nest leaves alpha * op(A) * B_old in place, for both diagonals |
| `Trmm.LeftNoTransLower` | src/core/naive/trmm.hpp:53-70 | this loop nest leaves alpha * op(A) * B_old in place, for both diagonals |
| `Trmm.LeftTransUpper` | src/core/naive/trmm.hpp:74-90 | this loop nest leaves alpha * op(A) * B_old in place, for both diagonals |
| `Trmm.LeftTransLower` | src/core/naive/trmm.hpp:92-108 | this loop nest leaves alpha * op(A) * B_old in place, for both diagonals |
| `Trmm.RightNoTransUpper` | src/core/naive/trmm.hpp:115-136 | this loop nest leaves alpha * B_old * op(A) in place, for both diagonals |
| `Trmm.RightNoTransLower` | src/core/naive/trmm.hpp:137-158 | this loop nest leaves alpha * B_old * op(A) in place, for both diagonals |
| `Trmm.RightTransUpper` | src/core/naive/trmm.hpp:162-185 | this loop nest leaves alpha * B_old * op(A) in place, for both diagonals |
| `Trmm.RightTransLower` | src/core/naive/trmm.hpp:186-209 | this loop nest leaves alpha * B_old * op(A) in place, for both diagonals |
| `Trmm.NaiveTrmm` | src/core/naive/trmm.hpp:16-212 | all eight variants in place: alpha * op(A) * B_old on the left, alpha * B_old * op(A) on the right |
| `TriangularInverse.ProductThenSolve` | src/core/naive/trmm.hpp:16-212 | `naive_trmm` with a, then `naive_trsm` with 1/a and the same options, restores B exactly |
| `TriangularInverse.SolveThenProduct` | src/core/naive/trsm.hpp:16-193 | and so does the reverse order |
| `TriangularInverse.StoredTriangleDecides` | src/core/naive/trsm.hpp:16-193 | matrices that agree on the stored triangle have one solution, whatever they hold elsewhere |
| `PackedTriangle.SlotInRange` | src/core/matrix/packed_matrix_base.hpp:210-217 | a stored element has a place in 0 .. n(n+1)/2 - 1, for both halves and all four step choices |
| `PackedTriangle.SlotsDistinct` | src/core/matrix/packed_matrix_base.hpp:75-86 | of its own |
| `PackedTriangle.SlotTaken` | src/core/matrix/packed_matrix_base.hpp:113-115 | and every place is taken: the map is a bijection |
| `PackedTriangle.ColumnsInOrder` | src/core/matrix/packed_matrix_base.hpp:75-86 | not transposed, the places are the columns in order, each from top to bottom, as in the LAPACK Users' Guide, section 5.3.2 |
| `PackedTriangle.RowsInOrder` | src/core/matrix/packed_matrix_base.hpp:75-86 | transposed, they are the rows in order, each from left to right |
| `PackedTriangle.UnitNeighbours` | src/core/matrix/packed_matrix_base.hpp:75-86 | positions that follow each other in the unit dimension are neighbours, in any part of the triangle |
| `PackedTriangle.BaseStep` | src/core/matrix/packed_matrix_base.hpp:113-115 | consecutive indices of a step function are one column apart, and the last ends at n(n+1)/2 |
| `PackedTriangle.TransposeSlot` | src/core/matrix/packed_matrix_base.hpp:242-246 | the transpose finds (s, c) where the matrix finds (c, s), stores the mirrored triangle, and undoes itself |
| `PackedTriangle.SubSlot` | src/core/matrix/packed_matrix_base.hpp:186-204 | a part addresses what the whole does, and cutting commutes with transposing |
| `PackedTriangle.BandPositions` | src/core/matrix/packed_matrix_base.hpp:147-164 | the band positions of a panel are exactly its stored elements |
| `PackedTriangle.BandPositionsByRow` | src/core/matrix/packed_matrix_base.hpp:147-164 | with the row contiguous they still are, read as rows of a column |
| `GemvKernels.RowBlock` | src/core/framework/gemv_fallback_kernels.hpp:50-75 | the accumulators of a block of rows after a block of columns |
| `GemvKernels.StrdLoop` | src/core/framework/gemv_fallback_kernels.hpp:31-114 | one pass over all rows, four at a time and then the rest, adds a block of columns and scales by the beta it is given |
| `GemvKernels.StrdFirst` | src/core/framework/gemv_fallback_kernels.hpp:121-176 | for at least one column y = beta * y + alpha * A * x for all sizes and remainders, beta used only with the first block; without columns y is left unscaled |
| `GemvKernels.EmptyProduct` | src/core/framework/gemv_fallback_kernels.hpp:136-175 | so without columns the promise holds exactly when beta is one or y is zero |
| `GemvKernels.CntgFirst` | src/core/framework/gemv_fallback_kernels.hpp:330-403 | eight rows at a time and then one at a time: y = beta * y + alpha * A * x for all sizes |
| `Kernels.Axpby` | src/core/blas/mv.hpp:37-46 | the contract the drivers rely on: a stretch of the vector becomes alpha * x plus beta times itself, in whatever steps it runs through memory, and the memory between its elements keeps its contents |
| `Kernels.DotKernel` | src/core/blas/mv.hpp:65-76 | the contract the drivers rely on: the dot product of a contiguous stretch of a matrix and a stretch of the vector |
| `Kernels.VecLayout` | src/core/matrix/matrix_base.hpp:242-245 | the elements of a vector start at its origin and follow each other at its step |
| `Kernels.SubVec` | src/core/matrix/operations.hpp:843-847 | a stretch of a vector is a vector of those elements |
| `Kernels.SubChanged` | src/core/matrix/operations.hpp:843-847 | writing to a stretch changes neither the other elements nor the memory around them |
| `Kernels.PlacesDistinct` | src/core/framework/gemv_fallback_kernels.hpp:121-176 | with a step other than zero the elements of a vector have distinct places |

## Left out

- Rounding, NaN and zero-mode rules, and overflow scaling: scalars are exact reals; a
  `beta` of zero is a multiplication like any other.
- Complex conjugation and Hermitian diagonals: the real symmetric case has the same
  structure.
- Kernels.Axpby: the matrix operand is contiguous, as the operators that call it choose it to be;
  the vectors have any step. The method stands for any kernel with its contract.
- Kernels.DotKernel: as Axpby. A kernel may sum in any order, which exact reals do not show.
- BandedMv.Gbmv: x and y are different arrays; two vectors interleaved in one array are not modelled.
- Mv.ReflectMatchesNaive: likewise.
- SIMD paths, assembly kernels and the dispatch on fixed step values.
- Relaxed memory ordering: the barrier's operations are sequentially consistent steps.
- `update_threads_needed`, and copying a barrier: teams keep their size.
- Overflow of `passed`: counters are unbounded.
- Team.Bcms.WorkStep: packing is one step per strided row and reading one step per
  row; what `pack` and `next_` do within a row is not interleaved with other threads.
- The `min_work` option of the chunked split, which rounds to the value of its own name.
- Split2D.Split: the rounded square root is a parameter.
- The zero slack of `copy_general_fallback`.
- `symv_square_panel` over the strided dimension, the reductions between threads of the
  symmetric product, and the strategies that choose among operators.
- MvPasses.SquarePanel: the plain product stands for `gemm_exec` on the panel; both reset beta
  by the same rule. Blocks of rows are run one after another.
- GemvKernels.StrdFirst: reads outside the arrays of A and x are not modelled; the
  reading functions return zero there, and the result is stated for what they return.
- SplitComplex.InterleaveSplitComplex: the same holds of reads outside the source.
- InterleaveView.PackTriangle: conjugation and symmetric sources are not modelled.
- BandedMv.RunPanels: panels are run one after another, in any order, and not interleaved;
  each changes only its own rows of y, which its contract states. The copies of strided
  operands into contiguous buffers are not made, as the vectors may have steps here.
- BandedMv.ByHalves: the symmetric product is modelled on column storage, the order its
  pointer arithmetic assumes.
- Mv.TrmvVectorSplit: the matrix is square and cut along its parent's diagonal, as the
  operator that calls it makes it.
- Mv.MvReflect: the matrix lies on its parent's diagonal, which the operators before it see
  to and its own assertions do not check.
- Trsm.NaiveTrsm: B is an `array2` and A an accessor, so their addresses and steps are not
  modelled; the same holds of Trmm.NaiveTrmm.
- CopyTriangle.CopyTri: source and destination are separate `array2` values; steps and
  overlap in memory are not modelled. The same holds of CopyTriangle.CopyFallback.
- Unsigned sizes and fixed integer widths: integers are unbounded.
