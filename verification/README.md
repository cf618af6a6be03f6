# A verified model of libSplash

libSplash stores the fields and particles of a simulation in HDF5 files: one file per MPI position (serial
collectors) or one file per iteration that all ranks write (parallel collectors). This project models the
logic that libSplash puts around HDF5 and proves what it promises.

HDF5 is reduced to four things. A dataset is a flat sequence of cells with an extent whose last axis runs
fastest. A hyperslab is a set of coordinates, and a transfer pairs the coordinates of two selections in order.
A file is a tree of groups and datasets. Opening and closing are events in a log in which every file gets an
identifier of its own. The libSplash side is modelled in its own form: methods with loops where the source has
loops, classes where it changes fields. `dafny verify dfyconfig.toml` checks the whole project.

## What is proved

* **Merged reading** (`FileGrid`, `CornerSearch`, `Traversal`, `FileRead`, `FileScan`, `GridMerge`, `DomainCollector`,
  `PolyCount`, `MovedWindow`). Many files, cut from one array along the axes and shifted cyclically per axis, are read as one array.
  The three searches that run on all axes at once end at the right file; the three nested loops with their in-flight
  cutting of `max_dims` load exactly the files that meet the request; the buffer shows, at every requested cell of the
  global domain, the value of the one file that holds the cell (`MergedReadIsOneArrayRead`). Moving the global offset of
  all files and the request by the same distance changes nothing that is read (`ReadBoth`, `MovedRead`). For data with fewer axes
  than the file grid the exact condition for that is proved over all contents of the files
  (`MergedReadShownExactly`). `RotatedExample`, whose window has moved to coordinate 100, `MissingAxisExample` and
  `RevisitExample` are small grids that meet every precondition of the merged read, with what it returns for them.
* **Parallel writing** (`ParallelLayout`, `ParallelWrite`, `MpiGrid`, `ParallelDomainCollector`). The blocks that ranks
  compute from an allgather are disjoint and cover the dataset, the block of the next rank on an axis begins where a rank's
  block ends (`NextBlock`), every rank's write is accepted at its offset, and every interleaving of the ranks' strided
  writes ends in the dataset that the same writes leave one after the other (`ParallelIsOneByOne`). `WritersExample` and
  `PlaneWritersExample` have two ranks in a row and four on a plane.
* **Chunk sizing** (`ChunkSizing`). Powers of two within the dataset, as large as the target allows, doubled in turn
  over the axes; only one choice of extents has these properties (`OnlyChunks`); the documented range holds exactly under a condition on element and dataset size.
* **File handles** (`HandleNames`, `FileLog`, `HandleCache`, `HandleMgr`, `FileNames`, `FileListing`, `EntryIds`). Over
  every run, also with failing calls of get, the bounded cache answers like opening the right file each time, with the
  access that the session asked for; every file
  is open and in the cache or was closed once, and none is closed twice, whatever fails; which of the files that the
  manager writes a listing finds again, exactly (`ReadsBackExactly`, `PassesOverExactly`, `ListsOwnIterationsExactly`).
* **Datasets** (`Hdf5`, `DataSet`, `SerialDataCollector`, `DataContainer`). Axis swapping, strided write and read,
  the omitted hyperslabs, append as concatenation, the bounding box of a container; `DatasetExample` has datasets with
  the values that arrive.
* **Smaller parts** (`IdSharing` and `H5Id`: shared identifiers; `PathNames`, `GroupTree` and `DCGroup`: paths,
  groups and listings; `ToolPartition` and `Iterations`: splashtools and removing iterations). `Arithmetic` holds
  unsigned subtraction and sums, `Geometry` boxes, `Options` an option type.

## Findings about the code

* Grid data may have fewer axes than the file grid; `writeDomain` does not check it. `readGridInternal` computes no
  offset on the missing axes, so all files go to the request's first coordinate there, one over the other, and the rest
  of the buffer is never filled (`MissingAxisExample.Read`: files 10, 11 and 20, 21 are read as 20, 21 and an unfilled
  row). The buffer shows every requested cell, whatever the files hold, exactly when the request covers one coordinate on
  each missing axis (`MergedReadShownExactly`); with data of different numbers of axes, exactly when no file that meets the
  request begins off the request's first coordinate on an axis its data lacks (`ShownExactly`). For a single file of
  all processes see `SharedCellsShownExactly`.
* The row loop of `readDomain` visits the last row of the first plane a second time after it has cut the y axis,
  without that row's first file. Grid data is only overwritten with itself; Poly data then appears twice in the
  container, and `getNumElements` counts it twice. It happens exactly when the request does not meet every interval of the
  y axis and a cut of the x axis lies inside it (`LoadedOnceExactly`, `CountedOnceExactly`; `RevisitExample.Read` gets
  three elements from two files). A Poly file whose dataset is empty counts as one element.
* `DataContainer::add` gives the bounding box on an axis exactly when a domain that reaches furthest is not added
  before one that starts lowest (`BoxIsExactWhenFarAfterNear`). `readDomain` meets this because the start corner comes first.
* The first append to a name hands `Selection` its arguments in the wrong roles, so it goes through exactly without
  offset and stride (`FirstAppendAccepted`, `RunGoesThroughExactly`). A later append of cells with stride 0 is refused,
  but the dataset has grown by fill values by then (`AppendedCell`, `DatasetExample.Appends`).
* Axes are doubled in ascending order of extent although the comment says descending, so of two axes that can both be
  doubled further the smaller one has the larger chunk, and of equal ones the first (`GetOptimalChunkDims`,
  `CubeExample`). The target is chosen from a product that wraps around in `size_t`, and the range of 64 KB to 4 MB
  is missed for element sizes that are no power of two (`DocumentedRange`, `SmallDataset`).
* The handle manager does not close the handle with the fewest accesses, although HandleMgr.hpp:47-48 says so. From the
  first eviction on, all other handles stay until `close`, and every later eviction hits the file opened last
  (`EvictionPins`, `PinnedUntilClose`). Over all runs every eviction closes a least accessed handle if and only if
  the cache has room for one (`EvictsLeastExactly`); with more room the first eviction can already be wrong
  (`FirstEvictionIsWrong`).
* `close` empties its map only after the last file. When `H5Fclose` fails on the way, the collector stays open and the map
  keeps the handles that are closed. Calling `close` again can end the session if and only if no file had been closed;
  otherwise `H5Fclose` fails at the first key every time, and the files from the failure on stay open for good
  (`ClosesAgainExactly`).
* `setFileNameScheme` refuses a change while files are open by testing the file name. With an empty name it lets the
  change pass, and `get` gives out files of the old scheme for the new one (`SchemeGuardExactly`).
* The test for a full file name compares `find` with `length() - 3`, which is `npos` for names of two characters. With
  such a base name, or one that ends in ".h5", a truncating session over iterations overwrites its own file. For a
  process grid `open` refuses exactly the sessions that would; for iterations it lets them pass
  (`TakenAsFullExactly`, `TruncatesOnceExactly`, `OpenGuards`).
* For the same reason iterations under such a base path are not found again: base "ab" writes the file "ab", which
  listing "ab" passes over. And they are taken for iterations of others: base "a_" writes "a_", which is iteration 0 of
  "a", and base "a_7.h5" writes a file that is iteration 7 of "a" (`FullNamesConfuse`). Listing a base name finds its own
  iterations and nothing else exactly when no base path in the directory passes for a full file name that is this base
  name or is itself listed under it (`ListsOwnIterationsExactly`).
* A file "<base>_.h5" is listed as iteration 0 (`EmptyIdIsZero`). The same wrap-around of `size() - 3` lets files of
  two characters without an extension pass for iterations: "a_" is iteration 0 of "a", "_7" iteration 7 of the empty base
  name (`ListedWithoutExtension`, `ListedExactly`). A sign or white space before the number is read as well, so
  "<base>_-7.h5" is listed as iteration -7 (`SignedId`, `SpacedId`).
* The shortcuts that leave out hyperslabs test products of coordinates. For valid selections they move the same
  cells; for an invalid one the shortcut replaces the error by a transfer from offset zero (`AcceptedExactly`,
  `ShortcutIsWholeBuffer`; in `DatasetExample.OutsideBuffer` two cells from position 5 of a buffer of two are written from
  position 0).
* Writing a dataset under the name of a group removes everything below that group (`ListedAfterWrite`).

## Model

| member | source | states |
|---|---|---|
| Geometry.IntersectionMeansSharedCell | src/include/splash/domains/Domain.hpp:156-170 | testIntersection is true exactly when some cell lies in both boxes |
| FileGrid.FileAt | src/DomainCollector.cpp:118-149 | a file of a regular grid holds exactly the cells that its position owns on every axis |
| FileGrid.OneOwnerPerCell | src/DomainCollector.cpp:452-479 | every cell of the global domain lies in the domain of exactly one file, and no other cell in any |
| CornerSearch.ReadDomainInfoForRank | src/DomainCollector.cpp:118-149 | a file lies, on every axis, at its offset plus the global offset, with its own size; reports whether it shares a cell with the request; an empty request meets nothing |
| CornerSearch.ZeroStepKeepsTarget | src/DomainCollector.cpp:496-524 | one pass on an axis never loses the rotation point: a jump halves the interval, the back-step keeps its length and returns below the target, and delta is 0 exactly when the pass began there |
| CornerSearch.ZeroPass | src/DomainCollector.cpp:496-524 | one pass advances every axis that is not done and reports whether all are |
| CornerSearch.FindZero | src/DomainCollector.cpp:486-526 | the loop over all three axes at once terminates with the position whose file starts at the global offset on every axis, for any rotation |
| CornerSearch.HalfHoldsStart | src/DomainCollector.cpp:528-548 | the chosen half of an axis holds the position of the request's first cell whenever some position does |
| CornerSearch.SelectHalf | src/DomainCollector.cpp:528-548 | both ends of the half on all axes, as the test against the last file's end chooses it |
| CornerSearch.StartStep | src/DomainCollector.cpp:562-589 | one narrowing keeps the request's start in the range and either makes progress or the axis stands on the position tested before |
| CornerSearch.TestCentre | src/DomainCollector.cpp:559-580 | the file in the middle of the three ranges: its position and offset, and whether it holds the request's first cell |
| CornerSearch.NothingThere | src/DomainCollector.cpp:552-596 | an unchanged position means that all axes have converged, so without a hit the request starts behind the global domain |
| CornerSearch.FindStart | src/DomainCollector.cpp:552-596 | the simultaneous binary search terminates and finds the file that holds the request's first cell exactly when the request does not start behind the global domain |
| Traversal.RelIsModulo | src/DomainCollector.cpp:614-627 | the cyclic position that the loops compute by a modulo |
| Traversal.StepOf | src/DomainCollector.cpp:602-673 | every position of the grid is reached by a step of the walk |
| Traversal.PosInjective | src/DomainCollector.cpp:602-673 | ... by one step only |
| Traversal.LoadedHowOften | src/DomainCollector.cpp:602-673 | exactly the files that meet the request are loaded; each once, except the files of the row visited again, which are loaded twice |
| Traversal.LoadedOnceExactly | src/DomainCollector.cpp:621-667 | no file is loaded twice if and only if the y axis is not cut or a row has one file to load |
| Traversal.StartsAtCorner | src/DomainCollector.cpp:602-628 | the file that holds the request's first cell is loaded first |
| Traversal.InOrder | src/DomainCollector.cpp:613-673 | files are loaded plane after plane, in a plane row after row, in a row file after file; behind the first plane the row visited again follows without its first file |
| FileRead.AxisPart | src/DomainCollector.cpp:215-243 | the four branches give the shared part of request and file on one axis: same global coordinates, inside both, and as long as possible |
| FileRead.Intersect | src/DomainCollector.cpp:200-244 | the loop over the data's axes computes the shared box in both frames and leaves the other axes at 0, 1, 0 |
| FileRead.SharedCell | src/DomainCollector.cpp:213-244 | a cell of the request is overwritten, that is lies in the file on the axes of its data and at the request's first coordinate on all others, exactly when it lies in the target box; its source cell is then the file's cell |
| FileRead.MovedLoads | src/DomainCollector.cpp:151-274 | moving the shared box gives exactly the buffer that the cell-by-cell definition of loading gives, for data of any number of axes |
| FileRead.ReadGridInternal | src/DomainCollector.cpp:151-274 | allocates the buffer for the request once and loads one file into it: the exact contents afterwards, for data of any number of axes |
| FileRead.WholeCopy | src/DomainCollector.cpp:332-344 | reading a complete dataset into a buffer of its size copies it |
| FileRead.ReadPolyInternal | src/DomainCollector.cpp:276-349 | adds one subdomain with the file's offset plus global offset, its size and its whole dataset |
| FileScan.ReadDomainDataForRank | src/DomainCollector.cpp:351-450 | adds what one file contributes if it meets the request; a size mismatch exactly for Grid data that does not match its domain, otherwise inconsistent classes exactly for a class other than that of the files before |
| FileScan.RowHit | src/DomainCollector.cpp:625-661 | passing a file that meets the request keeps the state of the x loop, or ends the row |
| FileScan.RowMiss | src/DomainCollector.cpp:630-661 | the first miss in a row cuts the x range, cuts the y range and steps back, or ends the whole search, as the walk expects |
| FileScan.ScanRow | src/DomainCollector.cpp:623-661 | the x loop terminates and loads the row of the walk, with the right cut of max_dims |
| FileScan.PlaneStep | src/DomainCollector.cpp:621-667 | after a row the y loop goes on with the next row of the walk or the plane is done |
| FileScan.ScanPlane | src/DomainCollector.cpp:620-667 | the y loop terminates and loads the plane of the walk |
| FileScan.WalkStep | src/DomainCollector.cpp:613-673 | after a plane the z loop goes on with the next plane or everything of the trace is loaded |
| FileScan.ScanFiles | src/DomainCollector.cpp:602-673 | the three loops terminate with exactly the contributions of the trace, for Grid data the buffer after loading all of them in order, or with an error that inconsistent files caused |
| GridMerge.AllFilesShown | src/DomainCollector.cpp:598-679 | if every file that meets the request begins at its first coordinate on the axes its data lacks, the buffer shows the part of the request of each file |
| GridMerge.ShownExactly | src/DomainCollector.cpp:151-274 | the buffer shows every requested cell of every file, for all contents of the files, if and only if no file that meets the request is off there |
| DomainCollector.AxisHit | src/DomainCollector.cpp:602-673 | on one axis the files that meet the request are the first ones behind the start, and none of them starts lower |
| DomainCollector.HitExactly | src/DomainCollector.cpp:602-673 | the walk's box of steps is exactly the set of files whose domain intersects the request |
| DomainCollector.StartIsLowest | src/DomainCollector.cpp:598-605 | no file that meets the request begins below the start corner on any axis |
| DomainCollector.SceneOfGrid | src/DomainCollector.cpp:452-484 | a regular grid of files meets what the walk relies on |
| DomainCollector.FirstLowestIsExact | src/include/splash/domains/DataContainer.hpp:73-94 | when the first domain is lowest on an axis, the container's box is the bounding box |
| DomainCollector.PolyResult | src/DomainCollector.cpp:598-679 | a Poly result holds the whole dataset of each file of the trace, inside its exact bounding box |
| DomainCollector.ReadDomain | src/DomainCollector.cpp:452-679 | empty result exactly when the request starts behind the global domain; otherwise, loaded in the order of the walk that begins at the file with the request's first cell, the Grid buffer of all files that meet the request, which shows all of them unless one is off on an axis its data lacks, or their Poly subdomains; an error only for inconsistent files |
| DomainCollector.NoneOffExactly | src/DomainCollector.cpp:200-244 | for data of the same number of axes in all files, none is off exactly when the request covers one coordinate on every axis the data lacks |
| DomainCollector.MergedReadShownExactly | src/DomainCollector.cpp:151-274 | a merged read of such data shows every requested cell, for all contents of the files, if and only if the request covers one coordinate on every axis the data lacks |
| MissingAxisExample.Readable | src/DomainCollector.cpp:452-484 | two files of one-dimensional Grid data along the y axis meet all that merged reading expects |
| MissingAxisExample.SecondRowIsBlank | src/DomainCollector.cpp:200-274 | loading both in the order of the walk gives the second file in the first row and nothing in the second row |
| MissingAxisExample.Read | src/DomainCollector.cpp:452-679 | that is the buffer that the merged read returns |
| DomainCollector.MergedReadIsOneArrayRead | src/DomainCollector.cpp:452-679 | if the files are pieces of one array, the Grid buffer equals that array at every requested cell of the global domain |
| RotatedExample.Readable | src/DomainCollector.cpp:452-484 | three rotated files whose global offset is 100 meet all that merged reading expects |
| RotatedExample.Read | src/DomainCollector.cpp:452-679 | a request at that place gets the values 10, 11, 12 of the two files it meets |
| MovedWindow.ReadBoth | src/DomainCollector.cpp:129-139 | adding the same distance to the global offset of all files and to the request gives a merged read with the same values, whatever the files hold |
| PolyCount.PolyElements | src/include/splash/domains/DataContainer.hpp:111-122 | a Poly result has the elements of all datasets of the trace, one for a dataset without cells |
| PolyCount.CountedOnceExactly | src/DomainCollector.cpp:602-673 | the number of elements of a Poly result is that of the files that meet the request, plus that of the row visited again; no element counts twice if and only if the request meets every interval of the y axis or no cut of the x axis lies inside it |
| RevisitExample.Readable | src/DomainCollector.cpp:452-484 | two by two files of Poly data meet all that merged reading expects |
| RevisitExample.SpansAre | src/DomainCollector.cpp:602-673 | a request for the first row of them walks over two files in x and one in y of two |
| RevisitExample.SecondFileCountsTwice | src/DomainCollector.cpp:621-667 | the container for that walk has the elements 10, 11, 11 |
| RevisitExample.Read | src/DomainCollector.cpp:452-679 | that is the container that the merged read returns, and getNumElements gives 3 |
| ParallelDomainCollector.ReadDomain | src/ParallelDomainCollector.cpp:104-378 | size mismatch reported exactly for Grid data that does not fill its domain; else the exact buffer after loading the file, or the whole Poly dataset; nothing exactly when the request has no cell in common with the file at its offset plus global offset |
| ParallelDomainCollector.ReadShowsTheArray | src/ParallelDomainCollector.cpp:217-346 | the buffer shows the array that the file is a piece of, at every requested cell that the file holds by its attributes, on axes the data lacks at the request's first coordinate |
| ParallelDomainCollector.SharedCellsShownExactly | src/ParallelDomainCollector.cpp:217-346 | the buffer shows all shared cells, for all contents of the file, if and only if the file begins at the request's first coordinate on the axes its data lacks |
| MovedWindow.MovedRead | src/ParallelDomainCollector.cpp:217-346 | adding the same distance to the file's global offset and to the request reads the same values |
| MpiGrid.PosOfIndex | src/ParallelDataCollector.cpp:85-90 | indexToPos undoes the x-fastest index of every position on the grid |
| MpiGrid.IndexOfPos | src/ParallelDataCollector.cpp:85-90 | every rank has a position on the grid, and the index of that is the rank |
| MpiGrid.NextPos | src/ParallelDataCollector.cpp:85-90 | rank 0 is at the origin, and the positions of the ranks run along x first, then y, then z |
| MpiGrid.NextIndex | src/HandleMgr.cpp:121-125 | indices grow by one along x, by a row along y and by a plane along z |
| ParallelLayout.GatherMPIWrites | src/ParallelDataCollector.cpp:1075-1127 | refused exactly for 2D data on a 3D topology; else the same global size on every rank and the rank's own offset |
| ParallelLayout.AddUp | src/ParallelDataCollector.cpp:1104-1126 | one axis: the sum of all sizes along it and of those before the rank |
| ParallelLayout.OneDimensionalSizesFollow | src/ParallelDataCollector.cpp:1091-1095 | for one-dimensional data any sizes fit together |
| ParallelLayout.BlocksApart | src/ParallelDataCollector.cpp:1075-1127 | blocks of different ranks share no cell |
| ParallelLayout.BlocksCover | src/ParallelDataCollector.cpp:1075-1127 | every cell of the dataset lies in some rank's block |
| ParallelLayout.BlockInside | src/ParallelDataCollector.cpp:1075-1127 | no block reaches beyond the dataset |
| ParallelLayout.FirstRank | src/ParallelDataCollector.cpp:1091-1124 | the block of rank 0 begins at the origin of the dataset |
| ParallelLayout.NextPosition | src/ParallelDataCollector.cpp:85-90 | the neighbour of a rank on x is the next rank, on y the one a row further, on z the one a plane further |
| ParallelLayout.NextBlock | src/ParallelDataCollector.cpp:1091-1124 | its block begins on that axis where the rank's block ends, and on the others where it begins |
| ParallelWrite.RunKeepsWritten | src/ParallelDataCollector.cpp:1055-1073 | at any point of any interleaving the dataset holds exactly what has been put so far |
| ParallelWrite.EveryInterleavingAgrees | src/ParallelDataCollector.cpp:1055-1073 | any two interleavings that let all ranks finish end in the same dataset |
| ParallelWrite.AloneIsWrite | src/DCDataSet.cpp:518-590 | the puts of one rank, done in any order, make of the dataset exactly what the write of the dataset object makes of it |
| ParallelWrite.AcceptedExactly | src/ParallelDataCollector.cpp:1055-1073 | a rank's selection of the size it gathered has room at its offset, and its write is accepted if and only if its buffer holds the selection or the hyperslab is left out |
| ParallelWrite.RanksAgree | src/ParallelDataCollector.cpp:643-667 | ranks that do the puts of their writes at their offsets never put different values into one cell, and none outside the dataset |
| ParallelWrite.DatasetHoldsEveryBlock | src/ParallelDataCollector.cpp:643-667 | after any complete interleaving every cell holds the cell that the rank whose block it lies in selected for it, by offset and stride, from its buffer; a rank whose count has a zero leaves its block as it was |
| ParallelWrite.ParallelIsOneByOne | src/ParallelDataCollector.cpp:643-667 | every complete interleaving of the ranks' strided writes ends in the dataset that the writes leave one after the other |
| WritersExample.Writes | src/ParallelDataCollector.cpp:643-667 | two ranks, one with a strided selection, meet all that these results expect |
| WritersExample.Result | src/ParallelDataCollector.cpp:643-667 | every complete interleaving of their writes leaves 1, 2, 3 |
| PlaneWritersExample.Writes | src/ParallelDataCollector.cpp:643-667 | four ranks on a two by two grid writing two-dimensional data of different sizes meet all that these results expect |
| PlaneWritersExample.Result | src/ParallelDataCollector.cpp:643-667 | every complete interleaving of their writes leaves 1 to 6, rank 1 behind rank 0 on x and rank 2 behind it on y |
| ChunkSizing.ChooseTarget | src/include/splash/core/DCHelper.hpp:132-138 | the largest of the seven sizes that half the dataset reaches, or 64 KB |
| ChunkSizing.HalfSize | src/include/splash/core/DCHelper.hpp:119-130 | the bytes of the halved extents, modulo 2^64 |
| ChunkSizing.OrderAxes | src/include/splash/core/DCHelper.hpp:115-117 | every axis once, by ascending extent and not descending as the comment says, axes of equal extent by ascending number |
| ChunkSizing.RoundIsBalanced | src/include/splash/core/DCHelper.hpp:152-172 | at every step no chunk extent is more than twice that of an axis that can still be doubled, and none exceeds that of such an axis before it in the order |
| ChunkSizing.PassNext | src/include/splash/core/DCHelper.hpp:157-172 | one axis: doubled exactly if twice its chunk extent fits the dataset |
| ChunkSizing.DoubleNext | src/include/splash/core/DCHelper.hpp:152-172 | one inner pass doubles one axis if any can be doubled, and looks at every axis before giving up |
| ChunkSizing.DiffWraps | src/include/splash/core/DCHelper.hpp:147-150 | the unsigned difference wraps to a huge value exactly when doubling would pass the target |
| ChunkSizing.DoubleUp | src/include/splash/core/DCHelper.hpp:140-180 | the doubling loop terminates; then doubling once more would pass the target or no axis can be doubled |
| ChunkSizing.GetOptimalChunkDims | src/include/splash/core/DCHelper.hpp:102-181 | extents are powers of two between 1 and the dataset's, at most the target unless one element is larger, maximal and balanced; of two axes that can still be doubled the smaller one, or of equal ones the first, has no smaller chunk; the target belongs to the wrapped product of the halves |
| ChunkSizing.NoBetterChunks | src/include/splash/core/DCHelper.hpp:102-181 | no other powers of two within the dataset come closer to the target from below |
| ChunkSizing.OnlyChunks | src/include/splash/core/DCHelper.hpp:102-181 | these properties determine the chunk: no two choices have them for the same dataset and target |
| ChunkSizing.CubeExample | src/include/splash/core/DCHelper.hpp:102-181 | for 256 cells of four bytes on every axis the chunk is 128 x 128 x 64 |
| ChunkSizing.MoreThanHalf | src/include/splash/core/DCHelper.hpp:124-128 | when half the extents reach the target, the chunk is more than half of it |
| ChunkSizing.TargetMetExactly | src/include/splash/core/DCHelper.hpp:86-101 | with 64 KB in half the extents, the chunk equals the target if and only if the element size is a power of two |
| ChunkSizing.DocumentedRange | src/include/splash/core/DCHelper.hpp:86-101 | the exact conditions under which the chunk lies within 64 KB and 4 MB |
| ChunkSizing.SmallDataset | src/include/splash/core/DCHelper.hpp:86-101 | a smaller dataset gets 64 KB exactly when the element size is a power of two up to 64 KB and, times the largest powers of two within the extents, reaches 64 KB |
| HandleNames.TakenAsFullExactly | src/HandleMgr.cpp:93 | which names pass for full file names: those with their first ".h5" at the end, and every name of two characters |
| HandleNames.NameExample | src/HandleMgr.cpp:180-194 | the names that the schemes give to the file of a position, a base name and a full one |
| HandleNames.KeysAgreeExactly | src/HandleMgr.cpp:121-125 | two positions share a key exactly when their indices agree modulo 2^32 |
| HandleNames.KeyOfPos | src/HandleMgr.cpp:121-143 | posFromIndex gives a position whose index is the one asked for |
| HandleNames.InverseExactly | src/HandleMgr.cpp:121-143 | posFromIndex undoes indexFromPos exactly for positions inside the rows and planes of the grid with a 32-bit index, or for iterations |
| HandleNames.OnGridExactly | src/HandleMgr.cpp:121-143 | the position of an index is on the grid if and only if the index is below the number of positions |
| HandleNames.NamesDiffer | src/HandleMgr.cpp:180-194 | under one base name, positions that have an index have the same file exactly when they have the same index |
| FileLog.LiveOrClosedOnce | src/HandleMgr.cpp:170-176 | in a log of opens and closes every file is open and never closed, or closed exactly once |
| HandleCache.GetIsGood | src/HandleMgr.cpp:151-248 | one call of get, whatever HDF5 answers, keeps the bound, the eviction candidate, the open files and their names |
| HandleCache.GetOpensTheRightFile | src/HandleMgr.cpp:151-248 | get returns an open handle on the file named for the position, opened with the session's flags unless the session truncates, and for writing exactly if the session's flags permit writing or truncate; it fails only when HDF5 does |
| HandleCache.EveryAccess | src/HandleMgr.cpp:196-224 | over every run each cached handle has that access |
| HandleCache.AccessBits | src/HandleMgr.cpp:198-220 | which flags write and which truncate, bit by bit |
| HandleCache.GetAgain | src/HandleMgr.cpp:239-247 | for a cached position get answers at once and counts one access more, modulo 2^32; nothing else changes |
| HandleCache.GetNew | src/HandleMgr.cpp:158-237 | for any other position a full cache loses its candidate, also if the file then cannot be opened; which of the three failures is reported; the new file has one access |
| HandleCache.CreatedOnce | src/HandleMgr.cpp:198-214 | a session creates no two files of the same name |
| HandleCache.EvictionPins | src/HandleMgr.cpp:161-178 | after an eviction all other cached files are pinned |
| HandleCache.PinnedStays | src/HandleMgr.cpp:161-247 | pinned files keep their handles through any call of get: only the one other place is ever evicted |
| HandleCache.PinnedUntilClose | src/HandleMgr.cpp:161-247 | ... through any run of calls of get |
| HandleCache.EvictsLeastExactly | src/include/splash/core/HandleMgr.hpp:44-49 | over all runs every eviction closes a handle with the lowest number of accesses if and only if the maximum is one handle |
| HandleCache.FirstEvictionIsWrong | src/HandleMgr.cpp:161-178 | for any larger maximum: a run after which the first eviction closes the one handle with two accesses and keeps all others, with one |
| HandleCache.CloseIsGood | src/HandleMgr.cpp:250-276 | a close in which every file can be closed leaves none open, and every file ever opened has been closed exactly once |
| HandleCache.ClosedInOrder | src/HandleMgr.cpp:262-273 | close closes a file behind all files with lower keys, each once |
| HandleCache.ClosesAgainExactly | src/HandleMgr.cpp:250-276 | after a close that failed behind k files, further calls of close can end the session if and only if k is 0; for k above 0 each of them fails and changes nothing, and exactly the files from the k-th key on stay open |
| HandleCache.SecondCloseIsGood | src/HandleMgr.cpp:250-276 | for k = 0 a second close can succeed, and then every file has been closed exactly once |
| HandleCache.BeginIsGood | src/HandleMgr.cpp:72-119 | a session may begin with any naming and flags while no file is open |
| HandleCache.EveryRun | src/HandleMgr.cpp:72-276 | over every run of open, get, close and setFileNameScheme: bound kept, victim present when full, every opened file cached or closed exactly once |
| HandleCache.EveryEnding | src/HandleMgr.cpp:72-276 | over every run and any calls of close behind it, also failing ones: every file ever opened is open or was closed exactly once |
| HandleCache.SchemeGuardExactly | src/HandleMgr.cpp:72-80 | a change of scheme with files in the cache is refused exactly with a file name; the cache serves the right files afterwards if and only if it was refused, or the new scheme is FullName and key 0 is not in the cache |
| HandleCache.TruncatesOnce | src/HandleMgr.cpp:198-223 | no file is truncated twice in a session, also after eviction and reopening |
| HandleCache.TruncatedTwice | src/HandleMgr.cpp:182-209 | a run that truncates its own file, for every base name that passes for a full file name and is shared by two positions |
| HandleCache.TruncatesOnceExactly | src/HandleMgr.cpp:182-223 | a truncating session is free of that if and only if its base name does not pass for a full file name, or the scheme is FullName, or the process grid has one position |
| HandleCache.OpenGuards | src/HandleMgr.cpp:82-108 | for a process grid open refuses exactly the truncating sessions that could truncate a file twice; for iterations it accepts such a session |
| HandleMgr.Manager.constructor | src/HandleMgr.cpp:36-53 | starts without files; a maximum of 0 means 2^32 - 2 |
| HandleMgr.Manager.SetFileNameScheme | src/HandleMgr.cpp:72-80 | refused while a file name is set, unless the scheme stays, whether files are open or not |
| HandleMgr.Manager.OpenBase | src/HandleMgr.cpp:82-108 | in every state sets the session's fields, then refuses a full file name for more than one position |
| HandleMgr.Manager.OpenFile | src/HandleMgr.cpp:110-119 | in every state: a session on one full file name, unless the scheme cannot change |
| HandleMgr.Manager.Get | src/HandleMgr.cpp:151-248 | carries out one step of the cache on the fields and keeps it valid; the returned handle was opened with the access of the session |
| HandleMgr.Manager.CloseLeast | src/HandleMgr.cpp:161-178 | closes the candidate and takes it out of the cache |
| HandleMgr.Manager.GetByIndex | src/HandleMgr.cpp:145-149 | for every rank or iteration: an open handle on the file with that name, with the access of the session |
| HandleMgr.Manager.CloseFiles | src/HandleMgr.cpp:262-273 | the loop closes all handles in the order of their keys, or those before the first that fails |
| HandleMgr.Manager.Close | src/HandleMgr.cpp:250-276 | closes the files in the order of their keys and resets every field; if one cannot be closed, the ones before it are closed and all stay in the cache; also when called again after that |
| FileNames.ValueOfDec | src/HandleMgr.cpp:182-192 | printing and reading a number gives it back |
| FileNames.StrtolReads | src/ParallelDataCollector.cpp:142 | strtol reads white space, one sign and digits up to the first other character, clamped to long; without digits it reads nothing |
| FileNames.ListedExactly | src/ParallelDataCollector.cpp:92-150 | the names listed are exactly "<base>_<id>.h5" whose middle has no underscore and is a number to strtol, under that number, and the names of two characters that wrap around to npos, for names of every length |
| FileNames.NamesReadBack | src/ParallelDataCollector.cpp:92-150 | a name "<other>_<id>.h5" is listed under a base name exactly if that is <other>, and then as the id after the conversions to long and int32_t |
| FileNames.EmptyIdIsZero | src/ParallelDataCollector.cpp:137-146 | a name with an empty id counts as iteration 0 |
| FileNames.ListedWithoutExtension | src/ParallelDataCollector.cpp:131-146 | "a_" is listed as iteration 0 and "_7" as iteration 7, without any extension |
| FileNames.SignedId | src/ParallelDataCollector.cpp:137-146 | "<base>_-<id>.h5" is listed under the negative id |
| FileNames.SpacedId | src/ParallelDataCollector.cpp:137-146 | white space before the id does not matter |
| FileNames.LetterBehind | src/ParallelDataCollector.cpp:142-146 | a letter behind the id keeps the name out |
| FileNames.SplitBaseExactly | src/ParallelDataCollector.cpp:97-110 | the last slash divides directory and name; without one the directory is "." |
| FileNames.ListFilesInDir | src/ParallelDataCollector.cpp:92-150 | the set of ids of all listed entries of the directory, or an error if it cannot be opened |
| FileListing.EntryOf | src/HandleMgr.cpp:180-194 | the file of an iteration lies in the directory that listing its base path reads, under the name of the iteration, or under the bare base name if the path passes for a full file name |
| FileListing.ListedAs | src/ParallelDataCollector.cpp:92-150 | what the file of an iteration contributes to listing any base name |
| FileListing.ReadsBackExactly | src/ParallelDataCollector.cpp:92-150 | listing a base path finds the file that the manager opens for an iteration under its id if and only if the path does not pass for a full file name and the id is below 2^31 |
| FileListing.PassesOverExactly | src/ParallelDataCollector.cpp:92-150 | it passes over the file of another base name if and only if that path does not pass for a full file name whose base name is itself listed |
| FileListing.FullNamesConfuse | src/HandleMgr.cpp:182-194 | base "ab" is not found by listing "ab"; base "a_" is listed as iteration 0 of "a" and base "a_7.h5" as its iteration 7 |
| FileListing.ListsOwnIterations | src/ParallelDataCollector.cpp:92-150 | among files of the manager, none of which confuses a base name, listing it finds an id exactly when one of them is its iteration of that id |
| FileListing.ListsOwnIterationsExactly | src/ParallelDataCollector.cpp:92-150 | whatever is written under a set of base paths, listing finds exactly its own iterations, if and only if no path of the set passes for a full file name that is the base name or is listed under it |
| EntryIds.GetEntryIDs | src/ParallelDataCollector.cpp:272-291 | all listed ids, strictly increasing |
| EntryIds.GetMaxID | src/ParallelDataCollector.cpp:256-265 | the largest listed id, or the stored one without files |
| Hdf5.CoordFlat | src/DCDataSet.cpp:437-516 | coordinates and indices of a dataset determine each other |
| Hdf5.TransferAt | src/DCDataSet.cpp:437-516 | a transfer gives each selected target cell the source cell at the same place of its selection and leaves the rest |
| DataSet.LogicalOf | src/DCDataSet.cpp:114-160 | swapping a stored extent twice gives it back; axes unknown to HDF5 have size 1 |
| DataSet.XFastest | src/include/splash/Dimensions.hpp:269-287 | swapping the axes turns HDF5's order of cells into x-fastest order |
| DataSet.TransferMoves | src/DCDataSet.cpp:518-590 | the transfer of swapped selections moves the user's strided selection to the user's box |
| DataSet.ShortcutIsWholeBuffer | src/DCDataSet.cpp:554-562 | leaving the source hyperslab out selects the same cells if and only if the offset is zero, which a valid selection implies |
| DataSet.AcceptedExactly | src/DCDataSet.cpp:554-581 | a write goes through if and only if each selection fits its dataspace or has a zero in its offset and the whole size as count, the source also stride 1, and there is data or nothing to write |
| DataSet.ValidWriteMoves | src/DCDataSet.cpp:518-590 | for valid selections the shortcuts move what the full hyperslabs move |
| DataSet.MoveThrough | src/DCDataSet.cpp:437-590 | writing a selection and reading the dataset back is moving the selection directly |
| DataSet.DCDataSet.Open | src/DCDataSet.cpp:114-160 | logical size and dimensions of a stored dataset |
| DataSet.DCDataSet.Create | src/DCDataSet.cpp:197-255 | a dataset of the given size full of fill values; refused if one is open |
| DataSet.DCDataSet.SelectForWrite | src/DCDataSet.cpp:541-581 | exactly which selection of the buffer and of the dataset is made, hyperslab or whole; refused exactly when a needed hyperslab is invalid |
| DataSet.DCDataSet.Write | src/DCDataSet.cpp:518-590 | exactly the target box takes the selected cells of the buffer, or nothing changes |
| DataSet.DCDataSet.SelectForRead | src/DCDataSet.cpp:480-502 | exactly which selection of the buffer and of the dataset is made; refused exactly when a needed hyperslab is invalid |
| DataSet.DCDataSet.Read | src/DCDataSet.cpp:437-516 | exactly the target box of the buffer takes the source box of the dataset; without a buffer only the size is reported |
| DataSet.DCDataSet.Append | src/DCDataSet.cpp:592-650 | the dataset grows by the strided slice of the buffer, or by fill values if the transfer is refused |
| SerialDataCollector.Group.WriteDataSet | src/SerialDataCollector.cpp:913-930 | the name stands for a new dataset of the selection's size with the selected cells; other names keep theirs |
| SerialDataCollector.Group.ReadCompleteDataSet | src/SerialDataCollector.cpp:991-1015 | all of the dataset behind the source offset goes to the target box, which alone changes |
| SerialDataCollector.Group.WriteThenRead | src/SerialDataCollector.cpp:913-1015 | strided write and read back in one to three dimensions: the box holds the selection, cell by cell; without a buffer size the buffer is as large as the selection |
| SerialDataCollector.Group.AppendDataSet | src/SerialDataCollector.cpp:932-958 | the effect of one append, on a new name and on an existing dataset |
| SerialDataCollector.FirstAppendAccepted | src/SerialDataCollector.cpp:940-952 | a creating append of cells is accepted if and only if it has no offset and stride 1 |
| SerialDataCollector.AppendsConcatenate | src/SerialDataCollector.cpp:932-958 | any run of appends that begins with cells leaves the concatenation of the parts of all calls in call order, as long as the sum of the counts; which call goes through |
| SerialDataCollector.AppendedCell | src/SerialDataCollector.cpp:932-958 | the j-th cell of the k-th call lies behind all cells of the calls before; it is the buffer's cell at offset + j * stride, or a fill value for a later call with stride 0 or a creating call with an offset or stride |
| SerialDataCollector.RunGoesThroughExactly | src/SerialDataCollector.cpp:932-958 | every call of a run goes through if and only if the first has cells, no offset and stride 1, and no call with cells has stride 0, or none has cells |
| SerialDataCollector.EmptyStaysEmpty | src/SerialDataCollector.cpp:932-958 | a run that begins without cells leaves an empty dataset, and in it exactly the calls without cells go through |
| DatasetExample.Columns | src/SerialDataCollector.cpp:913-1015 | every other column of four by two cells, written and read back behind the first row and column of three by three |
| DatasetExample.WholeBuffer | src/DCDataSet.cpp:451-452 | the same into a buffer without a size |
| DatasetExample.Appends | src/SerialDataCollector.cpp:932-958 | a plain append, a strided one and one with stride 0 leave 1, 2, 3, 4 and a fill value |
| DatasetExample.OutsideBuffer | src/DCDataSet.cpp:554-562 | a write from outside its buffer goes through and takes the cells from position 0 |
| DataContainer.Container.Add | src/include/splash/domains/DataContainer.hpp:73-94 | appends the subdomain and extends offset and size |
| DataContainer.BoxIsExactWhenFarAfterNear | src/include/splash/domains/DataContainer.hpp:73-94 | the offset is the least one; the size is that of the bounding box if and only if a furthest domain is not added before a lowest one |
| DataContainer.BoxIsLongestReach | src/include/splash/domains/DataContainer.hpp:73-94 | in all cases the size is the longest reach of a domain from the least offset at the time it was added |
| DataContainer.Container.GetNumElements | src/include/splash/domains/DataContainer.hpp:111-122 | the number of elements of all subdomains laid end to end |
| DataContainer.Container.GetElement | src/include/splash/domains/DataContainer.hpp:221-248 | finds exactly the indices below that number, in the subdomain and at the place where the flat view has them |
| IdSharing.ClosesWithLastHolder | src/include/splash/core/H5IdWrapper.hpp:108-115 | destruction closes a valid identifier exactly when no other wrapper holds it |
| IdSharing.CountsAfterDestroy | src/include/splash/core/H5IdWrapper.hpp:64-73 | the counter of the destroyed wrapper goes down by one, all others stay, and at zero it goes out of use |
| IdSharing.CountsAfterSwap | src/include/splash/core/H5IdWrapper.hpp:142-146 | swapping changes no number of sharers |
| IdSharing.AssignmentMoves | src/include/splash/core/H5IdWrapper.hpp:101-106 | copy and swap moves the left side to the sharers of the right side, and closes its old identifier if it was the last holder |
| IdSharing.SelfAssignment | src/include/splash/core/H5IdWrapper.hpp:101-106 | assigning a wrapper to itself changes nothing |
| IdSharing.ResetMoves | src/include/splash/core/H5IdWrapper.hpp:117-128 | reset gives a counter of its own and closes the old identifier if it was held nowhere else |
| IdSharing.EveryRun | src/include/splash/core/H5IdWrapper.hpp:50-150 | over every run the close method is called once for each valid identifier that nobody holds any more, and never for one that is held |
| H5Id.Program.Construct | src/include/splash/core/H5IdWrapper.hpp:94-95 | a wrapper with a counter of 1 |
| H5Id.Program.Copy | src/include/splash/core/H5IdWrapper.hpp:96-99 | one sharer more; every counter still equals the number of its sharers |
| H5Id.Program.Swap | src/include/splash/core/H5IdWrapper.hpp:142-146 | identifiers and counters change places |
| H5Id.Program.Destroy | src/include/splash/core/H5IdWrapper.hpp:108-115 | the counter goes down; at zero it is deleted and a valid identifier closed |
| H5Id.Program.Assign | src/include/splash/core/H5IdWrapper.hpp:101-106 | the effect of assignment on both wrappers, the counters and the calls of close |
| H5Id.Program.Reset | src/include/splash/core/H5IdWrapper.hpp:123-128 | the effect of reset |
| H5Id.Program.Close | src/include/splash/core/H5IdWrapper.hpp:117-121 | the wrapper becomes invalid; its identifier is closed if it was the last holder |
| PathNames.TokensOfJoin | src/DCGroup.cpp:63-97 | the tokens of joined names are those names |
| PathNames.TokensConcat | src/DCGroup.cpp:66-97 | tokens of a concatenation with a slash between, so repeated slashes do not matter |
| PathNames.SplitTokens | src/DCDataSet.cpp:47-60 | splitPath takes the last token off a name that does not end in a slash |
| PathNames.SplitExactly | src/DCDataSet.cpp:47-60 | for any name: what is before and behind the last slash, or the whole name without a slash or with one at the end |
| PathNames.FullPathTokens | src/DCDataSet.cpp:62-73 | the path of a dataset is base, iteration and the tokens of the user's name |
| PathNames.FullPathExample | src/DCDataSet.cpp:62-73 | the paths of "x" and "fields/E/x" in iteration 12 |
| GroupTree.PutAtEffect | src/DCGroup.cpp:71-72 | a new link changes where its own path and paths through it lead, and nothing else |
| GroupTree.DatasetsExactly | src/DCGroup.cpp:163-219 | the recursive visit meets exactly the paths that lead to a dataset |
| GroupTree.DatasetsInOrder | src/DCGroup.cpp:163-219 | ... in the order of HDF5's index by name, component by component, so each once |
| GroupTree.ListedExactly | src/DCGroup.cpp:163-219 | an entry is listed if and only if splitting its name and walking the tokens leads to a dataset of its type |
| GroupTree.ListedInOrder | src/DCGroup.cpp:163-219 | a listing is in that order, and no name is listed twice |
| DCGroup.GetEntriesInternal | src/DCGroup.cpp:163-219 | counts the datasets below a group and fills that many entries behind those that were there |
| DCGroup.VisitLink | src/DCGroup.cpp:170-218 | one round: a group is visited in turn, a dataset is counted and listed |
| DCGroup.GetEntries | src/SerialDataCollector.cpp:791-809 | counting and then filling lists all datasets of the iteration; the counted number is the one that filling needs |
| DCGroup.File.Create | src/DCGroup.cpp:58-100 | fails without a change exactly when something on the path is no group; else there are groups along the tokens, opened one after the other, and nothing else has changed |
| DCGroup.File.NextGroup | src/DCGroup.cpp:69-93 | one token: opened, created, or refused |
| DCGroup.File.OpenCreate | src/DCGroup.cpp:121-128 | opening a path that is there and creating any other agree with create |
| DCGroup.File.Write | src/SerialDataCollector.cpp:520-550 | the dataset stands at base, iteration and tokens of the name, in place of what was there |
| DCGroup.ListedAfterWrite | src/DCDataSet.cpp:47-73 | after a write the iteration lists the name with its repeated slashes collapsed, nothing below it, and every other entry as before |
| ToolPartition.ToolOptions.FilesToProcesses | tools/splashtools.cpp:273-292 | the index range of one process, none without files |
| ToolPartition.OneRankPerFile | tools/splashtools.cpp:273-292 | every file index lies in the range of exactly one process |
| ToolPartition.EvenShares | tools/splashtools.cpp:283-291 | with fewer processes than files all but the last have ranges of one length, the rounded down quotient; the last has what is left, and the ranges follow each other from the first file to the last |
| ToolPartition.IndexOfPosition | tools/splashtools.cpp:294-299 | z-fastest positions and indices determine each other |
| ToolPartition.CountsAlongLastAxis | tools/splashtools.cpp:294-299 | index 0 is the origin, and indices run along z first, then y, then x |
| ToolPartition.EveryPositionOnce | tools/splashtools.cpp:389-420 | every position of the grid is handled by exactly one process, exactly once |
| ToolPartition.ToolOptions.ExecuteToolFunction | tools/splashtools.cpp:362-429 | the tool runs on the positions of the process's range and fails if one of them fails or there is no grid |
| Iterations.Collector.Remove | src/SerialDataCollector.cpp:589-616 | removes one iteration and finds the new highest one |
| Iterations.Collector.DeleteFrom | tools/splashtools.cpp:78-96 | keeps exactly the iterations below the given one, with their highest as maxID |

## Left out

- HDF5 and MPI calls, property lists, compression, transfer modes and the allgather itself: their results are parameters or the models described above.
- Attributes, references, `AttributeInfo`, type queries (`generateCollectionType`) and base types; the kind of a dataset is an opaque number.
- Lazy loading (`readDomainLazy`, the `lazyLoad` branches), access-mode checks, callbacks of the handle manager, logging and exception texts.
- Merged reading of irregular file grids, of requests that are empty or begin before the global domain, and wrap-around of 64-bit coordinates; `ceil` of half a difference is `(d + 1) / 2`.
- DomainCollector.ReadDomain: files of data class Undefined are excluded, which `FileScan.ReadDomainDataForRank` and `ParallelDomainCollector.ReadDomain` demand too.
- FileScan.ReadDomainDataForRank: files of data class Undefined are excluded, and so is Grid data without cells.
- FileRead.ReadPolyInternal: a dataset without cells reports size (1,1,1), so it is added as one element that is never filled; the branch that would skip it is not reached.
- DataSet.DCDataSet.Write: the dataset's selection is that of a freshly created or opened dataset, and writing to an empty dataset that was opened, whose dataspace has no axes, is excluded.
- DataSet.DCDataSet.Read: reading an empty dataset that was just created is excluded; the collectors read only what they opened.
- ChunkSizing.GetOptimalChunkDims: the dataset's extents are at least 1; the statements about the documented range are for half sizes below 2^64.
- HandleCache.CloseIsGood: closing succeeds for every file; `ClosesAgainExactly`, `EveryEnding` and `Manager.Close` treat the failure, after which the collectors let only `close` follow.
- HandleCache.EveryRun: `open` is called only while no file is open, as the collectors refuse to open what is not closed (src/SerialDataCollector.cpp:147, src/ParallelDataCollector.cpp:221); closes that fail are the subject of `EveryEnding`, and a change of scheme with files open under an empty file name, which `SchemeGuardExactly` treats, is not among the calls.
- HandleMgr.Manager.OpenAt: a part of `get` that is a method of its own here.
- IdSharing.EveryRun: `release()`, which gives an identifier away without closing it, is not among the operations; the library calls it only on wrappers without counter (src/AttributeInfo.cpp:36, src/AttributeInfo.cpp:57-58). No identifier is wrapped twice.
- H5Id.Program.Copy: fewer than 2^32 sharers.
- SerialDataCollector.Group.ReadCompleteDataSet: a source offset beyond the dataset, where the size wraps around, is excluded; all callers pass zero.
- DCGroup.File.Write: names that end in a slash are excluded, and so is HDF5's reading of "." as the current group; creating a group succeeds.
- FileNames.NamesReadBack: names are shorter than `npos`, and so are the paths in `FileListing`.
- ToolPartition.ToolOptions.FilesToProcesses: the quotient is exact, without rounding to `float`; single-file mode is one call of the tool on rank 0.
- Iterations.Collector.DeleteFrom: iterations are visited in ascending order, not in HDF5's order of names.
- ParallelWrite.RunKeepsWritten: writes of single cells are the atoms; collective buffering inside MPI is not modelled.
- `splash2xdmf.py`, examples, command lines, environment variables and h5check.
