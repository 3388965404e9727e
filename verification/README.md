# Verification of ESDM's array logic

ESDM stores n-dimensional arrays as fragments on several backends. Between the application's view (a dataspace: extents
and a memory layout) and the stored fragments lies a good deal of geometry, index arithmetic and bookkeeping. This
project models that logic in Dafny and proves what it promises.

| files | what they model |
|---|---|
| `MixedRadix`, `Geometry`, `Options` | index vectors and their row-major numbers; ranges, hypercubes and their point sets |
| `CubeSet`, `Subcover` | sets of hypercubes: subtraction, cover tests, irredundant subcovers (src/hypercube.c) |
| `BoundList`, `BoundTree`, `BoundTreeOps`, `Neighbours` | sorted array and B-tree over bounds, and the neighbour manager on top of them |
| `Dataspace`, `CopyPlan`, `CopyExec`, `CopyData`, `CopyLaws` | memory layouts, the planner and the odometer loop of the strided copy, packing, direct reads |
| `Split`, `SplitContiguous`, `SplitBackends` | division of a write into fragments and among backends |
| `StreamCounts`, `StreamOrder`, `Stream` | write streams |
| `Completion` | the completion protocol of requests as a system of interleaved steps |
| `Kdsa` | block allocation by compare-and-swap on a shared volume |
| `Axis`, `GridCells`, `Grid`, `GridOps`, `GridLeaves`, `GridAccess`, `GridRuns`, `GridWalk`, `GridQuery`, `GridJson` | grid hierarchies: axes, cells, completion, lookup, whole runs, iteration, region queries, JSON |
| `Coverage` | which fragments answer a read request |

Cubes mean sets of coordinate vectors, layouts mean byte addresses, and loops are proved against these meanings.
Concurrent parts are step systems whose theorems hold for every interleaving. Random picks, the order of a hash table
and the order that sorting gives to equal keys are arbitrary, so that the theorems hold for every choice.
Use `dafny verify dfyconfig.toml` to check the whole project.

## Where the code does not do what it seems to promise

- Direct reads assert that a chunk of the fragment's full size starts at the fragment's first element. That holds exactly
  if no dimension longer than one has a negative stride (`CopyLaws.DirectReadOffset`, `CopyLaws.BackwardsFragment`).
- Formatting a KDSA volume whose number of blocks is a multiple of 64 marks the last 64 blocks as used
  (`Kdsa.FormattedCapacity`, `Kdsa.SixtyFourBlocks`).
- The number of blocks of a KDSA volume is computed with one byte of bitmap for 64 blocks instead of eight, and without
  the rounding. The blocks lie inside the volume exactly under the condition of `Kdsa.BlocksInVolume`
  (`Kdsa.BlockOutside`).
- The counts of a write stream are computed with the size of the wrong dimension (src/esdm-stream.c:38). They can divide
  by zero (`WriteStreams.StartStream`, `WriteStreams.StartFails`) and exceed the fragment size limit, exactly under the
  conditions of `StreamOrder.CapIsExact` (`StreamOrder.CapIsExceeded`); the fragments are consecutive row-major blocks all the same.
- The same loop header reads the element before the first one of the sizes, exactly if no dimension is divided
  (`StreamCounts.InitCounts`). The value is not used.
- Dividing a dataspace among backends loses the output array when a share is empty, although the comment above the
  function promises an empty entry (`BackendSplitting.SplitToBackends`, `BackendSplitting.EmptyShare`).
- A grid whose cells were never allocated passes the test for starting an iteration (`GridWalk.IteratorTest`,
  `GridWalk.NewGridIsAdmitted`).
- Clipping a region outside of a grid's domain is said to yield an empty range of cells (src/esdm-grid.c:600). A region
  behind the domain gets a range that starts at -1 (`GridQuery.EmptyRange`, `GridQuery.RangeIsExact`,
  `GridQuery.BehindTheDomain`); reads only ask grids that hold the whole region.
- Rebuilding a grid from JSON does not count incomplete subgrids as empty cells (`GridJson.CountersSurvive`,
  `GridJson.CounterIsLost`).
- The sorted array and the B-tree enumerate entries with equal keys in opposite orders (`BoundLists.OppositeOrders`);
  the neighbour manager does not depend on the order.

## Model

| member | source | states |
|---|---|---|
| `Geometry.Meet` | src/include/esdm-internal.h:496-501 | a coordinate is in the intersection of two ranges exactly if it is in both |
| `Geometry.MakeIntersection` | src/hypercube.c:81-97 | returns nothing exactly if the cubes have no common point; otherwise the non-empty cube of the common points |
| `Geometry.IsEmpty` | src/hypercube.c:99-106 | true exactly if no coordinate vector is in the cube |
| `Geometry.DoesIntersect` | src/hypercube.c:137-147 | true exactly if the cubes have a common point |
| `Geometry.Overlap` | src/hypercube.c:174-185 | the number of common points, also when the loop stops early; zero exactly if there is none |
| `Geometry.SizeOf` | src/hypercube.c:226-235 | the number of points of the cube |
| `Geometry.PointCount` | src/hypercube.c:226-235 | the product of the range lengths is the cardinality of the point set |
| `Geometry.CheckTouches` | src/hypercube.c:149-172 | decides the touch relation of two non-empty cubes |
| `Geometry.TouchesIffAdjacent` | src/hypercube.c:149-172 | cubes touch exactly if they are disjoint and have points that differ by one in exactly one coordinate |
| `Geometry.TouchesSymmetric` | src/hypercube.c:149-172 | touching is symmetric |
| `CubeSets.HypercubeSet.Add` | src/hypercube.c:286-300 | appends the cube, nothing else changes |
| `CubeSets.HypercubeSet.AddRemainder` | src/hypercube.c:318-350 | the slabs that are cut off are non-empty, disjoint, and together are the minuend without the subtrahend |
| `CubeSets.HypercubeSet.SubtractAt` | src/hypercube.c:302-355 | one turn of the backward loop over the list that is edited in place keeps the loop's invariant |
| `CubeSets.HypercubeSet.Subtract` | src/hypercube.c:302-355 | the points of the set become exactly the old points outside the subtrahend; disjoint sets stay disjoint, no empty piece appears, cubes clear of the subtrahend stay |
| `CubeSets.HypercubeSet.IsEmptySet` | src/hypercube.c:267-280 | true exactly if no cube of the set has a point; the points of the set stay the same |
| `CubeSets.IsFullyCovered` | src/hypercube.c:408-426 | true exactly if the cube is non-empty and each of its points is in one of the covering cubes |
| `CubeSets.DoesCoverFully` | src/hypercube.c:503-519 | the same for a list, although only the intersecting cubes are looked at |
| `CubeSets.CutOffTiles` | src/hypercube.c:318-350 | one slab cut divides the points of a cube into the slabs before and behind the subtrahend and the part inside |
| `CubeSets.ReplacedBySubtraction` | src/hypercube.c:302-355 | replacing a cube by the last one and appending its remainder removes exactly the points of the subtrahend from that cube |
| `Subcover.MakeIntersectionMatrix` | src/hypercube.c:373-394 | both matrices hold, for all pairs, the intersection and the number of common points |
| `Subcover.UnionBound` | src/hypercube.c:478-488 | the part of a set that other sets share has at most as many elements as the overlaps sum up to |
| `Subcover.ShortcutIsSound` | src/hypercube.c:478-488 | a cube whose overlaps sum up to less than twice its size has a point that is in no other cube |
| `Subcover.IsRequired` | src/hypercube.c:478-488 | a cube is marked as required exactly if one of its points is in no other cube, on both branches |
| `Subcover.SelectUnchecked` | src/hypercube.c:448-453 | a random pick k becomes the index of the k-th unchecked cube |
| `Subcover.FindMinimalSubset` | src/hypercube.c:433-466 | for every sequence of random picks the selection has the same point union as the list, no selected cube is covered by the others, and required cubes are selected |
| `Subcover.NonredundantSubsets` | src/hypercube.c:468-501 | all subsets that are returned have the full point union and are irredundant |
| `Dataspaces.Dataspace.GetEffectiveStride` | src/esdm-datatypes.c:1554-1563 | the explicit stride, or the one of a contiguous array in C order |
| `Dataspaces.Dataspace.ElementOffset` | src/esdm-datatypes.c:1565-1572 | the byte offset is the linear form of the effective stride at the distance from the dataspace's offset |
| `Dataspaces.Dataspace.CopyDatalayout` | src/esdm-datatypes.c:837-859 | both dataspaces have the same effective stride afterwards; no explicit stride is kept exactly if the implicit one is the same |
| `Dataspaces.Dataspace.SetStride` | src/esdm-datatypes.c:827-835 | sets the stride and changes nothing else |
| `Dataspaces.ContiguousIsRank` | src/esdm-datatypes.c:1554-1572 | the contiguous layout places elements by their row-major number |
| `Dataspaces.ContiguousIsInjective` | src/esdm-datatypes.c:1554-1572 | the contiguous layout gives every element of the extents its own place |
| `Dataspaces.StepMoves` | src/esdm-datatypes.c:1554-1572 | one step in a dimension moves by the given stride of that dimension, or by the product of the sizes behind it if there is none |
| `Dataspaces.StartsAtOffset` | src/esdm-datatypes.c:1565-1572 | the element at the dataspace's offset comes first in the buffer |
| `Dataspaces.SubspaceAddressesParent` | src/esdm-datatypes.c:1565-1572 | a subspace with the parent's layout addresses the parent's memory: the offset of its corner plus its own offset is the parent's offset |
| `Dataspaces.InheritingSubspace` | src/esdm-scheduler.c:797-814 | the dataspace and the buffer position that a write hands to a fragment find every element in the bytes where the parent has it |
| `CopyPlan.FuseDimensions` | src/esdm-scheduler.c:231-250 | the fused dimensions form one contiguous block in source and destination; each is the last one that extends the chunk of those before it, which are whole; fusing ends exactly when none extends the chunk or the last one is not whole |
| `CopyPlan.FusedAreDetermined` | src/esdm-scheduler.c:231-250 | sizes and strides decide which dimensions are fused, and in which order |
| `CopyPlan.OrderDimensions` | src/esdm-scheduler.c:252-274 | the other dimensions are each listed once, those with wider jumps first, and equal ones by number |
| `CopyPlan.SmallerStrideDecides` | src/esdm-scheduler.c:252-274 | a dimension with strides 10 and 2 is iterated outside of one with strides 1 and 100 |
| `CopyPlan.MakeRelative` | src/esdm-scheduler.c:283-293 | the relative strides take both pointers from one index vector of the odometer to the next |
| `CopyPlan.CopyInstructions` | src/esdm-scheduler.c:191-302 | chunk size, offsets, sizes and relative strides are justified by the common region and both layouts; the chunk takes in as many dimensions as it can, and the others are iterated in the order of their jumps |
| `CopyPlan.FusedInside` | src/esdm-scheduler.c:231-250 | every element of the fused dimensions lies in the chunk, negative strides included |
| `CopyPlan.FusedDigits` | src/esdm-scheduler.c:231-250 | every element of the chunk is an element of the fused dimensions |
| `CopyExec.Advance` | src/esdm-scheduler.c:339-346 | one odometer step is the row-major successor, and moves both pointers to the next chunk; it ends behind the last chunk |
| `CopyExec.Execute` | src/esdm-scheduler.c:332-347 | the loop moves every chunk once, and leaves what moving all chunks in row-major order leaves |
| `CopyExec.Job.ByteAfter` | src/esdm-scheduler.c:331-347 | after any number of chunks, a byte comes from a chunk that covers it, or is unchanged if none does |
| `CopyData.ChunkToElement` | src/esdm-scheduler.c:191-302 | every byte of every chunk is a byte of one element of the common region, in source and destination alike |
| `CopyData.ElementToChunk` | src/esdm-scheduler.c:191-302 | every byte of every element of the common region is in a chunk |
| `CopyData.JobCopies` | src/esdm-scheduler.c:307-354 | the moves of the plan copy exactly the common region |
| `CopyData.CopyDataspace` | src/esdm-scheduler.c:307-354 | for all strides and a non-empty overlap: a destination byte that belongs to common elements holds the source's byte of one of them, every other byte is unchanged |
| `CopyLaws.InjectiveCopy` | src/esdm-scheduler.c:307-354 | with a destination layout that separates the common elements, each of them holds the source's element, and nothing else changes |
| `CopyLaws.ElementwiseIffConsistent` | src/esdm-scheduler.c:307-354 | the copy is element-wise exactly if elements that share a place in the destination have the same value in the source |
| `CopyLaws.ZeroStrideFills` | src/esdm-scheduler.c:478-520 | copying from a dataspace with stride zero fills the region with the one element |
| `CopyLaws.SingleChunkIsWhole` | src/esdm-scheduler.c:372-393 | when a single chunk of the fragment's size moves everything, the common region is the whole fragment |
| `CopyLaws.DirectReadOffset` | src/esdm-scheduler.c:372-393 | the offset that the direct read path asserts to be zero is zero exactly if no dimension longer than one runs backwards |
| `CopyLaws.DirectRead` | src/esdm-scheduler.c:372-393 | where that offset is zero and one chunk moves the whole fragment, reading the fragment straight to the chunk's place in the destination does what the copy does |
| `CopyLaws.BackwardsFragment` | src/esdm-scheduler.c:390 | the plan for a fragment of two elements with stride -1, read into a space of the same shape, has a single chunk of the whole fragment, which starts one element before the fragment's first one |
| `CopyLaws.PackFragment` | src/estream.c:111-156 | on all three paths the result holds the fragment's elements in C order |
| `CopyLaws.UnpackFragment` | src/estream.c:98-108 | copies from the contiguous form into the fragment's layout; leaves contiguous fragments alone |
| `CopyLaws.PackUnpackRestores` | src/estream.c:98-156 | unpacking what was packed restores every byte of every element, for every layout |
| `BoundLists.BoundArray.Lookup` | src/hypercube-neighbour-manager.c:65-77 | the binary search finds the first entry that is not smaller than the key |
| `BoundLists.BoundArray.Add` | src/hypercube-neighbour-manager.c:83-99 | inserts one entry and keeps the array sorted |
| `BoundLists.BoundArray.FindFirst` | src/hypercube-neighbour-manager.c:102-109 | finds the first entry with the bound if there is one |
| `BoundLists.BoundArray.NextEntry` | src/hypercube-neighbour-manager.c:112-120 | goes on to the next entry with the same key |
| `BoundLists.BoundArray.Enumerate` | src/hypercube-neighbour-manager.c:102-120 | iterating yields exactly the run of entries with the bound |
| `BoundLists.SameEntriesSameRuns` | src/hypercube-neighbour-manager.c:65-120 | sorted lists with the same entries yield, for every bound, the same multiset |
| `BoundLists.TreeOrder` | src/hypercube-neighbour-manager.c:321-336 | whatever is added to an empty tree list, entries with equal bounds stand in the order in which they were added |
| `BoundLists.ArrayOrder` | src/hypercube-neighbour-manager.c:83-99 | whatever is added to an empty array list, they stand in the opposite order |
| `BoundLists.OppositeOrders` | src/hypercube-neighbour-manager.c:83-336 | after every sequence of additions the two implementations list the entries of each bound in opposite orders |
| `BoundTrees.FindBoundPosition` | src/hypercube-neighbour-manager.c:227-233 | the number of entries of the node that are not greater than the bound |
| `BoundTrees.FindChildPosition` | src/hypercube-neighbour-manager.c:236-247 | the position of the child in its parent |
| `BoundTrees.FixRelations` | src/hypercube-neighbour-manager.c:218-224 | all children of the node point back to it, other nodes stay the same |
| `BoundTrees.LeafInsertion` | src/hypercube-neighbour-manager.c:258-264 | inserting an entry into a leaf keeps the tree consistent |
| `BoundTrees.SplitBelowRoot` | src/hypercube-neighbour-manager.c:281-301 | splitting an overfull node below the root keeps order, fill, equal leaf depth and parent links |
| `BoundTrees.SplitRoot` | src/hypercube-neighbour-manager.c:302-317 | splitting an overfull root into two nodes under a new root does as well |
| `BoundTrees.RootInOrder` | src/hypercube-neighbour-manager.c:377-409 | the in-order walk of a consistent tree is its sorted contents |
| `BoundTreeOps.BoundTree.Insert` | src/hypercube-neighbour-manager.c:249-319 | inserting and splitting upwards as far as needed ends with a consistent tree that has the new entry at its upper-bound position |
| `BoundTreeOps.BoundTree.Add` | src/hypercube-neighbour-manager.c:321-336 | adds one entry behind the entries with equal keys; sorted order, 10 to 20 entries per node below the root, equal leaf depth and parent links hold again |
| `BoundTreeOps.BoundTree.FindFirst` | src/hypercube-neighbour-manager.c:349-375 | finds the first entry with the bound if there is one |
| `BoundTreeOps.BoundTree.NextEntry` | src/hypercube-neighbour-manager.c:377-409 | goes to the in-order successor if that has the same key |
| `BoundTreeOps.BoundTree.Enumerate` | src/hypercube-neighbour-manager.c:349-409 | iterating yields exactly the run of entries with the bound, like the array |
| `Neighbours.Scan` | src/hypercube-neighbour-manager.c:515-523 | exactly the touching cubes with the bound become neighbours, on both sides |
| `Neighbours.PushBounds` | src/hypercube-neighbour-manager.c:513-536 | after a dimension, exactly the contacts that show in the dimensions so far are recorded, and the list has the bounds of the new cube |
| `Neighbours.FoundBelowStep` | src/hypercube.c:149-172 | touching cubes share a bound in exactly one dimension, so no contact is recorded twice |
| `Neighbours.NeighbourManager.PushBack` | src/hypercube-neighbour-manager.c:493-537 | for tree and array alike: cube j is in the list of cube i once if they touch, and not at all otherwise |
| `Kdsa.FormatBitmap` | src/backends-data/kdsa/esdm-kdsa.c:240-252 | bits beyond the last block are marked as used; so are the last 64 blocks if the number of blocks is a multiple of 64 |
| `Kdsa.FormattedCapacity` | src/backends-data/kdsa/esdm-kdsa.c:240-252 | formatting makes all blocks available exactly if their number is no multiple of 64, otherwise 64 blocks are lost |
| `Kdsa.SixtyFourBlocks` | src/backends-data/kdsa/esdm-kdsa.c:240-252 | formatting a volume of 64 blocks leaves no free block |
| `Kdsa.StepKeepsInv` | src/backends-data/kdsa/esdm-kdsa.c:329-356 | every atomic step of every client keeps the allocation invariant |
| `Kdsa.AllocationsAreSafe` | src/backends-data/kdsa/esdm-kdsa.c:329-397 | in every interleaving of all clients with stale copies, allocated blocks exist and are distinct, copies never show more used blocks than the volume, and used blocks are those of the format plus the allocated ones |
| `Kdsa.RangesAreDisjoint` | src/backends-data/kdsa/esdm-kdsa.c:217-221 | the byte ranges of two allocations do not overlap each other, the header or the bitmap |
| `Kdsa.BlocksInVolume` | src/backends-data/kdsa/esdm-kdsa.c:140-153 | all blocks that formatting plans lie inside the volume exactly if the remainder of the division has room for the bitmap and its rounding |
| `Kdsa.BlockOutside` | src/backends-data/kdsa/esdm-kdsa.c:140-153 | the only block of 64 bytes in a volume of 97 bytes reaches to byte 128 |
| `Kdsa.FreeBlocksAreConserved` | src/backends-data/kdsa/esdm-kdsa.c:329-397 | over every run, free blocks decrease by exactly the number of allocations |
| `Kdsa.TryToUseBlock` | src/backends-data/kdsa/esdm-kdsa.c:329-356 | the client takes at most one block, only by compare-and-swap steps, with arbitrary steps of others in between; without interference it succeeds exactly if the stated condition on copy and volume holds, and takes the first free block of the word, or the first one behind the stale one if the copy was out of date |
| `Kdsa.LoadBlockBitmap` | src/backends-data/kdsa/esdm-kdsa.c:155-174 | the copy is re-read word by word, and the free blocks of the copy are counted |
| `Kdsa.FindBlock` | src/backends-data/kdsa/esdm-kdsa.c:370-389 | without interference and with an up-to-date copy, the search finds a block exactly if one is free: the first free one of the first picked word that is not full, or else of the first such word from the start of the sequential search on |
| `Kdsa.FindOffset` | src/backends-data/kdsa/esdm-kdsa.c:358-397 | a non-zero offset is returned exactly if one block was taken, and is the offset of that block; without interference, and with a copy that is up to date or re-read, that is so exactly if a block is free; the estimate is the given or the re-read number of free blocks, less one exactly if a block was taken |
| `Kdsa.NearlyFullMeans` | src/backends-data/kdsa/esdm-kdsa.c:361 | the bitmap is re-read exactly if less than four percent of the blocks seem to be free |
| `Completion.StepKeepsInv` | src/esdm-scheduler.c:100-151 | every step of workers, enqueuer and waiter keeps: the counter is the number of tasks that have not counted down, the mutex has one holder, a sleeping waiter will be woken, the code tells of failures |
| `Completion.WaitReturnsLast` | src/esdm-scheduler.c:899-906 | in every interleaving, when the wait has returned: the tasks are those that were announced, each of them has had one operation and one callback and is done, no worker has a step left that touches the status, and the code is success exactly if all operations of the run succeeded, and that of a failed one otherwise |
| `Completion.ResultIsKept` | src/esdm-scheduler.c:109-138 | in every run, from the step that carries out an operation on, its task keeps the result of that operation |
| `Completion.CodeTellsFailure` | src/esdm-scheduler.c:100-151 | the code is success exactly if every operation of the run had the result success, and otherwise the result of one of them |
| `Completion.LastFailureWins` | src/esdm-scheduler.c:131-138 | at any time, a code other than success is that of the failure recorded last |
| `Completion.CallbackFollows` | src/esdm-scheduler.c:109-127 | no callback runs before its operation |
| `Completion.NoDeadlock` | src/esdm-scheduler.c:827-906 | in every reachable state before the end some step is enabled, without relying on spurious wakeups: no wakeup is lost |
| `Completion.WaitTerminates` | src/esdm-scheduler.c:395-424 | after the last enqueue, the number of steps is bounded, apart from spurious wakeups |
| `Splitting.SplitBalanced` | src/esdm-scheduler.c:523-577 | the boxes partition the dataspace, have nearly equal edges, and have at most edge length to the power of the split dimensions elements; each dimension is cut into the fewest pieces that keep the edge length, at the multiples of size/pieces rounded down, and there is one box for each combination of pieces |
| `Splitting.Scheme.BoxesPartition` | src/esdm-scheduler.c:556-563 | cutting each dimension at k*size/factor yields non-empty, disjoint boxes that cover exactly the dataspace |
| `ContiguousSplitting.SplitContiguous` | src/esdm-scheduler.c:592-662 | the boxes partition the dataspace, have at most the maximum number of bytes, are whole in the dimensions with smaller strides, and of a contiguous dataspace each is one block of memory; the divided dimension is the first that reaches the limit, and is cut into the fewest slices that keep it; for every order that sorting may give to equal strides |
| `ContiguousSplitting.FindSplitDim` | src/esdm-scheduler.c:620-626 | the first dimension in the order of strides with which the limit is reached |
| `ContiguousSplitting.LayeredIsOneBlock` | src/esdm-scheduler.c:591-592 | a box that is whole in the small strides and one slice thick in the large ones is one stretch of memory |
| `BackendSplitting.SplitToBackends` | src/esdm-scheduler.c:682-764 | the dimension with the largest stride is divided, the last one among equals; the shares partition the dataspace, each differs by less than one slice from what its backend's weight is worth, and the function returns them exactly if no share is empty; a dataspace that cannot be divided goes to the fastest backend, the last one among equals |
| `BackendSplitting.EmptyShare` | src/esdm-scheduler.c:727-730 | dividing two slices among three equal backends leaves one share empty and loses the output |
| `StreamCounts.InitCounts` | src/esdm-stream.c:36-56 | the counts are all slices, then the pieces of one dimension, then ones; the number of pieces is the length divided by the computed width, rounded up; where all fits, there is one piece as wide as the first dimension; the computation divides by zero, and the loop reads before the array of sizes, exactly under the stated conditions on sizes and limit |
| `StreamCounts.GetBounds` | src/esdm-stream.c:131-143 | the range of an object is the piece that its digit selects |
| `StreamCounts.UnrankDigit` | src/esdm-stream.c:137-138 | dividing by the cumulative count and taking the remainder gives the row-major digit |
| `StreamOrder.CapIffLargestFits` | src/esdm-stream.c:36-91 | all fragments keep a limit exactly if the last piece of the divided dimension with whole slices does |
| `StreamOrder.CapIsExact` | src/esdm-stream.c:36-91 | the fragments of a stream keep the size limit exactly if a condition on sizes, element size and limit holds that can be checked beforehand |
| `StreamOrder.CapIsExceeded` | src/esdm-stream.c:36-56 | the first fragment of a region of 2 x 9 bytes has 18 bytes although 10 are the limit |
| `StreamOrder.CapIsKept` | src/esdm-stream.c:36-56 | where no dimension is shorter than the last one, that condition holds, and no fragment exceeds the limit |
| `StreamOrder.ElementHome` | src/esdm-stream.c:59-91 | the row-major position of an element is the start of its fragment plus its position inside the fragment |
| `StreamOrder.TotalSize` | src/esdm-stream.c:59-91 | the fragments have together exactly the elements of the region |
| `StreamOrder.StreamedElement` | src/esdm-stream.c:157-201 | in a complete stream, the fragment of coordinates p holds at the place of p the value that was pushed for p |
| `WriteStreams.CompleteStream` | src/esdm-stream.c:157-201 | the fragments of a complete stream partition the region, and every value is where its coordinates say |
| `WriteStreams.WStream.NewFragment` | src/esdm-stream.c:59-91 | the next fragment is the next box in row-major order, and its capacity is its size in bytes |
| `WriteStreams.ChunkElements` | src/esdm-stream.c:159-162 | the number of points of the chunk with the given number |
| `WriteStreams.WStream.NextChunkSize` | src/esdm-stream.c:153-173 | zero exactly if the stream is finished; otherwise the number of elements of the next chunk's box, cut to the room that is left in the fragment; never more than the buffer has room for |
| `WriteStreams.WStream.WriteBuffer` | src/esdm-stream.c:177-196 | each write starts where the previous one ended; the fragment's file grows by exactly the buffered values |
| `WriteStreams.WStream.Flush` | src/esdm-stream.c:177-201 | nothing is lost when fragments change; a full fragment is followed by the next one unless it was the last |
| `WriteStreams.WStream.Pack` | src/include/esdm-stream.h:77-89 | accepts a value exactly as long as fewer than the product of the sizes have been pushed, and keeps all of them in order |
| `WriteStreams.WStream.Commit` | src/include/esdm-stream.h:101-110 | succeeds exactly if all values were pushed; then every fragment is filled exactly |
| `WriteStreams.StartStream` | src/esdm-stream.c:93-129 | starting a stream fails exactly if computing one of the two counts divides by zero; otherwise fragments are divided for the given limit and chunks for the chunk size limit |
| `WriteStreams.StreamKeepsLimit` | src/esdm-stream.c:93-129 | the fragments of a started stream keep the limit exactly under the condition that can be checked beforehand |
| `WriteStreams.StartFails` | src/esdm-stream.c:36-56 | 100 x 2 elements of 8 bytes with fragments of 512 bytes cannot be streamed |
| `Axes.SubdivideFixed` | src/esdm-grid.c:137-158 | refused exactly if the axis is too short or not divisible; otherwise strictly increasing bounds with the same ends, all steps of the size, the last one at most that |
| `Axes.SubdivideFlexible` | src/esdm-grid.c:160-180 | refused exactly if there are more intervals than slices; otherwise strictly increasing bounds with the same ends, at the multiples of length/count rounded down, so that the steps are nearly equal |
| `Axes.Subdivide` | src/esdm-grid.c:182-207 | accepted exactly if the given bounds are strictly increasing with the same ends |
| `Axes.FindInterval` | src/esdm-grid.c:260-288 | the interpolation search ends at the interval that holds the location, or with -1 exactly outside of the axis |
| `Axes.MatchInterval` | src/esdm-grid.c:302-313 | finds the interval that holds the whole range if there is one, and tells exactly then whether the range is shorter |
| `GridCells.LinearIndex` | src/esdm-grid.c:96-103 | the row-major number of the cell, or -1 exactly if the index is out of range |
| `GridCells.IndexCoordinates` | src/esdm-grid.c:105-112 | the inverse: the index whose row-major number is given |
| `GridCells.CellSize` | src/esdm-grid.c:209-223 | the extents of the cell, or an error exactly if the index is out of range |
| `GridCells.CellsPartition` | src/esdm-grid.c:209-223 | the cells partition the domain of the grid |
| `GridCells.FindCell` | src/esdm-grid.c:318-326 | succeeds exactly if a cell encloses the extents, finds it, and tells whether the extents are smaller |
| `Grids.GridStore.RegisterCompletedCell` | src/esdm-grid.c:246-255 | the cascade over parents restores the invariant: counters, links and the list of complete grids; complete grids stay complete |
| `Grids.GridStore.RegisterGridCompletion` | src/esdm-grid.c:517-531 | swaps the grid with the first incomplete one of the list and moves the border behind it; the list then has each top-level grid once, complete ones first |
| `Grids.LowerFillsHole` | src/esdm-grid.c:246-255 | lowering the counter of a grid makes it right again, and only if that completes the grid the counter of the parent is off by one |
| `GridOps.WithSubgridInv` | src/esdm-grid.c:114-135 | a new subgrid in an empty cell keeps the invariant |
| `GridOps.WithFragmentInv` | src/esdm-grid.c:372-383 | a fragment in an empty cell keeps links and list, and makes exactly the counter of its grid off by one |
| `GridOps.AllocatedInv` | src/esdm-grid.c:88-93 | allocating the cells of a grid keeps the invariant: all cells are open |
| `GridOps.RedividedInv` | src/esdm-grid.c:137-207 | dividing an axis of a grid without cells keeps the invariant |
| `GridAccess.CreateGrid` | src/esdm-grid.c:38-70 | a new top-level grid whose domain is the given box, with one cell, is appended to the list as incomplete; older grids are as before; the invariant holds |
| `GridAccess.CreateSubgrid` | src/esdm-grid.c:114-135 | succeeds exactly if the parent is not fixed, the index is in range and the cell is empty; then the parent has cells, this one holds the new grid, whose domain is the cell, and no other grid, cell or list is different; on errors nothing changes; the invariant |
| `GridAccess.SubdivideAxis` | src/esdm-grid.c:137-207 | succeeds exactly if the dimension exists, no cells are allocated and the division fits the axis; then only that axis changes, and is divided as asked for, with the same ends; the error cases and the invariant |
| `GridAccess.FindCellInHierarchy` | src/esdm-grid.c:331-358 | succeeds exactly if some leaf cell below the grid has exactly the given extents, and returns that cell; changes nothing otherwise |
| `GridAccess.WriteGrid` | src/esdm-grid.c:360-386 | fails with an argument error exactly if there is no such leaf; with a failure exactly if the leaf holds no fragment, the dataset has none with these extents, and creating or writing one fails; otherwise succeeds; only that cell changes, and not if it holds a fragment; it then holds a fragment with its extents unless creation failed; complete grids stay complete; the invariant holds |
| `GridAccess.ReadGrid` | src/esdm-grid.c:388-422 | the same for reading, where the cell adopts or gets a fragment of its extents, and a failure is reported exactly if reading fails, or there was no data and creation fails |
| `GridAccess.CompletionIsExact` | src/esdm-grid.c:246-255 | a grid counts as complete exactly if no cell in its whole hierarchy is empty; the dataset lists exactly the complete top-level grids as complete |
| `GridRuns.PerformAll` | src/esdm-grid.c:38-422 | every sequence of creating, dividing, writing and reading on a new dataset, with any failures of the backend, is a run of the steps below |
| `GridRuns.StepKeeps` | src/esdm-grid.c:38-422 | every step keeps the invariant and leaves complete grids exactly as they are |
| `GridRuns.CompleteForever` | src/esdm-grid.c:246-255 | over every run: from the moment at which a grid is complete, it and all grids below it never change, and a top-level grid stays in the list of complete grids |
| `GridRuns.CompletesOnce` | src/esdm-grid.c:246-255 | over every run, no grid completes twice |
| `GridWalk.IteratorCreate` | src/esdm-grid.c:434-452 | admitted exactly if the counter is zero; on an allocated grid the iteration starts before the first leaf |
| `GridWalk.IteratorTest` | src/esdm-grid.c:449 | the counter is zero exactly if the grid is complete or its cells were never allocated |
| `GridWalk.NewGridIsAdmitted` | src/esdm-grid.c:445-452 | every new grid passes the test, although it has no cells and is not complete |
| `GridWalk.Advance` | src/esdm-grid.c:454-477 | moving on by k reaches the k-th of the remaining leaves, depth first, or ends exactly if there are fewer; moving on by zero changes nothing |
| `GridWalk.AdvanceOneByOne` | src/esdm-grid.c:454-496 | k moves by one reach the same leaf, with the same leaves to come, as one move by k |
| `GridWalk.CurrentCell` | src/esdm-grid.c:479-496 | the extents of the leaf that was reached |
| `GridWalk.WalkIsExact` | src/esdm-grid.c:454-496 | the iteration lists every leaf of the hierarchy exactly once, and nothing else |
| `GridWalk.WalkIsOrdered` | src/esdm-grid.c:454-496 | the iteration is depth first: leaves are listed in the lexicographic order of the cells on the way down to them |
| `GridWalk.LeavesPartition` | src/esdm-grid.c:454-496 | the leaves partition the domain of the grid |
| `GridQuery.IndexRange` | src/esdm-grid.c:588-613 | for a region that overlaps the domain, the index box holds exactly the cells that overlap the region; for any other region, the ends that clipping leaves |
| `GridQuery.EmptyRange` | src/esdm-grid.c:599-612 | the index box is empty exactly if the region lies before the domain in some dimension |
| `GridQuery.RangeIsExact` | src/esdm-grid.c:588-613 | the index box holds exactly the overlapped cells, exactly if the region lies before the domain in some dimension or behind it in none |
| `GridQuery.BehindTheDomain` | src/esdm-grid.c:599-612 | for a region right behind a grid of one cell the index box starts at -1 |
| `GridQuery.NextIndex` | src/esdm-grid.c:633-644 | one step goes to the row-major successor inside the index box, and the linear index stays the number of the current cell |
| `GridQuery.RankOrder` | src/esdm-grid.c:96-103 | cell numbers are ordered like index vectors |
| `GridQuery.FragmentsInRegion` | src/esdm-grid.c:615-668 | returns the fragments of the overlapped leaves in depth-first order, or an error exactly if one of these leaves is empty |
| `GridQuery.QueryIsExact` | src/esdm-grid.c:615-668 | these are the fragments of the leaves that overlap the region, in the order of the leaves |
| `Coverage.FoundIffHeld` | src/esdm-grid.c:615-668 | on a complete grid, the query returns a fragment exactly if some leaf of the hierarchy overlaps the region and holds it |
| `Coverage.FoundOnce` | src/esdm-grid.c:615-668 | and returns no fragment twice |
| `GridJson.CreateFromJson` | src/esdm-grid.c:712-803 | accepts or rejects a JSON tree as stated, and builds the hierarchy with counters of vacant cells |
| `GridJson.RoundTrip` | src/esdm-grid.c:670-803 | rebuilding a serialised hierarchy gives the same axes, ids, cells and subgrids; only the counters are made anew |
| `GridJson.AcceptedIsWritten` | src/esdm-grid.c:712-803 | a JSON tree that is accepted is exactly what serialising writes for the hierarchy that was built |
| `GridJson.AcceptedIffWritten` | src/esdm-grid.c:670-803 | a JSON tree is accepted exactly if serialising some hierarchy writes it |
| `GridJson.CountersSurvive` | src/esdm-grid.c:785-794 | the counters come out the same as well exactly if no subgrid in the hierarchy is incomplete |
| `GridJson.CounterIsLost` | src/esdm-grid.c:785-794 | a grid with one cell that holds an incomplete subgrid is rebuilt with a counter of zero instead of one |
| `GridJson.StoreTreeIsHonest` | src/esdm-grid.c:670-710 | the hierarchy that is written for any grid in a reachable state meets what the laws ask for, also where cells are not allocated yet |
| `GridJson.GridComesBack` | src/esdm-grid.c:670-803 | serialising and rebuilding a grid of any reachable state brings back every grid of its hierarchy, at the place to which the same path of cells leads, with its axes, its id, and the contents of its cells |
| `GridJson.NothingElseComesBack` | src/esdm-grid.c:670-803 | every path of cells in the rebuilt hierarchy is one in the original hierarchy |
| `GridJson.LeafComesBack` | src/esdm-grid.c:670-803 | for every leaf of the hierarchy, the rebuilt cell at its place holds the leaf's fragment, or nothing exactly if the leaf holds none |
| `GridJson.JsonOfTwoCells` | src/esdm-grid.c:670-710 | what is written for a grid with two cells, one of which holds a fragment |
| `GridJson.AllocationKeepsTree` | src/esdm-grid.c:674-675 | allocating the cells of a grid does not change what is written |
| `Coverage.AddFragment` | src/fragments.c:37-58 | refused exactly if the table has a fragment with these extents; extents stay distinct |
| `Coverage.MakeSetCoveringRegion` | src/fragments.c:112-146 | the one fragment with exactly these extents, or else each overlapping fragment once, for every order of the hash table |
| `Coverage.SelectionIsEnough` | src/fragments.c:112-146 | inside the region the selected fragments hold the same points as the whole table |
| `Coverage.FragmentsCoverRegion` | src/esdm-datatypes.c:1119-1138 | the uncovered set is exactly the region without the fragments; for a non-empty region the answer is true exactly if nothing is uncovered |
| `Coverage.CoverRegionSize` | src/esdm-grid.c:533-548 | the number of points of the region inside the domain |
| `Coverage.SameSizeMeansInside` | src/esdm-datatypes.c:1144-1146 | that number is the size of the region exactly if the region lies inside the domain |
| `Coverage.CoverRegionOverhead` | src/esdm-grid.c:550-572 | the number of points of the domain that lie in a cell that the region overlaps, but not in the region: those that are fetched in vain |
| `Coverage.InVainCount` | src/esdm-grid.c:550-572 | that number is the size of what is fetched less the size of the region inside the domain |
| `Coverage.FetchedIsTouched` | src/esdm-grid.c:550-572 | what is fetched is the union of the cells that overlap the region |
| `Coverage.GridCoveringRegion` | src/esdm-datatypes.c:1140-1155 | returns a complete grid that holds the region and for which the fewest points are fetched in vain, the last one in the list among equals, or none exactly if there is none |
| `Coverage.FragmentsCoveringRegion` | src/esdm-datatypes.c:1157-1168 | if a complete grid holds the region, exactly the fragments of the overlapped leaves of the best such grid; otherwise the fragment with exactly these extents, or all that overlap; on both branches: the fragments are distinct and overlap the region; fragments and uncovered set together cover the region; the uncovered set lies inside the region and outside of the fragments, and is exactly what no fragment of the dataset holds; fully covered exactly if it has no points |
| `MixedRadix.RankCarried` | src/esdm-scheduler.c:566-573 | one odometer step is the successor in row-major order |
| `MixedRadix.RankUnrank` | src/esdm-grid.c:96-112 | numbers and index vectors correspond one to one |

## Left out

- SCIL compression, datatype converters, and the data and metadata backends apart from KDSA allocation.
- 64-bit overflow: all numbers are unbounded integers; sizes and offsets are assumed to stay in range.
- malloc and free, ownership and reference counts, timers, statistics and logging.
- Addresses of B-tree nodes and of grids: nodes and grids are numbered entries of a table, so aliasing between nodes is that of the numbers.
- Copying between dataspaces without overlap: the planner returns early without setting the number of dimensions (src/esdm-scheduler.c:221), against its own description (src/esdm-scheduler.c:172).
- Neighbours.NeighbourManager.PushBack: asks for non-empty cubes, because the touch relation of an empty cube has no meaning as points.
- Splitting.SplitBalanced: takes the edge length as an integer, because the source computes it with pow() and floor() in floating point.
- BackendSplitting.SplitToBackends: computes shares with real numbers, so single precision rounding is not modelled; backends without a throughput estimate are not either.
- WriteStreams.StartStream: asks for a region without empty dimensions.
- GridAccess.CreateGrid: asks for a domain without empty dimensions, which the source does not check.
- GridAccess.SubdivideAxis: asks for a positive size or count, because the source divides by it.
- GridWalk.Advance: asks for allocated cells, because the source follows a null pointer otherwise; negative increments are not modelled.
- GridQuery.FragmentsInRegion: asks for a region that overlaps the domain, because the source asserts that the first index is a cell.
- GridQuery.RangeIsExact: speaks of regions without empty dimensions; so does GridQuery.EmptyRange.
- Coverage.CoverRegionOverhead: asks for a region that overlaps the domain, because the source asserts that both ends are in an interval.
- Coverage.GridCoveringRegion: asks for a region with points, which the source does not check.
- Coverage.FragmentsCoveringRegion: asks for a region with points, which the source does not check.
- GridRuns.PerformAll: leaves out calls that the source's own assertions exclude, and fixing the structure of a grid by serialising it.
- Completion.WaitTerminates: excludes spurious wakeups, which may occur any number of times.
- Kdsa: deleting fragments, and checking a volume that was formatted before.
- GridJson.CreateFromJson: works on JSON trees of the right kinds; values of the wrong JSON type, JSON text, and the metadata of fragments are not modelled.
- esdmI_grid_mergeWithJson, and completion counts of rebuilt grids in later operations.
- Performance models, backend recommendations, configuration, MPI, the HDF5 plugin and the tools.
