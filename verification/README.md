# libpressio: layout transforms, scheduling, options and transforms, verified

libpressio presents many compressors behind one interface. This project models the parts of it that
rearrange, distribute and re-encode data, and proves what they promise.

Arrays are stored flat with the fastest axis first. `Layout.Flat` is the map from index vectors to flat
positions that everything rests on; `Layout.Unflat` is its inverse.

* **Layout transforms.** Cutting an array into padded blocks and joining them again, as nested loops for
  ranks 1 to 3 (`Rank1`, `Rank2`, `Rank3`, over `NestedLoops`) and as a pair of odometers for any rank
  (`Kernel`, `Odometer`). `ChunkMap` is the specification both are proved against: cell `p` of chunk memory
  mirrors array position `Target(p)`, or is padding, and `Home` inverts that. `Contiguity` shows when no copy
  is needed, `Frame` is the length-prefixed container, `ChunkData` the dispatch on rank and `ChunkingPlugin`
  the compressor end to end. `MultiDimRange` and `Select` are strided views and block selection, `Transpose`
  and `TransposeAxes` axis permutation, `NormalizedDims` rank folding, `BasicIndexer` the Horner indexer.
* **Groups.** `DistributedGroups` partitions ranks, `Groups` gathers and scatters buffers by label,
  `ManyIndependent` runs groups with responses in any order, `ManyDependent` is the pipeline in which each
  response supplies the options of the next requests, as a state machine over whole runs.
* **Options.** `Names` and `NamedOptions` are the search through ancestor names, `PythonOptions` the nested
  dictionaries and their flat keys, `JsonTree` and `OptionsJson` the JSON form. `Wrappers` is the optional value.
* **Numeric transforms.** `MaskInterpolation` and `DeltaEncoding`.

A loop that the source runs in parallel takes its iterations in the order of a `schedule` argument, which may
be any order covering them all; `ChunkMap.AnyInterleaving` goes down to single element copies. Elements are
integers where only copying matters (0 is the padding), reals for JSON numbers and for interpolation, and words
modulo a power of two for delta coding. The four scanning loops of the interpolation are one method with a
direction, and the interior and the tested variant of each nested loop are one loop whose test is skipped in the
interior.

Where the code does less than its documentation or its own guard suggests, the code is modelled, an input on
which it falls short is shown, and the exact condition is proved:

| condition | input that fails |
|---|---|
| `ChunkData.GuardExact` | `ChunkData.RankFourRefused` |
| `ChunkingPlugin.RoundTripExact` | `ChunkingPlugin.LargerChunkReshapes` |
| `Select.AcceptedOvershoots`, `Select.ReadsInsideExact` | `Select.OvershootAccepted` |
| `TransposeAxes.AxisOrderExact` | `TransposeAxes.IdentityOrderMisplaces` |
| `NormalizedDims.NormalizedExact` | `NormalizedDims.PaddedAway` |
| `DistributedGroups.GrantedExact` | `DistributedGroups.SumWraps` |
| `ManyIndependent.CompressorsExact` | `ManyIndependent.TwoForThree` |
| `ManyDependent.RunEnds`, `ManyDependent.RunDelivers` | `ManyDependent.NoWorkerStalls`, `ManyDependent.StrayLabelUntouched` |
| `Names.SearchEndsExact` | `Names.SlashesNeverEnd` |
| `NamedOptions.SetThenGetExact` | `NamedOptions.SlashedNameLost` |
| `NamedOptions.SharedKeyExact`, `NamedOptions.OtherWritesInvisible` | `NamedOptions.ColonInName`, `NamedOptions.SlashBeforeKey` |
| `PythonOptions.FlattenRebuildExact` | `PythonOptions.EmptyDictLost` |
| `JsonTree.FlattenExact` | `JsonTree.RaggedPasses` |
| `OptionsJson.OptionRoundTripExact` | `OptionsJson.NoBufferLost`, `OptionsJson.LostOptions` |

`dafny verify dfyconfig.toml` checks the project.

## Model

| member | source | states |
|---|---|---|
| Layout.UnflatFlat | src/multi_dimensional_iterator.h:269-288 | mixed-radix decoding undoes flattening on the whole index box, so no two elements share a position |
| Layout.FlatUnflat | src/multi_dimensional_iterator.h:269-288 | every position of the buffer is that of an index vector in the box, the decoded one |
| Layout.DotStrides | src/plugins/compressors/chunking_impl.cc:179-213 | the scalar product with the exclusive prefix products is the Horner value, inside the box or out |
| BasicIndexer.Index | src/basic_indexer.h:41-50 | the do-while loop computes the flat position for two axes or more |
| ChunkMap.GridExact | src/plugins/compressors/chunking_impl.cc:39-53 | the numbers of blocks are those of the smallest grid that covers the array: along each axis the blocks reach the end and the last one begins inside; no other grid is |
| ChunkMap.NoBlockIsPadding | src/plugins/compressors/chunking_impl.cc:177-237 | the first element of every block lies in the array |
| ChunkMap.TargetOfHome | src/plugins/compressors/chunking_impl.cc:177-237 | every array element has a cell in chunk memory, inside the allocated size, that mirrors it |
| ChunkMap.HomeOfTarget | src/plugins/compressors/chunking_impl.cc:177-237 | no two cells mirror the same element, and mirrored positions lie in the array |
| ChunkMap.FilledAt | src/plugins/compressors/chunking_impl.cc:177-237 | after chunking, element e of block b is the array element at b*block+e, or 0 outside the array |
| ChunkMap.ChunkRestoreRoundTrip | src/plugins/compressors/chunking_impl.cc:462-487 | restoring what was chunked rebuilds every element for any rank and any block size, whatever both buffers held before |
| ChunkMap.AnyInterleaving | src/plugins/compressors/chunking_impl.cc:195-234 | for both copy policies, any interleaving of the threads' element copies ends in the same buffers |
| Odometer.NextCounts | src/plugins/compressors/chunking_impl.cc:246-258 | one odometer step stays in the box and advances the flat position by one; it carries out of every digit exactly at the last position, and then returns to zero |
| Odometer.IncrCounter | src/plugins/compressors/chunking_impl.cc:246-258 | the in-place counter takes that step and reports one more than the number of carries |
| Kernel.InBounds | src/plugins/compressors/chunking_impl.cc:261-274 | true exactly when every coordinate lies in the array |
| Kernel.PrepareBlock | src/plugins/compressors/chunking_impl.cc:277-302 | the tested inner loop ends and visits exactly the cells of its block, copying or padding each |
| Kernel.PrepareBlockInBounds | src/plugins/compressors/chunking_impl.cc:304-325 | on a block inside the array the untested inner loop has the same effect |
| Kernel.LastElementDecides | src/plugins/compressors/chunking_impl.cc:351-358 | testing a block's last element decides for all of its elements |
| Kernel.Work | src/plugins/compressors/chunking_impl.cc:327-368 | for every rank and positive extents the two odometers end having visited every cell, in both directions of copying |
| NestedLoops.CellOwner | src/plugins/compressors/chunking_impl.cc:195-234 | a cell belongs to one iteration of the parallel loop and to no other |
| NestedLoops.AllSlabs | src/plugins/compressors/chunking_impl.cc:195-234 | iterations in any covering order together visit all of chunk memory and nothing else |
| Rank1.Dispatch1D | src/plugins/compressors/chunking_impl.cc:55-109 | under any schedule the rank 1 loops leave both buffers exactly as the any-rank kernel does |
| Rank2.Dispatch2D | src/plugins/compressors/chunking_impl.cc:111-173 | the same at rank 2 |
| Rank3.Dispatch3D | src/plugins/compressors/chunking_impl.cc:176-242 | the same at rank 3 |
| ChunkData.WorkingMemorySize | src/plugins/compressors/chunking_impl.cc:39-53 | number of elements in all blocks of the smallest grid that covers the array, padding included |
| ChunkData.GuardExact | src/plugins/compressors/chunking_impl.cc:408-412 | the strides are sorted, and the call refused, exactly when no axis before the last is empty: every array with elements is refused |
| ChunkData.RankFourRefused | src/plugins/compressors/chunking_impl.cc:408-412 | an array of two elements along each of four axes is refused |
| ChunkData.ChunkData | src/plugins/compressors/chunking_impl.cc:438-460 | at ranks 1 to 3 returns the chunk memory of the specification, no larger than the smallest grid needs, and leaves the array alone; at rank 4 and up fails |
| ChunkData.RestoreData | src/plugins/compressors/chunking_impl.cc:462-487 | at ranks 1 to 3 the array holds, for every position, the content of its cell; at rank 4 and up nothing changes |
| Contiguity.CheckContiguous | src/plugins/compressors/chunking.cc:312-325 | true exactly when behind the first axis the chunk does not span every chunk extent is 1 |
| Contiguity.CheckValidDims | src/plugins/compressors/chunking.cc:299-311 | true exactly when ranks agree and every extent is divisible |
| Contiguity.FastPathExact | src/plugins/compressors/chunking.cc:124-132 | the two tests hold exactly when the general kernel would be the identity on the buffer, for any rank |
| Contiguity.FastPathChunks | src/plugins/compressors/chunking.cc:124-144 | the slices taken in place are the chunks the copying path would build |
| Contiguity.FastPathJoin | src/plugins/compressors/chunking.cc:251-258 | joining chunks in place is what restoring from them would do |
| Frame.FrameSize | src/plugins/compressors/chunking.cc:164-179 | the frame takes eight bytes per payload, eight more, and the payloads |
| Frame.FrameLayout | src/plugins/compressors/chunking.cc:181-199 | the first word is the count, word i + 1 the size of payload i, and payload i follows the words and the payloads before it |
| Frame.ByteAt | src/plugins/compressors/chunking.cc:183-194 | byte i of a word is its digit of weight 256 to the i |
| Frame.WriteFrame | src/plugins/compressors/chunking.cc:181-199 | writes count, sizes and payloads at the front of the buffer and touches nothing behind them |
| Frame.ReadFrame | src/plugins/compressors/chunking.cc:207-232 | from any buffer that begins with a frame recovers exactly the payloads |
| ChunkingPlugin.ComputeNumChunks | src/plugins/compressors/chunking.cc:327-342 | the number of blocks of the smallest grid along the axes of the array, further chunk extents ignored, or 1 without a chunk size |
| ChunkingPlugin.ChunkAt | src/plugins/compressors/chunking.cc:124-150 | of several chunks, the one for block b has the chunk's shape, holds at e the array element at b*chunk+e or 0 outside the array, and is never all padding |
| ChunkingPlugin.SingleChunk | src/plugins/compressors/chunking.cc:119-123 | a single chunk is the array as it is |
| ChunkingPlugin.RefusedExact | src/plugins/compressors/chunking.cc:118-150 | compression is refused exactly at rank 4 and up, when there are several blocks and the kernel would have to move elements |
| ChunkingPlugin.DecodedAt | src/plugins/compressors/chunking.cc:246-270 | the element at b*chunk+e is element e of what the child makes of the payload for block b |
| ChunkingPlugin.Compress | src/plugins/compressors/chunking.cc:104-205 | fails exactly when the copying path is needed at rank 4 and up; otherwise the output is the frame of the child's outputs for the chunks, on all three paths |
| ChunkingPlugin.Decompress | src/plugins/compressors/chunking.cc:207-274 | fails in the same cases, and otherwise leaves the decoded array in the output, on all three paths |
| ChunkingPlugin.RoundTripExact | src/plugins/compressors/chunking.cc:104-274 | with a lossless child decompression inverts compression exactly when there is more than one chunk, or no chunk size, or a chunk of the array's shape; a single larger chunk comes back with the wrong shape |
| ChunkingPlugin.LargerChunkReshapes | src/plugins/compressors/chunking.cc:104-274 | two elements in one chunk of three come back with shape 3 |
| ChunkingPlugin.CompressThenDecompress | src/plugins/compressors/chunking.cc:104-274 | the two methods composed give the input back under that condition |
| MultiDimRange.MultiDimRange.constructor | src/multi_dimensional_iterator.h:145-197 | the strides and the start offset of a strided view |
| MultiDimRange.MultiDimRange.At | src/multi_dimensional_iterator.h:199-230 | a view nested at an iterator starts at that iterator's offset |
| MultiDimRange.MultiDimRange.CurrentToOffset | src/multi_dimensional_iterator.h:269-288 | the offset of the decoded position; `OffsetOf` |
| MultiDimRange.Digits | src/multi_dimensional_iterator.h:269-280 | splitting digits off from the slowest axis down yields the mixed-radix digits, all in range |
| Select.ValidateSelectArgs | src/pressio_data.cc:58-98 | accepts exactly the requests the source accepts |
| Select.AcceptedExact | src/pressio_data.cc:58-98 | accepted are the requests whose every element lies in an array one longer along each axis, with one argument per axis and no zero count, block or stride |
| Select.AcceptedOvershoots | src/pressio_data.cc:81-95 | an accepted request reads an element outside the array exactly when it overshoots some axis by one |
| Select.OvershootAccepted | src/pressio_data.cc:81-95 | one block of three elements of a row of two is accepted, and its last element lies behind the row |
| Select.ReadsInsideExact | src/pressio_data.cc:81-95 | all elements read lie in the array exactly under the tight bound |
| Select.NestedOffset | src/pressio_data.cc:123-152 | start, block stride and nested unit stride add up to the flat position of start + b*stride + e |
| Select.SelectedAt | src/pressio_data.cc:108-156 | the output at b*block+e is the source at start + b*stride + e |
| Select.EachOutputOnce | src/pressio_data.cc:138-155 | every output position belongs to one element of one block, and to no other |
| Select.CopyMultiDims | src/pressio_data.cc:108-156 | the block copy through nested views produces the selection |
| Select.Select | src/pressio_data.cc:283-358 | the request is treated as the one with start 0 and stride, count and block 1 written out where unset: rejected ones give an array without data, the others the selection and its shape |
| Select.UnsetStart | src/pressio_data.cc:283-294 | without a start the output at b*block+e is the source at b*stride+e |
| Select.NothingSet | src/pressio_data.cc:283-294 | with nothing set an array that has elements yields exactly its first one |
| Transpose.TransposeImpl | src/pressio_data.cc:361-398 | the loop ends and every output position holds the element at the reversed index over the reversed shape |
| Transpose.ReversalAt | src/pressio_data.cc:401-417 | by default index j goes to reversed j |
| Transpose.SourceInverse | src/pressio_data.cc:368-391 | the positions read are a permutation, undone by the run over the reversed shape |
| Transpose.TransposeUndone | src/pressio_data.cc:401-417 | transposing by default twice restores the data, for every shape |
| TransposeAxes.AxisSourceAt | include/libpressio_ext/cpp/data.h:566-572 | the documented permutation: input index j is found at the permuted index |
| TransposeAxes.AxisOrderExact | src/pressio_data.cc:366-374 | an explicit axis order is honoured exactly when, axes of extent 1 aside, it is the full reversal |
| TransposeAxes.IdentityOrderMisplaces | src/pressio_data.cc:366-374 | on shape 2 by 3 the identity order is not honoured |
| TransposeAxes.OrderKeepsSize | src/pressio_data.cc:403-414 | permuting the extents keeps the number of elements |
| TransposeAxes.TransposeData | src/pressio_data.cc:401-417 | result shape and contents of the call |
| NormalizedDims.Fold | src/pressio_data.cc:571-582 | the in-place shift puts the product of the leading axes first and keeps the others in order |
| NormalizedDims.LongAxesAt | src/pressio_data.cc:565-567 | each axis longer than 1 is kept, behind the long ones before it, and no other is |
| NormalizedDims.NormalizeDims | src/pressio_data.cc:565-584 | drops axes of extent 1, then pads with the filler behind, or folds: the product of the leading axes first, the others in order |
| NormalizedDims.NormalizedExact | src/pressio_data.cc:565-584 | the rank is the target, and the size is kept exactly when the target is at most the number of long axes or the filler is 1 |
| NormalizedDims.PaddedAway | src/pressio_data.cc:565-584 | two elements padded to two axes with 0 become none |
| DistributedGroups.BuildGroups | src/pressio_distributed_manager.cc:7-61 | rejects exactly what the source rejects, 32-bit sum included, and otherwise labels every rank |
| DistributedGroups.BothLabels | src/pressio_distributed_manager.cc:46-52 | both counts given: the first ranks are masters, the next ones open the worker groups in order, and each further rank joins the group of the rank one round before it |
| DistributedGroups.WorkerLabels | src/pressio_distributed_manager.cc:38-45 | only worker groups given: rank 0 is a master, the others are dealt out for as many full rounds as there are, and the rest are masters |
| DistributedGroups.LoneLabels | src/pressio_distributed_manager.cc:21-37 | no worker groups given: the ranks behind the masters are numbered in order |
| DistributedGroups.RootExchanged | src/pressio_distributed_manager.cc:56-59 | the root takes the label of rank 0 and rank 0 that of the root; the others keep theirs |
| DistributedGroups.RootIsMaster | src/pressio_distributed_manager.cc:56-59 | the root is a master in every accepted partition |
| DistributedGroups.SwapKeepsCounts | src/pressio_distributed_manager.cc:56-59 | moving the root keeps the size of every group |
| DistributedGroups.BothCounts | src/pressio_distributed_manager.cc:46-52 | both counts given: exactly that many masters, no empty group, sizes differing by at most one |
| DistributedGroups.WorkersOnly | src/pressio_distributed_manager.cc:38-45 | only worker groups given: all of size (size-1)/n, and 1+(size-1)%n masters |
| DistributedGroups.LoneWorkers | src/pressio_distributed_manager.cc:26-37 | no worker groups given: every rank that is not a master is alone in its group |
| DistributedGroups.GrantedExact | src/pressio_distributed_manager.cc:11-12 | an accepted request is granted in full exactly when its true sum fits the ranks |
| DistributedGroups.SumWraps | src/pressio_distributed_manager.cc:11-12 | a request of almost 2^32 groups that five ranks are said to satisfy |
| Groups.NormalizeAndValidate | include/libpressio_ext/cpp/subgroup_manager.h:62-78 | configured labels are used unchanged, unset ones put every buffer in a group of its own; accepts exactly when every buffer is labelled and the same non-empty label set is used on both sides, with the error code otherwise |
| Groups.MakeDataGroup | include/libpressio_ext/cpp/subgroup_manager.h:117-126 | gathers the members of a group in order |
| Groups.GatherAt | include/libpressio_ext/cpp/subgroup_manager.h:117-126 | a gathered group holds each of its slots at that slot's rank, and has no other entries |
| Groups.CountIsSize | src/plugins/compressors/many_independent.cc:210-217 | the rank of a slot is the number of slots of its group before it |
| Groups.RanksDiffer | src/plugins/compressors/many_independent.cc:210-217 | slots of one group have different ranks |
| Groups.ScatterInto | src/plugins/compressors/many_independent.cc:210-217 | the handler's loop with its running index writes each slot of the group its result and no other slot |
| Groups.ScatterGather | src/plugins/compressors/many_independent.cc:166-217 | scattering undoes gathering |
| ManyIndependent.OrderIrrelevant | src/plugins/compressors/many_independent.cc:202-218 | the same responses in any two orders, over any earlier contents, give the same outputs |
| ManyIndependent.RunGroups | src/plugins/compressors/many_independent_threaded.cc:224-271 | whatever order the groups finish in, each output holds its own group's result at its rank |
| ManyIndependent.CommonMany | src/plugins/compressors/many_independent.cc:150-225 | the same over the configured labels, or one buffer per request where none are configured; rejected groupings leave the outputs alone |
| ManyIndependent.CompressorsExact | src/plugins/compressors/many_independent_threaded.cc:216-233 | after the size test every iteration finds a compressor exactly when there is one, or one per group |
| ManyIndependent.TwoForThree | src/plugins/compressors/many_independent_threaded.cc:216-233 | two compressors pass for three groups, and the third iteration finds none |
| ManyDependent.TranslateOptions | src/plugins/compressors/many_dependent.cc:189-200 | each metric up to the first missing one arrives under its target name, the last one where targets repeat, and nothing else does; reports whether one is missing |
| ManyDependent.TranslatedOnce | src/plugins/compressors/many_dependent.cc:189-200 | that determines the options |
| ManyDependent.OptionsSurviveResponse | src/plugins/compressors/many_dependent.cc:154-200 | the worker's copying followed by the master's renaming equals renaming the metrics themselves |
| ManyDependent.Master.OnResponse | src/plugins/compressors/many_dependent.cc:169-211 | the callback's effect on counters, queue and outputs is the transition `Respond` |
| ManyDependent.RespondInv | src/plugins/compressors/many_dependent.cc:169-211 | every response keeps: counters agree with queue and history, tasks pushed in order once each, the first without options and the others with the translated metrics of the response just handled, at most max(1, workers) outstanding, every worker busy while tasks remain, outputs delivered |
| ManyDependent.RunSafe | src/plugins/compressors/many_dependent.cc:100-213 | so every state of every run does, and the i-th state has handled i responses |
| ManyDependent.RunEnds | src/plugins/compressors/many_dependent.cc:203-209 | a run handles at most one response per output, never stalls with a worker, and completes exactly when there is a worker or a single output |
| ManyDependent.RunDelivers | src/plugins/compressors/many_dependent.cc:180-187 | at the end an output holds its group's result exactly if its label is a task number; the others are untouched |
| ManyDependent.StrayLabelUntouched | src/plugins/compressors/many_dependent.cc:180-187 | with a single output labelled 7 the run completes and never writes it |
| ManyDependent.NoWorkerStalls | src/plugins/compressors/many_dependent.cc:203-209 | with two outputs and no worker the run ends after one response |
| Names.Search | src/pressio_names.cc:7-40 | the loop computes the search order, wrap-around of the unsigned length included |
| Names.NormalizedParts | src/pressio_names.cc:9-19 | normalising takes off one leading and one trailing slash, of a lone slash the leading one, and nothing else |
| Names.SearchOrderExact | src/pressio_names.cc:7-40 | the order lists exactly the ancestors, longest first, then the empty name; one entry per slash and two more |
| Names.SearchEndsExact | src/pressio_names.cc:29-36 | the loop ends exactly when the normal form does not begin with a slash |
| Names.SlashesNeverEnd | src/pressio_names.cc:29-36 | for three slashes the loop does not end |
| NamedOptions.PressioOptions.Set | include/libpressio_ext/cpp/options.h:339-352 | stores under the formatted key and changes nothing else |
| NamedOptions.PressioOptions.NamedGet | include/libpressio_ext/cpp/options.h:498-538 | the lookup over the search order, with its three outcomes |
| NamedOptions.FormatInjective | src/pressio_names.cc:42-45 | for one and the same option key, different names never share a stored key |
| NamedOptions.SharedKeyExact | src/pressio_names.cc:42-45 | any two options share a stored key exactly when they are the same or the option key of one spells out the rest of the other's name and its key |
| NamedOptions.PlainInjective | src/pressio_names.cc:42-45 | with names free of colons and option keys that do not start with a slash, a stored key determines name and option key |
| NamedOptions.NearestDecides | include/libpressio_ext/cpp/options.h:498-538 | the nearest ancestor holding the key decides: without a value the key does not exist, with one of another type it exists, else the value is returned |
| NamedOptions.NoHolder | include/libpressio_ext/cpp/options.h:529-538 | without a holder the key does not exist |
| NamedOptions.OtherWritesInvisible | include/libpressio_ext/cpp/options.h:339-352 | a write, of any option key under any name, can never change an answer exactly when its stored key is none of those the lookup tries |
| NamedOptions.PlainWritesExact | include/libpressio_ext/cpp/options.h:529-538 | with names free of colons and option keys that do not start with a slash, a write can change an answer exactly when it writes the option key looked up under a name that is searched |
| NamedOptions.ColonInName | src/pressio_names.cc:42-45 | a write of k under "a:b", which is not searched from "a", changes what "a" finds for the key "b:k" |
| NamedOptions.SlashBeforeKey | src/pressio_names.cc:42-45 | a write of k under "a", which is not searched from "b", changes what "b" finds for the key "/a:k" |
| NamedOptions.SetThenGetExact | include/libpressio_ext/cpp/options.h:339-538 | set then get returns the value over every earlier content exactly when the name has no leading or trailing slash |
| NamedOptions.SlashedNameLost | include/libpressio_ext/cpp/options.h:339-538 | what is set under "/a" is not found under "/a" |
| PythonOptions.KeyDecodes | tools/swig/libpressio.py:156-161 | the flat key of a leaf names its path and its key, so distinct leaves get distinct keys |
| PythonOptions.KeyParts | tools/swig/libpressio.py:317-328 | any key is read as written: an outermost name, or behind a slash a path up to the first colon and a name |
| PythonOptions.Flatten | tools/swig/libpressio.py:221-262 | for every nested dictionary the worklist ends, every value has its flat key and every entry is a value of the tree; of a convertible tree the map holds exactly the leaves |
| PythonOptions.SetOption | tools/swig/libpressio.py:313-331 | the descent that creates missing dictionaries stores the value at the place the key names, leaves nothing below it, and changes no other place of the tree; where a value stands in the way nothing changes |
| PythonOptions.InsertStores | tools/swig/libpressio.py:324-331 | storing changes the tree at one place only: dictionaries lead to the value and everything else is as before |
| PythonOptions.BlockedExact | tools/swig/libpressio.py:324-331 | a key is skipped exactly when something other than a dictionary stands at its path or on the way to it |
| PythonOptions.InsertBelow | tools/swig/libpressio.py:324-331 | storing a leaf of the tree never meets a value in the way |
| PythonOptions.AllLeaves | tools/swig/libpressio.py:309-341 | a partial tree with all the leaves is the whole tree |
| PythonOptions.RebuiltConvertible | tools/swig/libpressio.py:309-346 | whatever the entries, rebuilding yields no empty inner dictionary, no separator in a dictionary's name, no None, and no outermost key behind a slash |
| PythonOptions.FlattenRebuildExact | tools/swig/libpressio.py:221-346 | rebuilding from any flat form of a tree, entries in any order, gives the tree exactly when it is convertible |
| PythonOptions.FlattenThenRebuild | tools/swig/libpressio.py:221-346 | the two conversions in sequence return their input exactly when it is convertible |
| PythonOptions.EmptyDictLost | tools/swig/libpressio.py:221-346 | an empty dictionary inside another one is lost |
| JsonTree.Accumulators.Visit | src/pressio_options_json.cc:119-145 | the recursion over shared accumulators, with its failures |
| JsonTree.FlattenRectangular | src/pressio_options_json.cc:119-170 | a rectangular array yields its extents from outer to inner, and each leaf at its row-major position |
| JsonTree.FlattenExact | src/pressio_options_json.cc:119-145 | exactly the nested arrays of numbers are accepted; their numbers are kept in order, each dimension is the length of the last array at its depth, and the dimensions describe the array exactly when no array in it is empty and neighbours have one shape |
| JsonTree.ThreeRows | src/pressio_options_json.cc:119-145 | three rows of any lengths are taken for a matrix as wide as the last |
| JsonTree.RaggedPasses | src/pressio_options_json.cc:119-145 | rows of 3, 1 and 2 numbers pass as 3 by 2 |
| OptionsJson.OptionRoundTripExact | src/pressio_options_json.cc:9-297 | an option comes back from JSON unchanged exactly for the portable ones: no pointer value, no empty string list, no dtype or thread-safety type without a value, no data with elements but no buffer, elements exact as doubles |
| OptionsJson.WrittenForm | src/pressio_options_json.cc:15-82 | booleans, doubles, strings and string lists are written bare, the others as an object of exactly type number and value, null without one |
| OptionsJson.WrittenData | src/pressio_options_json.cc:9-13 | data is written as its shape, its type and its elements cast to double |
| OptionsJson.WrappedScalars | src/pressio_options_json.cc:183-252 | a boolean, double or string reads the same bare or wrapped with its type |
| OptionsJson.WrappedRest | src/pressio_options_json.cc:183-252 | a wrapped string list is a single string, the unset type has no value, a pointer or an unknown type fails |
| OptionsJson.WrappedInteger | src/pressio_options_json.cc:196-222 | a wrapped integer loses its fraction, toward zero |
| OptionsJson.BareForms | src/pressio_options_json.cc:148-190 | null and an empty array are read as an option without value or type; an array beginning with a boolean, an object or null fails, and so does an object without a type |
| OptionsJson.DataRead | src/pressio_options_json.cc:94-103 | reading data takes as many numbers as the shape asks for and ignores the rest; with fewer the model fails |
| OptionsJson.NoElementsReturn | src/pressio_options_json.cc:9-103 | data without elements comes back, with a buffer or without |
| OptionsJson.MapForm | src/pressio_options_json.cc:83-92 | a map with nothing to write becomes null, any other an object of exactly what is not a pointer |
| OptionsJson.PortableReturns | src/pressio_options_json.cc:9-297 | what comes back of a portable option is the option itself, and of data the same shape, type and elements |
| OptionsJson.NoBufferLost | src/pressio_options_json.cc:9-13 | data of shape 50 by 50 created without a buffer is representable and cannot be written |
| OptionsJson.LostOptions | src/pressio_options_json.cc:15-297 | a pointer, an empty string list, a dtype without a value and an inexact element do not come back |
| OptionsJson.ArrayBecomesData | src/pressio_options_json.cc:148-170 | a rectangular nested array is read as data of its shape with its numbers in row-major order |
| OptionsJson.MapRoundTrip | src/pressio_options_json.cc:83-306 | a whole map comes back without its pointer entries and otherwise unchanged, exactly when its other entries are portable |
| MaskInterpolation.Scan | src/plugins/compressors/mask_interpolation.cc:142-182 | each scanning loop finds the nearest visible cell in its direction |
| MaskInterpolation.NearestIs | src/plugins/compressors/mask_interpolation.cc:142-182 | nothing nearer is visible; distance 0 means nothing is |
| MaskInterpolation.VisibleExact | src/plugins/compressors/mask_interpolation.cc:134-141 | the cell in column i of row j is visible where the mask is 0, rows being nx long |
| MaskInterpolation.LeftNeighbour | src/plugins/compressors/mask_interpolation.cc:142-151 | in coordinates: the nearest visible cell of the row at a lower position, or none |
| MaskInterpolation.RightNeighbour | src/plugins/compressors/mask_interpolation.cc:152-161 | the same at a higher position |
| MaskInterpolation.TopNeighbour | src/plugins/compressors/mask_interpolation.cc:163-172 | the same in the column |
| MaskInterpolation.BottomNeighbour | src/plugins/compressors/mask_interpolation.cc:173-182 | the same in the column, higher |
| MaskInterpolation.InterpApplyMask | src/plugins/compressors/mask_interpolation.cc:134-271 | rows in any order, every cell gets its own value |
| MaskInterpolation.BlendHull | src/plugins/compressors/mask_interpolation.cc:184-269 | all sixteen cases stay between the least and the greatest existing neighbour |
| MaskInterpolation.CornerIsLerp | src/plugins/compressors/mask_interpolation.cc:207-245 | the corner averages are linear interpolations too |
| MaskInterpolation.OutputInHull | src/plugins/compressors/mask_interpolation.cc:134-271 | visible cells are kept, a masked cell with a visible one in its row or column stays in the hull of its nearest ones, any other gets the fill |
| MaskInterpolation.OutputWeights | src/plugins/compressors/mask_interpolation.cc:184-269 | by which neighbours exist: the mean of all four, of the pair across, or of the two around the corner, each weighted by the distance of the one opposite; else the lone neighbour; else the fill |
| MaskInterpolation.CornerOfTwo | src/plugins/compressors/mask_interpolation.cc:207-212 | between 0 on the left and 10 above, both adjacent, lies 5 |
| MaskInterpolation.LinearReproduced | src/plugins/compressors/mask_interpolation.cc:184-269 | where the visible cells follow a linear field, a masked cell between two visible ones in its row or column gets the value of that field |
| DeltaEncoding.Encode | src/plugins/compressors/delta_encoding.cc:9-23 | the loop computes the wrapped differences |
| DeltaEncoding.Decode | src/plugins/compressors/delta_encoding.cc:25-40 | the loop, reading back what it wrote, computes the running sums |
| DeltaEncoding.WrapIsModulo | src/plugins/compressors/delta_encoding.cc:18-36 | the wrapped sum and difference of words are those modulo 2 to the width |
| DeltaEncoding.DeltaBijection | src/plugins/compressors/delta_encoding.cc:9-40 | decoding undoes encoding and encoding undoes decoding, on all word sequences |

## Left out

- ChunkData.ChunkData: arrays of rank 4 and up with an empty axis, which can pass the guard and reach `work` with extents it cannot handle; `work` itself is modelled for positive extents at any rank.
- Select.Select: asks for the tight bound of requests that pass validation; the others read outside an axis (`ReadsInsideExact`, `AcceptedOvershoots`).
- ChunkingPlugin.Compress: a child that fails; the return code is passed on unchanged. A preset output buffer is covered by `Frame.WriteFrame`, which only needs room for the frame.
- ChunkingPlugin.Decompress: a buffer that does not begin with a frame is read out of bounds by the source; the model asks for one.
- Frame.ReadFrame: words are little-endian here; the source uses the machine's order on both sides.
- ManyDependent.Master.OnResponse: a response with fewer results than its group has outputs, which a worker sends when setting options fails and which the source then reads out of bounds; also return codes, since the work queue's own result overwrites them.
- ManyIndependent.CommonMany: status codes, broadcasting of outputs, and the cancelling of remaining groups after a failure.
- ManyDependent.TranslateOptions: a list of source names shorter than that of target names, which setting the options (src/plugins/compressors/many_dependent.cc:74-75) does not reject and which the source then reads out of bounds.
- NamedOptions.PressioOptions.NamedGet: conversions between option types; each is a separate easy case.
- PythonOptions.Flatten: templates and the conversion of values; nested dictionaries are values here, so sharing of one dictionary object under two names is not captured, and the order in which a dictionary lists its items is arbitrary.
- PythonOptions.SetOption: values are opaque, and one that stands in the way always raises the error that is swallowed; a numeric array there raises another one, which the source lets through.
- OptionsJson.OptionRoundTripExact: text parsing and printing, JSON integers outside the range of their width, and rounding of elements by the final cast; the cast to double is a parameter.
- Data whose shape asks for more numbers than the JSON array holds: the source reads past the end, the model fails.
- MaskInterpolation.InterpApplyMask: rounding, and the 1-D branch, whose mask test is the reverse and which returns from inside its loop.
- Narrow index types of the any-rank dispatch, whose width follows the largest stride rather than the largest offset.
- The byte type in `select`, which copies elements of the size of an address, and `operator[]` of the iterator, which ignores its argument.
- Binning, hashing, registries, process launching, scripts, individual compressor wrappers, memory domains and allocation.
