# Hyperion: index trees, measure references, tables and partitions

A Dafny model of the data-structure core of Hyperion, with proofs.

**Index trees.** An index tree is a list of blocks `(start, count, subtree)`; it denotes a set of integer tuples, the
tree without blocks the single empty tuple. `IndexTree.dfy`, `Compact.dfy` and `BlockLists.dfy` define trees, their
points, and the canonical form that every constructor establishes. `Merge.dfy`, `Points.dfy`, `Replicate.dfy`,
`Recognise.dfy`, `Recognised.dfy`, `Grow.dfy`, `Envelope.dfy` and `Serialise.dfy` model the operations: each
imperative one is a method proved against a function on trees, and lemmas say what that function means for the points
(`MergeOrder.dfy` for the order test of the merge) and the bytes (`SerialisedLayout.dfy`).
`Rects.dfy` decomposes a tree into rectangles.

**Measure references.** `Measures.dfy` defines the recursive references; `RankExtension.dfy`, `MeasureTrees.dfy` and
`CreateTrees.dfy` build the sparse array domains; `MeasureEncoding.dfy`, `MeasureWriter.dfy` and `MeasureReader.dfy`
model the two stack machines; `MeasRef.dfy` joins them in the round trip. `MeasureAddresses.dfy` gives the domains in
numbers, `MeasureContents.dfy` what is written where.

**Reindexing.** `ColumnIndex.dfy`, `RowMapping.dfy`, `Reindex.dfy` and `ReindexCopy.dfy` follow a column from the
grouping of its rows by value to the copied cells; `Truncate.dfy` cuts index spaces to their leading axes,
and `Conformance.dfy` compares those of a column with a table's index space.

**Tables.** `TableRequirements.dfy` emits the flat list of region requirements, of which `RequirementContents.dfy` says
what each entry is; `TableParsing.dfy` re-reads it (`ParserSteps.dfy` has one step in numbers),
`TableLockstep.dfy` shows exactly when the two agree (`Slices.dfy` has the facts about pieces of lists);
`TableSerialisation.dfy` and `TableBuffer.dfy` are the table's own serialisation.

**Partitions.** `Partition.dfy` has the colour arithmetic and the verdicts of partitions on axes;
`PartitionVerdicts.dfy` has the verdicts in numbers, and when those of incompleteness are right.

Legion index spaces are sequences of points or of rectangles, regions are maps from points to values, coordinates are
mathematical integers (except in the byte encoding of trees, where they are 64 bits wide).

## Findings

Places where the code does less than its use suggests; the model keeps the code as it is.

- The pattern constructor throws when the remainder ends inside a subtree after some but not all copies of it, because
  both pieces are put at the same start (`Replication.ReplicateSound` has the exact condition,
  `Replication.CutBehindCopy` an input).
- The iterator of the empty tree yields nothing, although that tree denotes one point.
- The verdicts of a partition look a colour count up under the axis of a part instead of its place.
  `Partitions.DisjointSound`, `Partitions.AliasedSound` and `Partitions.CompleteSound` say exactly when they are right all
  the same, `Partitions.SwappedVerdict` is an input where they are not.
- Blocks that overlap are judged incomplete even if they cover the bounds (`PartitionVerdicts.IncompleteSound`, exact;
  `PartitionVerdicts.OverlapIncomplete`, an input).
- If a part is on an axis at or above the number of parts, that count is read outside the rectangle of the counts
  (hyperion/ColumnSpacePartition.cc:148-150). `Table::partition_rows` makes such a part when only a later axis has a block
  size (`Partitions.SecondAxisAlone`); `Partitions.CreatePartitionOnAxes` and `Partitions.OutsideUnread` have the exact
  condition.
- The guard against repeated axes never fires, since `has_unique_values` compares lengths after `std::unique` without
  erasing. Block sizes that repeat an axis are judged disjoint although two colours can have the same block
  (`Partitions.AxisTwice`; `Partitions.RepeatedBlocks` says exactly when the verdict is wrong of the unclipped rectangles,
  and of the clipped ones if the bounds start at 0). Other parts that repeat an axis can be judged complete although points
  are missed (`Partitions.TwiceIncomplete`; `Partitions.CompleteSound` is exact).
- Block-size partitions place their blocks from 0 on whatever the lower bound is (`Partitions.BlocksPartition`, exact;
  `Partitions.LastPointMissed`, an input).
- `num_repeats` accepts trees that are no repetition of the pattern: after any gap (`RecognitionSound.GapAccepted`), with
  runs shorter than the pattern's (`RecognitionSound.ShortRunAccepted`), and with a last block that repeats a cut subtree,
  which it counts once (`RecognitionSound.RepeatedCutAccepted`). `RecognitionSound.TreeSize` and
  `RecognitionSound.AcceptedPoints` say exactly when the answer is the size and when the points are those of the repeated
  pattern.
- `do_domains_conform` accepts subjects that leave out the first object point, or that stop early with a tuple of a single
  point (`Conformance.AcceptedIs`, exact; `Conformance.EarlyAndLate`, inputs).
- With rows kept and a further row axis above them that has more than one value, tasks of other upper indices overwrite a
  row's rectangle, and the order of the tasks decides (`RowMapping.MappingRight`, exact; a column that was reindexed with
  its rows kept has such axes).
- Rows are numbered from 0 whatever their lower bound is, so kept cells can land outside the new bounds
  (`ReindexCopy.TargetInBounds`, exact; `ReindexCopy.RowFive`, an input).
- Two names for one field with different settings can bring the requirement list and its parser out of step
  (`TableLockstep.Lockstep` has the exact condition, `TableLockstep.OutOfStep` an input). `Table::add_columns` asserts
  that a field is new in its region (hyperion/Table.cc:1303), so tables made by it alone are safe
  (`TableLockstep.OwnFieldsInStep`); the public constructors (hyperion/Table.h:138-152) and the static
  `Table::requirements` (hyperion/Table.h:204-218) take any map of columns and check nothing.
- A deserialised table has its regions as their own parents; other parents are not written.

## Model

| member | source | states |
|---|---|---|
| Compaction.CompactSound | hyperion/IndexTree.h:568-617 | the constructors fail exactly when some coordinate is covered by two positive blocks; otherwise the result is sorted, disjoint, maximally coalesced and maps every coordinate as before |
| Compaction.OverlappingIsPairwise | hyperion/IndexTree.h:568-617 | that failure means two different blocks share a coordinate |
| Compaction.CompactInPlace | hyperion/IndexTree.h:568-617 | the loop that grows the last block in place computes the specified compaction, error included |
| IndexTrees.LookupDetermines | hyperion/IndexTree.h:129-132 | a coalesced block list is the only one with its coordinate-to-subtree map |
| IndexTrees.EqualIffSamePoints | hyperion/IndexTree.h:129-132 | structural equality of two constructor-built trees is equality of the denoted point sets |
| IndexTrees.EqualIffSamePaths | hyperion/IndexTree.h:129-132 | the same for the sets of prefixes |
| IndexTrees.PathIsPrefix | hyperion/IndexTree.h:776-781 | the prefixes of a tree, by which merging and pruning are stated, are exactly the prefixes of its points |
| IndexTrees.PrefixFree | hyperion/IndexTree.h:776-781 | no point of a tree is a proper prefix of another |
| IndexTrees.RankIsUniform | hyperion/IndexTree.h:267-284 | `rank` yields r exactly when every point has r coordinates |
| IndexTrees.HeightIsDepth | hyperion/IndexTree.h:250-265 | `height` is the number of levels less one |
| BlockLists.RangeIs | hyperion/IndexTree.h:227-246 | `index_range`, as half-open bounds: the least start and the greatest end, both attained, in any order of the blocks |
| Merging.MergePaths | hyperion/IndexTree.h:377-445 | the prefixes of a merge are exactly the prefixes of either tree, ragged trees included |
| Merging.MergePoints | hyperion/IndexTree.h:377-445 | the exact points of a merge: those of either tree that the other does not extend |
| Merging.MergeIsUnion | hyperion/IndexTree.h:377-445 | for trees of one rank, merging is set union |
| Merging.MergeIdempotent | hyperion/IndexTree.h:396-440 | the sweep of a block list with itself gives the list back, so the shortcut for equal trees changes nothing |
| Merging.MergeCommutative | hyperion/IndexTree.h:377-445 | merging is commutative as structural equality |
| Merging.MergeAssociative | hyperion/IndexTree.h:377-445 | merging is associative as structural equality |
| Merging.SweepLookup | hyperion/IndexTree.h:396-436 | every coordinate of a sweep carries the merge of the two subtrees found there |
| Merging.SweepDisjoint | hyperion/IndexTree.h:384-389 | the shortcut for trees in order agrees with the sweep |
| MergeOrder.LessThanIs | hyperion/IndexTree.h:139-166 | what the test for trees in order means: there is a prefix from which all points of the other go on, where this one has points, all of which end there or go on below the other's next coordinates, and its other points come before the prefix |
| MergeOrder.LessThanOrders | hyperion/IndexTree.h:139-166 | so every point of the one comes before every point of the other |
| MergeOrder.LessThanPoint | hyperion/IndexTree.h:158-161 | against a tree of one point the test is exactly that |
| Merging.SweepLoop | hyperion/IndexTree.h:396-440 | the two-cursor loop terminates, both cursors are used up, and what it emits compacts to the specified sweep |
| Merging.MergedWith | hyperion/IndexTree.h:377-445 | the whole operation, shortcuts and recursion included, computes the specified merge |
| Enumeration.PointsEnumerate | hyperion/IndexTree.h:776-843 | the enumeration lists exactly the points, strictly increasing, `size` many |
| Enumeration.PointsDistinct | hyperion/IndexTree.h:776-843 | no point is listed twice |
| Enumeration.PointsOfLength | hyperion/IndexTree.h:208-225 | the number of listed points is `size` |
| Enumeration.IndexTreeIterator.constructor | hyperion/IndexTree.h:776-781 | the iterator holds the enumeration; for the empty tree it holds nothing |
| Enumeration.IndexTreeIterator.GatherCoords | hyperion/IndexTree.h:807-843 | each call inserts the subtree's points below the trailing prefix and restores that prefix |
| Enumeration.IndexTreeIterator.PushLeaf | hyperion/IndexTree.h:822-832 | a block of leaves pushes one copy per coordinate and restores the prefix |
| Enumeration.IndexTreeIterator.GatherBlock | hyperion/IndexTree.h:833-841 | a block with a subtree visits it once per coordinate and restores the prefix |
| Enumeration.IndexTreeIterator.Next | hyperion/IndexTree.h:784-803 | iteration moves through the list one point at a time |
| Replication.ReplicateSound | hyperion/IndexTree.h:70-127 | the pattern constructor succeeds exactly when the pattern starts at 0 on the levels it reaches and the remainder never cuts a subtree behind whole copies of it; it then denotes the first num points of the periodic extension, in order |
| Replication.CutBehindCopy | hyperion/IndexTree.h:104-125 | an input on which it throws: three points of two equal pairs |
| Replication.CycleIsCopies | hyperion/IndexTree.h:70-127 | the periodic extension is whole copies one stride apart, then a prefix of one more |
| Replication.ReplicatePattern | hyperion/IndexTree.h:70-127 | the constructor's loops compute the specified replica or error |
| Replication.AddRemainder | hyperion/IndexTree.h:104-125 | the remainder loop emits the specified blocks |
| Recognition.ReplicaRecognised | hyperion/IndexTree.h:720-769 | `num_repeats` returns num on what the pattern constructor builds for num points, whose size is num |
| Recognition.NumRepeatsLoop | hyperion/IndexTree.h:720-769 | the nested loops with their running block and cursors compute the specified count |
| RecognitionSound.TreeSize | hyperion/IndexTree.h:752-760 | on every accepted tree the answer is at most the size of the tree pruned to the pattern's rank, and equal to it exactly when every last block compared by its subtree has count 1 |
| RecognitionSound.AcceptedPoints | hyperion/IndexTree.h:720-769 | the points of an accepted tree are the first points of the repeated pattern, as many as the answer says, exactly when those blocks have count 1, patterns start at 0, restarts come one stride apart, and a run is shorter than its block in the pattern only at the end, where one cut subtree may follow it |
| RecognitionSound.AcceptedReplica | hyperion/IndexTree.h:70-127 | so recognition inverts replication exactly there: the pruned tree is what the pattern constructor builds for the answer, if it builds anything |
| RecognitionSound.GapAccepted | hyperion/IndexTree.h:764 | an input: points 0 and 5 are accepted as two repetitions of point 0 |
| RecognitionSound.ShortRunAccepted | hyperion/IndexTree.h:743-751 | an input: a run shorter than its block is accepted in front of another block |
| RecognitionSound.RepeatedCutAccepted | hyperion/IndexTree.h:752-760 | an input: a last block of count 2 is counted once |
| RecognitionSound.CutLooksLikeRestart | hyperion/IndexTree.h:752-764 | an input for the one case to allow for: a cut subtree behind a short run is taken for a restart, and the points are right |
| Growing.GrowLeavesPoints | hyperion/IndexTree.h:327-351 | the points of `grow_leaves` are exactly the concatenations; the empty tree stays empty |
| Growing.GrowSize | hyperion/IndexTree.h:327-351 | sizes multiply |
| Growing.PrunedPaths | hyperion/IndexTree.h:353-375 | pruning keeps exactly the prefixes up to the height |
| Growing.PruneUndoesGrow | hyperion/IndexTree.h:353-375 | pruning to the original rank undoes growing |
| Growing.GrownIsConcatenation | hyperion/IndexTree.h:674-714 | a grown point is a point followed by a point of what the function gives for it |
| Growing.GrownBelow | hyperion/IndexTree.h:697-705 | below a point of the tree stands what the function gives for it; a point without a sprout stays a point and nothing goes on from it |
| Growing.GrowLeavesAt | hyperion/IndexTree.h:316-325 | `grow_leaves_at` grows every leaf by the function of its point |
| Growing.GrowAt | hyperion/IndexTree.h:680-714 | the pushing and popping of the coordinate vector visits every leaf with its own point |
| Growing.ConstantGrowth | hyperion/IndexTree.h:674-714 | with a constant function it is `grow_leaves` |
| Envelopes.EnvelopeTight | hyperion/IndexTree.h:286-314 | per level the envelope bounds all points, and both bounds are attained |
| Envelopes.ArrayIffBox | hyperion/IndexTree.h:173-196 | `is_array` holds exactly of the trees, other than the empty one, whose points fill the box of the envelope |
| Envelopes.CheckArray | hyperion/IndexTree.h:173-196 | the loop over the blocks decides it |
| Envelopes.ArrayShape | hyperion/IndexTree.h:619-642 | the walk down the only path yields the envelope of an array |
| Envelopes.ExtendEnvelope | hyperion/IndexTree.h:644-672 | the two loops take the hull level by level and append deeper levels |
| Envelopes.ComputeEnvelope | hyperion/IndexTree.h:286-314 | `envelope` computes the specified one, on arrays and on other trees |
| Serialisation.SerializeAt | hyperion/IndexTree.h:463-483 | exactly `serialized_size` bytes are written, the encoding of the tree, and nothing else is touched |
| Serialisation.DeserializeAt | hyperion/IndexTree.h:485-501 | wherever a tree has been encoded, whatever follows, reading ends at the encoded end and returns that tree |
| Serialisation.WriteAndRead | hyperion/IndexTree.h:452-501 | write then read returns every canonical tree |
| Serialisation.ComputeSize | hyperion/IndexTree.h:452-461 | `serialized_size` |
| Serialisation.EncodedSize | hyperion/IndexTree.h:452-483 | the encoding has that many bytes |
| Serialisation.CoordRoundTrip | hyperion/IndexTree.h:474-476 | a signed coordinate survives its eight bytes |
| SerialisedLayout.SizeInBytes | hyperion/IndexTree.h:452-461 | `serialized_size` is 8 bytes and 24 more for every block on any level |
| SerialisedLayout.CoordsAre | hyperion/IndexTree.h:474-477 | every integer from -2^63 to 2^63 - 1 is a coordinate, and no other |
| SerialisedLayout.FitsIs | hyperion/IndexTree.h:463-483 | a tree can be written exactly when its starts and counts are in that range and its size is below 2^64 |
| SerialisedLayout.CoordInBytes | hyperion/IndexTree.h:474-477 | a coordinate takes eight bytes: its digits to the base 256 in two's complement, the lowest first |
| SerialisedLayout.HeaderInBytes | hyperion/IndexTree.h:481-482 | the first eight bytes are the size |
| SerialisedLayout.BlockInBytes | hyperion/IndexTree.h:467-480 | then block after block: eight bytes for the start, eight for the count, the encoding of the subtree |
| TreeIndexSpace.RectsPartition | hyperion/tree_index_space.cc:37-124 | every point of a tree is in exactly one rectangle, no other point is in any, and the volumes add up to `size` |
| TreeIndexSpace.RectsDisjoint | hyperion/tree_index_space.cc:37-124 | two rectangles of a tree share no point |
| TreeIndexSpace.TreeIndexSpaceTask.constructor | hyperion/tree_index_space.cc:21-42 | the task holds the starts and counts alternately, and the subtrees |
| TreeIndexSpace.TreeIndexSpaceTask.Dispatch | hyperion/tree_index_space.cc:44-73 | the recursive dispatch produces the rectangles of the tree |
| TreeIndexSpace.TreeIndexSpaceTask.BaseImpl | hyperion/tree_index_space.cc:75-124 | the combining task multiplies each block with the rectangles below it |
| TreeIndexSpace.SubRank | hyperion/tree_index_space.cc:21-24 | the subtrees of a tree with a rank share the next smaller one, so none is skipped |
| RankExtension.ExtendIndexRanks | hyperion/MeasRef.cc:30-52 | the result lists the zero-padded points in their order: none lost, none identified, all of the requested rank |
| RankExtension.PaddedChain | hyperion/MeasRef.cc:36-45 | the chain for one point is built from its last coordinate |
| RankExtension.PadIncreasing | hyperion/MeasRef.cc:30-52 | padding keeps the points apart and in order because they are prefix-free |
| MeasureTrees.BuildMeasureIndexTrees | hyperion/MeasRef.cc:72-176 | for any order of the components, the metadata tree has uniform rank and its points are the padded node addresses; the value tree holds the padded value addresses |
| MeasureTrees.FindComponents | hyperion/MeasRef.cc:98-122 | the components of a reference are VALUE and those that are present |
| MeasureTrees.Assemble | hyperion/MeasRef.cc:152-166 | merging one block per component adds exactly that component's subtree |
| MeasureTrees.MetadataDepth | hyperion/MeasRef.cc:167-170 | the number of levels is one more than the deepest component's |
| MeasureTrees.ExtendedPoints | hyperion/MeasRef.cc:167-174 | extension to the height keeps all points up to padding |
| CreateTrees.BuildDomains | hyperion/MeasRef.cc:900-929 | creation fails exactly when the references need different numbers of dimensions; otherwise the two domains are exactly the node and value addresses, each prefixed by the reference's index |
| MeasureAddresses.LevelsAre | hyperion/MeasRef.cc:167-170 | a reference has one level, and one more than the deepest of its five measures |
| MeasureAddresses.MetadataPointIs | hyperion/MeasRef.h:36-45 | in the numbers of the components: the metadata of offset, epoch, position, direction and radial velocity are below 1, 2, 3, 4 and 5, padded with zeros |
| MeasureAddresses.ValuePointIs | hyperion/MeasRef.h:36-45 | and the values of a measure below 0, those of its reference's measures below the same numbers |
| MeasureAddresses.FullDomains | hyperion/MeasRef.h:36-45 | an example: the domains of a reference with all five components, point by point |
| CreateTrees.UnitTree | hyperion/IndexTree.h:45-64 | the constructor from counts puts the subtrees below 0, 1, 2, ... |
| MeasureEncoding.WriteMeasureSound | hyperion/MeasRef.cc:209-369 | the recursive form of the writer leaves the whole measure encoded and touches nothing outside its part of the arrays |
| MeasureEncoding.Stable | hyperion/MeasRef.cc:209-369 | an encoded measure survives writes elsewhere |
| MeasureWriter.WriteLevel | hyperion/MeasRef.cc:239-308 | the visitor writes values, counts, class and reference type of one node inside the domains |
| MeasureWriter.PushNext | hyperion/MeasRef.cc:321-362 | the component scan pushes the next present component, or ends |
| MeasureWriter.InitializeRef | hyperion/MeasRef.cc:209-367 | the stack machine terminates, never addresses a level at or beyond the dimension, stays inside both domains, and writes what the recursive form writes |
| MeasureWriter.Initialize | hyperion/MeasRef.cc:192-369 | after all references, each one is encoded at its index |
| MeasureContents.EncodedContents | hyperion/MeasRef.cc:209-369 | what that is, in the numbers of the components: class, reference type and number of values of every measure on the way down through 1 to 5, padded with zeros; its value n behind 0 and n |
| MeasureReader.EncodedCovers | hyperion/MeasRef.cc:209-369 | no metadata address of an encoded measure is left unwritten |
| MeasureReader.Probe | hyperion/MeasRef.cc:473-476 | probing the domain finds a component exactly when it is there |
| MeasureReader.ReadLevel | hyperion/MeasRef.cc:451-472 | the first visit reads the node's class, values and reference type |
| MeasureReader.Visit | hyperion/MeasRef.cc:451-477 | it then pushes the offset if there is one |
| MeasureReader.FillNext | hyperion/MeasRef.cc:479-534 | each handed-up measure is set on the component it belongs to, an offset having the class of its owner, and the next present component is pushed |
| MeasureReader.InstantiateRef | hyperion/MeasRef.cc:411-577 | the machine terminates within the dimension and ends with exactly the reference the arrays show |
| MeasRefs.HiIsLast | hyperion/MeasRef.cc:409 | the number of references is read off the upper bound of the domain |
| MeasRefs.Instantiate | hyperion/MeasRef.cc:394-589 | all references are returned in order |
| MeasRefs.CreateAndMake | hyperion/MeasRef.cc:893-1070 | encode then decode returns the same recursive references, or fails exactly when they need different numbers of dimensions |
| ColumnIndex.AccDPts | hyperion/Column.cc:174-185 | each value is mapped to exactly the rows that have it, in the order of the domain |
| ColumnIndex.IndexColumn | hyperion/Column.cc:129-141 | the row lists of a column index split the rows by the position of their value |
| ColumnIndex.IntersectionIs | hyperion/ColumnSpace.cc:584-597 | intersecting sorted row lists yields the common rows |
| ColumnIndex.IntersectionIncreasing | hyperion/ColumnSpace.cc:584-597 | and yields them sorted |
| RowMapping.CommonRows | hyperion/ColumnSpace.cc:619-627 | the rows common to all index positions of an index point |
| RowMapping.HereRows | hyperion/ColumnSpace.cc:631-643 | the filter keeps the rows that agree on the compared upper axes, in order |
| RowMapping.FillRect | hyperion/ColumnSpace.cc:662-678 | the rectangle of a row: the index point, the row's number, the row's element bounds |
| RowMapping.ComputeRowMappingTask | hyperion/ColumnSpace.cc:599-690 | one task writes the rectangles of exactly the rows with its key, and nothing if rows are not kept and there is not exactly one |
| RowMapping.ComputeRowMapping | hyperion/ColumnSpace.cc:692-752 | the launched tasks, in any order, leave what their effects leave one after the other |
| RowMapping.MappingRight | hyperion/ColumnSpace.cc:599-752 | every row ends up with its final rectangle whatever the order of the tasks exactly when rows are not kept, or have one axis, or the last axis above the row axis has one value; otherwise some order of the same tasks leaves a wrong one |
| RowMapping.InitBounds | hyperion/ColumnSpace.cc:706-731 | the launch bounds are the upper row axes and the positions of each index |
| RowMapping.RowLaunched | hyperion/ColumnSpace.cc:706-731 | the index point of every row is launched |
| RowMapping.OwnTasksOnly | hyperion/ColumnSpace.cc:628-642 | among the launched tasks every row is written by the one at its own index point only, exactly under the same condition |
| RowMapping.OwnTask | hyperion/ColumnSpace.cc:628-642 | under it, a row is written at its own index point and nowhere else |
| RowMapping.ForeignTask | hyperion/ColumnSpace.cc:633-642 | outside it, a launched task at another value of the last upper axis writes the row as well |
| RowMapping.ForeignLast | hyperion/ColumnSpace.cc:662-678 | if that task is the last one, the row keeps a rectangle at the wrong index point |
| Reindexing.NumberIs | hyperion/ColumnSpace.cc:661-683 | the number of a row is its place among the rows with its key |
| Reindexing.NumberCounts | hyperion/ColumnSpace.cc:619-683 | which is how many rows before it agree with it on the upper axes and on all index positions |
| Reindexing.FinalRectPoints | hyperion/ColumnSpace.cc:661-683 | the points of a row's rectangle are its key, its number and its elements |
| Reindexing.RectsDisjointRows | hyperion/ColumnSpace.cc:599-690 | rectangles of different rows share no point |
| Reindexing.UniqueRows | hyperion/ColumnSpace.cc:644-684 | without a row axis a row gets a nonempty rectangle exactly when no other row has its key; all others keep the initial empty one |
| Reindexing.NewBounds | hyperion/ColumnSpace.cc:408-458 | bounds and axes are the upper row axes, the index axes, the row axis if kept, the element axes |
| ReindexCopy.SourcePoint | hyperion/PhysicalTable.cc:980-983 | the source cell is the row followed by the trailing coordinates of the target |
| ReindexCopy.CopyRow | hyperion/PhysicalTable.cc:974-986 | a row's rectangle is filled from the row's cells, and nothing else changes |
| ReindexCopy.ReindexCopyValues | hyperion/PhysicalTable.cc:951-995 | after the copy every rectangle holds its row's cells, and nothing outside all rectangles has changed |
| ReindexCopy.TargetInjective | hyperion/ColumnSpace.cc:599-690 | no two kept cells go to the same place |
| ReindexCopy.TargetAt | hyperion/ColumnSpace.cc:661-683 | the target coordinate by coordinate: upper row axes, index positions, the number if rows are kept, elements |
| ReindexCopy.TargetInBounds | hyperion/ColumnSpace.cc:408-458 | a kept cell lands inside the new bounds exactly when, with a row axis, its number is within the row bounds |
| ReindexCopy.NumberInRange | hyperion/ColumnSpace.cc:440-446 | with rows from 0 on it always is |
| ReindexCopy.RowFive | hyperion/ColumnSpace.cc:408-458 | an input where it is not: a column whose only row is row 5 |
| Truncation.TruncateIndexSpace | hyperion/PhysicalTable.cc:1028-1051 | the loop collects the leading coordinates without immediate repetitions |
| Truncation.LeadingAre | hyperion/PhysicalTable.cc:1028-1051 | exactly the leading tuples of the points, in whatever order the points come |
| Truncation.LeadingInOrder | hyperion/PhysicalTable.cc:1028-1051 | for points in order, each leading tuple is listed once and in order |
| ReindexCopy.ReindexColumn | hyperion/PhysicalTable.cc:951-995 | every kept cell is found at (upper axes, index positions, number, element), the rectangles contain nothing else, and nothing outside them has changed |
| Conformance.DoDomainsConform | hyperion/Table.cc:920-947 | the two iterators accept exactly the subjects whose leading tuples begin the object, or begin it without its first point, and either reach its end or stop with a tuple of a single point |
| Conformance.AcceptedIs | hyperion/Table.cc:920-947 | every conforming subject is accepted; an accepted one conforms exactly when it starts with the first object point and has as many leading tuples as there are object points |
| Conformance.EarlyAndLate | hyperion/Table.cc:920-947 | two inputs accepted although they do not conform: one leaves out the first object point, one stops early |
| TableRequirements.CollectReqs | hyperion/Table.cc:622-724 | the first pass makes one metadata requirement per region and one value requirement per combination of region and settings, with the fields of all its columns |
| TableRequirements.EmitColumn | hyperion/Table.cc:791-868 | a column adds its region's and its values' requirements if they have not been added, then its keywords and measures |
| TableRequirements.Requirements | hyperion/Table.cc:736-872 | the emitted list and the column descriptors |
| RequirementContents.HeaderContents | hyperion/Table.cc:736-766 | the list starts with the index column: its metadata, three fields mapped, READ_ONLY and EXCLUSIVE; its region, field 0 unmapped, WRITE_ONLY and SIMULTANEOUS |
| RequirementContents.RegionContents | hyperion/Table.cc:631-636 | the requirement of a region stands at its first column and has that column's privilege and coherence, on the three metadata fields, all mapped |
| RequirementContents.ValuesContents | hyperion/Table.cc:637-721 | the requirement of values stands at the first column with its settings: region or partition with that column's projection, privilege, coherence, tag; its fields are those of all columns with the same settings, mapped exactly those that some column asks for as mapped |
| RequirementContents.KeywordContents | hyperion/Keywords.h:110-133 | keyword types are READ_ONLY, keyword values have the asked privilege, both EXCLUSIVE and mapped as asked |
| RequirementContents.MeasureContents | hyperion/MeasRef.cc:617-635 | metadata, values and, if there are any, codes of a measure, in this order, with their regions, fields, the asked privilege, EXCLUSIVE, mapped as asked |
| RequirementContents.Announced | hyperion/Table.cc:823-868 | behind the region's and the values' requirements a column has as many as its descriptor announces |
| TableParsing.ParseColumn | hyperion/PhysicalTable.cc:103-188 | the loop body of the parser, with all its ways to fail |
| ParserSteps.StepIs | hyperion/PhysicalTable.cc:103-188 | on any list: a column is accepted exactly when the list is long enough, the requirement read for a new field is on the column's region and lists its field, and the rank fits; then it takes one entry for a new region, one for a new field, two for keywords, two or three for measures, records the fields, and makes the column from the regions at these places |
| ParserSteps.StepsKnown | hyperion/PhysicalTable.cc:103-188 | which is said of the states where every recorded field came with its own region and that region's metadata, and the parser is in no other state |
| TableParsing.CreateTable | hyperion/PhysicalTable.cc:66-220 | the whole parser: table, advanced iterators, or the error |
| TableParsing.CreateMany | hyperion/PhysicalTable.cc:222-251 | tables are parsed one after the other from where the last one ended |
| TableLockstep.Lockstep | hyperion/PhysicalTable.cc:66-220 | on an emitted list followed by anything, parsing consumes exactly the emitted part and gives each column the regions of its own requirements exactly when the columns are in step (the last requirement read before a column that lists its field, if any, is its own), their ranks fit and all reference columns were selected |
| TableLockstep.ManyLockstep | hyperion/PhysicalTable.cc:222-251 | a concatenation of emitted lists is restored table by table exactly when each is, and is then cut exactly at the table boundaries |
| TableLockstep.ManyStops | hyperion/PhysicalTable.cc:242-249 | where the list ends with a table, further descriptors are passed over |
| TableLockstep.MisfitParse | hyperion/PhysicalTable.cc:103-188 | out of step, the parse fails or gives some column the region of a requirement that is not its own |
| TableLockstep.OwnFieldsInStep | hyperion/Table.cc:1296-1303 | columns with fields of their own, as `add_columns` makes them, are in step |
| TableLockstep.SameFieldInStep | hyperion/Table.cc:643-652 | so are columns that ask for a field in one way only |
| TableLockstep.OutOfStep | hyperion/Table.cc:643-652 | an input out of step: two names for one field, asked for with different privileges; the emitter asks twice, the parser takes one requirement and the second stays behind |
| TableLockstep.StepMatches | hyperion/PhysicalTable.cc:103-188 | a column in step moves the parser by exactly what the emitter added for it |
| TableLockstep.RestoredRank | hyperion/PhysicalTable.cc:172-178 | the index rank of a restored column is the smaller of the table's index rank and the region's dimension: where ranks fit, the table's, or 1 for a region of one dimension; ranks fit when that dimension is 1 or not below the index rank |
| TableSerialisation.DecodeEncoded | hyperion/Table.cc:1719-1804 | decoding the regions of the default requirements restores the index column and every column's name, type, field, column space, keywords, measure regions and reference column |
| TableSerialisation.DefaultContents | hyperion/Column.cc:48-56 | with the default settings, as a table is serialised, values are READ_ONLY, EXCLUSIVE, unpartitioned and unmapped |
| TableSerialisation.DefaultRegion | hyperion/Column.cc:48-56 | so is the metadata of a region, but mapped |
| TableSerialisation.DefaultKeywords | hyperion/Column.cc:48-56 | so are keywords, but mapped |
| TableSerialisation.DefaultMeasures | hyperion/Column.cc:48-56 | so are measures, but mapped |
| TableSerialisation.EntryAre | hyperion/Table.cc:1689-1717 | with default settings a column adds its two regions only when its region is new |
| TableBuffer.LegionBufferSize | hyperion/Table.cc:1673-1687 | the announced size |
| TableBuffer.BufferLayout | hyperion/Table.cc:1673-1717 | in bytes: the number of columns in four, their descriptors, the number of regions in four, these |
| TableBuffer.LegionSerialize | hyperion/Table.cc:1689-1717 | the announced number of bytes is written: counts, descriptors, regions; nothing else is touched |
| TableBuffer.LegionDeserialize | hyperion/Table.cc:1719-1804 | exactly the written bytes are consumed |
| TableBuffer.WriteAndRead | hyperion/Table.cc:1689-1804 | a table survives being written and read |
| Partitions.CreatePartitionOnAxes | hyperion/ColumnSpacePartition.cc:101-168 | colour counts, transform, extent and both verdicts, for parts on any axes of the index space, absent and repeated ones included; a count is read outside the rectangle of the counts exactly when some part is on an axis at or above the number of parts |
| Partitions.OutsideUnread | hyperion/ColumnSpacePartition.cc:145-154 | otherwise the verdicts do not depend on what lies there |
| Partitions.SecondAxisAlone | hyperion/Table.cc:1537-1542 | an input where they do: the second of two axes alone; the blocks cover everything, yet the verdict of completeness is decided by the value read outside |
| Partitions.MakeTransform | hyperion/ColumnSpacePartition.cc:121-130 | the transform moves the axis of each part by its stride |
| Partitions.DisjointExact | hyperion/ColumnSpacePartition.cc:121-165 | for any parts, no point is in two blocks exactly when no difference of two colours moves a block by at most its width on every axis |
| Partitions.DisjointOnAxes | hyperion/ColumnSpacePartition.cc:109-165 | on distinct axes: exactly when no part with several colours has neighbours that overlap, or is absent, or there are no blocks |
| Partitions.CoveredOnAxes | hyperion/ColumnSpacePartition.cc:109-165 | on distinct axes every point of the bounds has a colour exactly when each part has colours and covers the bound of its axis: without gaps from end to end, or by one block |
| Partitions.DisjointSound | hyperion/ColumnSpacePartition.cc:132-158 | the verdict of disjointness is right exactly when a collision comes with a part that looks aliased by the counts looked up; on distinct axes the collisions are parts that overlap by their own counts, and own counts are enough; there the same is said within the bounds |
| Partitions.WithinOnAxes | hyperion/ColumnSpacePartition.cc:109-165 | on distinct axes two blocks share a point of the bounds exactly when every part has a block in its bound and the neighbours of one share a coordinate there |
| Partitions.AliasedSound | hyperion/ColumnSpacePartition.cc:132-158 | the verdict of aliasing is right exactly under the converse, for any parts, on distinct axes, and there within the bounds |
| Partitions.CompleteSound | hyperion/ColumnSpacePartition.cc:132-158 | the verdict of completeness is right exactly when the blocks then reach every bound axis by axis; on distinct axes exactly when parts that tile by the counts looked up cover by their own; own counts are enough if there are colours at all |
| Partitions.CoveredByAxes | hyperion/ColumnSpacePartition.cc:109-165 | for any parts, the blocks cover the bounds exactly when they do so on each axis by itself |
| PartitionVerdicts.CountsAre | hyperion/ColumnSpacePartition.cc:108-121 | part by part: colours are counted as long as their strides from the lower limit do not pass the upper one; one colour without a stride |
| PartitionVerdicts.BlockIs | hyperion/ColumnSpacePartition.cc:123-143 | a block in numbers: the extent that the last part on an axis leaves there, moved by the strides |
| PartitionVerdicts.VerdictsAre | hyperion/ColumnSpacePartition.cc:134-158 | both verdicts in numbers: aliased if some part is absent or steps by less than a block under the count read; complete if every part reaches from the lower to the upper end of what the parts before it left, in steps of one block |
| PartitionVerdicts.IncompleteSound | hyperion/ColumnSpacePartition.cc:140-154 | the verdict of incompleteness is right exactly when blocks that cover the bounds also pass that test, for any parts and in closed form on distinct axes |
| PartitionVerdicts.CompleteIsCovered | hyperion/ColumnSpacePartition.cc:140-154 | on distinct axes with own counts: complete, with colours, exactly when the blocks cover the bounds and touch without overlapping |
| PartitionVerdicts.BlocksComplete | hyperion/ColumnSpacePartition.cc:345-359 | block sizes on distinct axes with own counts are judged complete exactly when the blocks cover the bounds |
| PartitionVerdicts.BlocksInOrder | hyperion/ColumnSpacePartition.cc:345-359 | for which part n on axis n is enough |
| PartitionVerdicts.OneToNine | hyperion/ColumnSpacePartition.cc:144 | an example: 1 to 9 in blocks of 5 is complete and covered |
| PartitionVerdicts.OverlapIncomplete | hyperion/ColumnSpacePartition.cc:151-154 | an input where the verdict of incompleteness is wrong: blocks that overlap |
| Partitions.TwiceIncomplete | hyperion/ColumnSpacePartition.cc:140-154 | an input with a repeated axis that is judged complete, although points have no colour |
| Partitions.OnAxesOfTheirOwn | hyperion/ColumnSpacePartition.cc:145-149 | part n on axis n is enough for the verdicts to read the right counts |
| Partitions.SwappedVerdict | hyperion/ColumnSpacePartition.cc:145-151 | an input where the verdict is wrong: two parts in the other order than their axes, judged disjoint, yet two blocks share a point |
| Partitions.InBlockOf | hyperion/ColumnSpacePartition.cc:345-359 | in a block-size partition on distinct axes the n-th colour of a point is its coordinate divided by the block size, and no other |
| Partitions.BlocksPartition | hyperion/ColumnSpacePartition.cc:345-359 | every point of the bounds is in exactly one block exactly when the blocks, which start at 0, reach all bounds |
| Partitions.LastPointMissed | hyperion/ColumnSpacePartition.cc:345-359 | an input where they do not: on 1 to 5 in blocks of 5, point 5 has no colour |
| Partitions.ReachFromZero | hyperion/ColumnSpacePartition.cc:345-359 | bounds from 0 on are reached |
| Partitions.NoEmptyBlock | hyperion/ColumnSpacePartition.cc:345-359 | with bounds from 0 on every block contains a point of the bounds |
| Partitions.RepeatedBlocks | hyperion/utility.h:415-420 | block sizes are always judged disjoint; the unclipped rectangles are so exactly when no axis is repeated by a later part while an earlier one has more than one block; with bounds from 0 on the same holds of the points of the bounds |
| Partitions.AxisTwice | hyperion/ColumnSpacePartition.cc:193-195 | an input where that verdict is wrong: one axis in blocks of 5, twice; two colours have the same block |
| Partitions.CreateBlockParts | hyperion/ColumnSpacePartition.cc:345-359 | the parts made from block sizes |

## Left out

- MeasRefs.CreateAndMake: assumes that every component measure has a class and a value and that an offset has the class of its owner; the code's own assertions fail otherwise. Comets are rejected by an assertion of the original and are not modelled.
- MeasRefs.CreateAndMake: the index region with the caller's codes is a plain table beside the arrays and is not modelled; nor is the assertion that limits the number of dimensions (hyperion/MeasRef.cc:965-973), beyond which creation fails as well.
- CreateTrees.BuildDomains: the same limit on dimensions is not part of its failure condition.
- ColumnIndex.IndexColumn: one grouping pass over one domain; the reduction that combines the indexes of several tasks is not part of this model, and a multi-dimensional domain is taken in sorted order.
- RowMapping.ComputeRowMapping: one task after the other in any order; what simultaneous access adds is not modelled.
- ReindexCopy.ReindexColumn: stated where the row mapping does not depend on the order of its tasks (the exact condition of RowMapping.MappingRight).
- TableRequirements.Requirements: partitions induced by a table partition are projections made by the runtime; a column's own partition is kept as an identifier. How the settings of a column are chosen from the arguments is left to the caller.
- RequirementContents.KeywordContents: the number of keywords of a column is not modelled, so its requirements are on all fields; without a runtime the original asks for field 0 only, a list that is only read for its regions.
- TableBuffer.WriteAndRead: descriptors and regions occupy one buffer cell of their size each; names longer than the fixed-size strings of the original are not modelled.
- Partitions.DisjointExact: about the rectangles that are handed to the runtime, which then clips them to the index space; Partitions.WithinOnAxes and Partitions.DisjointSound speak of the clipped ones on distinct axes.
- Partitions.RepeatedBlocks: of clipped rectangles only with bounds from 0 on.
- Serialisation.DeserializeAt: only buffers that hold an encoding; the original does not check others.
- Compaction.CompactInPlace: `std::sort` is one insertion sort; the result does not depend on the order of ties, because ties overlap.
- Truncation.LeadingInOrder: an index space of several rectangles is visited rectangle by rectangle, for which only Truncation.LeadingAre speaks.
- Legion tasks, futures, mapping, privileges and resource management: replaced by point sets, maps and direct calls.
- casacore objects beyond class, type, values and components; unit conversion and floating point rounding (values are only moved).
- HDF5 input and output, table and column declarations, C and Regent bindings.
- Machine-integer overflow outside the byte encoding.
