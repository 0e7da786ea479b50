# StableHLO dialect: replica groups, shape inference and attribute syntax

A Dafny model of the integer, list and permutation algorithms inside the StableHLO dialect layer, with
proofs of the properties they are there for. Verify everything with `dafny verify dfyconfig.toml`.

| modules | what they model |
|---|---|
| `Sequences`, `MixedRadix` | permutations, pigeonhole, products; mixed-radix digits and strides |
| `TransposedGroups`, `GridRefinement` | the reshape-transpose decoding of device groups; refining one grid axis |
| `MeshAxes`, `MeshSplitting`, `ReplicaGroups`, `SubAxisChains`, `MeshCoordinates`, `MeshExamples` | mesh axes and sub-axes, splitting, flattening into groups, the verifier of groups; the coordinates of the members on the mesh; meshes for which a property fails |
| `Types`, `Gather`, `GatherMeaning`, `Scatter`, `GatherScatterDuality` | dimension-number checks, gather inference and what it accepts and infers, scatter verification, and that they agree |
| `BoundedDims`, `BoundedInference`, `Concatenation`, `BranchOrder`, `Windows`, `WindowMeaning`, `Transpose` | bounded dynamism: merging types, branches and their order, concatenate, windows, pad, slice, transpose |
| `ReducerMatching` | the shapes of a reduction region, with the greedy match of an argument |
| `DotGeneral`, `DotSpeculation`, `RaggedDot` | dot_general inference, its speculatability, ragged dot |
| `StructSyntax`, `AttributeSyntax`, `ConvDimensions`, `ConvAttribute` | printers and parsers of dimension numbers |
| `ArgMax` | the max/argmax reducer body over arbitrary reduction trees |

## How the model reads the program

* `int64_t` is a mathematical integer. The "unknown" size is the sentinel `DYNAMIC` (minimum `int64_t`).
* Failures carry no message: `Option` or a Boolean. Locations, contexts and element types are not modelled.
* A loop that updates variables is a method with a loop. It is proved equal to a specification function (or
  proved to decide a predicate), and the main results are lemmas about that function or predicate.
* A dimension is read as a set of sizes: a static `n` is {n}, `?` with bound B is 0..B, a bare `?` is every
  natural number. `TensorType.WellFormed` is what `verifyBounds` guarantees of a type.
* Assertions are not modelled as failures: `stridedBound` is modelled on a negative bound too, as in a build
  without assertions.
* Parsers and printers work on tokens. Lexing and whitespace are not modelled.

## What was found about the code

Each item names the lemma with the exact condition. Where an op reaches an input that fails the condition, it
names a lemma with such an input too.

* **Flattened groups need not partition the devices.** For distinct device ids they do if and only if the groups
  have as many members together as there are devices, and the split grid has at least as many positions
  (`ReplicaGroups.FlattenPartitionsIff`). With distinct axis names and one device per mesh position this means that
  the sorted split boundaries of every axis form a divisor chain (`ReplicaGroups.ChainsPartitionIff`), which nothing
  checks: an axis of size 12 with the sub-axes (1)2 and (3)2 passes every check and splits into 8 positions
  (`MeshExamples.GapExample`). An explicit list that is too long loses devices as well (`MeshExamples.LongDeviceList`).
* **The device list can be indexed past its end.** Every read is in range if and only if there is no group or the
  last read is; with distinct axis names, if and only if the list has an entry for each position of the split grid
  (`ReplicaGroups.DeviceReadsInRangeIff`). An explicit list can be too short (`MeshExamples.ShortDeviceList`). Axes
  that share a name, which nothing rejects, are both split by one sub-axis, and the grid then outgrows the mesh even
  with the default list (`MeshExamples.RepeatedName`).
* **Rank-0 results of dot_general and gather keep an operand's bounds**, because an empty bounds list makes
  `boundsToEncoding` return its prototype. For dot_general: `DotGeneral.DotTypeWellFormedIff`,
  `DotGeneral.ScalarResultKeepsBounds`. For gather: `Gather.BoundsFollowShape`, `Gather.ScalarGatherKeepsBounds`.
* **The most specific type depends on which type comes first in its encoding, and only there.** Sizes, bounds and
  success do not depend on the order. The whole type is the same exactly when both orders start with bounds, or
  both without, or every dimension is static in some type or bounded in none
  (`BoundedInference.MostSpecificIgnoresOrder`, `BoundedInference.EncodingLost`).
* **Whether a conditional is accepted depends on which branch comes first.** Branches of sizes ?, 2, 3 are
  accepted, and the same branches as 2, ?, 3 are rejected (`BranchOrder.BranchOrderMatters`). All orders are accepted
  if and only if the branches are pairwise compatible, and all are treated alike if and only if every branch,
  or none, is compatible with all of them (`BranchOrder.ConditionalOrderIff`). Orders that are accepted infer
  the same shapes, and the same types exactly when both first branches have bounds, or neither does, or every
  dimension is static in all branches or unknown without a bound in one (`BranchOrder.AcceptedOrdersAgree`).
  Branches of sizes ? with bound 4 and 3 are accepted in both orders and keep the bound in one
  (`BranchOrder.BranchBoundLost`).
* **The least specific merge by itself depends on the order** unless the static sizes are equal or no size is
  unknown (`BranchOrder.LeastSpecificOrderIff`, `BoundedDims.LeastSpecificDependsOnOrder`). No op reaches the
  failing input of that lemma: the only caller first checks every branch against branch 0, and after that check
  the merge never fails (`Concatenation.InferConditionalOp`).
* **`stridedBound` undercounts a window of size 0 on a bound of 0** (`Windows.StridedBoundCounts`). No op reaches
  that input either, since window verification rejects static sizes below 1. For every window that passes it,
  the output size counts exactly the positions that fit (`Windows.OutputCountsPositions`).
* **Negative padding can hand `stridedBound` a negative base**, against its assertion. It stays non-negative for
  every size of a dimension if and only if the padding does not shrink the smallest of them below 0
  (`Windows.PaddedBaseNonNegativeIff`, `Windows.NegativePadding`).
* **A declared dot_general bound is never compared with the inferred one**, so a speculatable op can produce a
  size above its declared bound (`DotSpeculation.DeclaredTypeIff`, `DotSpeculation.DeclaredBoundNotChecked`).
* **Ragged dot takes its batch sizes from lhs only.** Its result is the one derived from dot_general if and only
  if no batch size is known from rhs alone (`RaggedDot.RaggedFromDotGeneral`, `RaggedDot.BatchSizeFromRhsOnly`).
* **Convolution dimension numbers with an in-range duplicate do not round-trip** (`ConvAttribute.ConvRoundTripIff`).
  Their text is rejected, unless in every group the only shared position is that of the first spatial dimension
  with another spatial one: then it is read back as a different attribute (`ConvAttribute.PrintedIsReread`,
  `ConvDimensions.LayoutIff`, `ConvAttribute.DuplicatesMisread`).

Axis sizes are at least 1 throughout (the code divides by their product). Flattening itself assumes besides only
that no read of the device list is out of range. Distinct axis names are a premise of the statements about volume,
divisor chains and overlap, and of `SubAxisChains.ChainEqualsFullAxis`.
`SubAxisChains.ChainEqualsFullAxis` and `MeshSplitting.AcceptedIffApart` need no divisor-chain premise on the
other axes.

## Model

| member | source | states |
|---|---|---|
| TransposedGroups.ComputeStrides | stablehlo/dialect/ReplicaGroupUtils.cpp:67-77 | strides filled in place backwards are the suffix products of the sizes |
| TransposedGroups.ComputeTransposeAxes | stablehlo/dialect/ReplicaGroupUtils.cpp:48-60 | the transposition lists the ungrouped axes ascending, then the grouped ones as given |
| TransposedGroups.DecodeSource | stablehlo/dialect/ReplicaGroupUtils.cpp:91-97 | the stride loop re-encodes the transposed digits of a linear index in the original grid |
| TransposedGroups.FlattenedReplicaGroupsFromTransposePermutation | stablehlo/dialect/ReplicaGroupUtils.cpp:44-103 | the nested loops produce the specified groups for any split sizes and grouped axes |
| TransposedGroups.SourceIndicesPermutation | stablehlo/dialect/ReplicaGroupUtils.cpp:90-97 | decoding and re-encoding is a bijection of [0, total) |
| TransposedGroups.MemberCoordinates | stablehlo/dialect/ReplicaGroupUtils.cpp:50-101 | the ungrouped coordinates of a member spell its group number, the grouped ones its rank, row-major in communication-axis order |
| TransposedGroups.PositionUnique | stablehlo/dialect/ReplicaGroupUtils.cpp:85-101 | every grid position is in exactly one group at exactly one rank |
| TransposedGroups.SameGroupIffAgree | stablehlo/dialect/ReplicaGroupUtils.cpp:50-101 | two positions share a group if and only if they agree on every ungrouped coordinate |
| TransposedGroups.GroupsPartition | stablehlo/dialect/ReplicaGroupUtils.cpp:44-103 | when split sizes multiply to the number of devices, the groups concatenate to a permutation of the ids, repeated ids included |
| TransposedGroups.GroupsPartitionIff | stablehlo/dialect/ReplicaGroupUtils.cpp:44-103 | for distinct ids, any total and any grid, the groups partition the ids if and only if whole groups take as many members as there are ids, and the grid has at least as many positions |
| TransposedGroups.ReadsInRangeIff | stablehlo/dialect/ReplicaGroupUtils.cpp:87-99 | for any grid and total, every read is in range if and only if there is no group or the last read of the last group is |
| GridRefinement.RefinedGroupsEqual | stablehlo/dialect/ReplicaGroupUtils.cpp:44-103 | replacing a grouped axis by consecutive factors gives the same groups in the same order |
| MeshAxes.ValidateCommAxes | stablehlo/dialect/ReplicaGroupUtils.cpp:112-144 | validation accepts exactly references to known axes whose sub-axis extent divides the axis |
| MeshAxes.CollectBoundaries | stablehlo/dialect/ReplicaGroupUtils.cpp:166-178 | the sorted, deduplicated boundaries of one axis |
| MeshAxes.BoundariesMembers | stablehlo/dialect/ReplicaGroupUtils.cpp:166-178 | the boundaries are strictly increasing and are 1, the axis size and both ends of every sub-axis, nothing else |
| MeshAxes.SplitMesh | stablehlo/dialect/ReplicaGroupUtils.cpp:153-187 | split sizes and split dimensions list the segments of every axis with their indices |
| MeshAxes.MatchCommAxes | stablehlo/dialect/ReplicaGroupUtils.cpp:189-225 | each reference finds its segment, each segment at most once, or matching fails |
| MeshAxes.ComputeReindexedAxes | stablehlo/dialect/ReplicaGroupUtils.cpp:107-228 | the three stages together compute the specified split, on all inputs |
| MeshSplitting.Telescoping | stablehlo/dialect/ReplicaGroupUtils.cpp:180-186 | floored quotients of increasing boundaries multiply to at most last/first, exactly if each divides the next |
| MeshSplitting.AxisVolume | stablehlo/dialect/ReplicaGroupUtils.cpp:155-187 | per axis the segment sizes multiply to at most the axis size, with equality if and only if the boundaries form a divisor chain |
| MeshSplitting.SplitVolume | stablehlo/dialect/ReplicaGroupUtils.cpp:146-187 | the split grid has the mesh's volume if and only if every axis is a divisor chain, and less otherwise |
| MeshSplitting.SegmentExtent | stablehlo/dialect/ReplicaGroupUtils.cpp:180-186 | there is a segment from each boundary of an axis to the next, and its extent is the largest that does not reach past the next |
| MeshSplitting.AcceptedIffApart | stablehlo/dialect/ReplicaGroupUtils.cpp:107-228 | for requested extents of at least 2 (or axes of size 1), success if and only if the references are valid and pairwise disjoint intervals |
| MeshSplitting.AcceptedIff | stablehlo/dialect/ReplicaGroupUtils.cpp:107-228 | along divisor chains, success if and only if extents are at least 2 (or the axis has size 1) and the pieces are disjoint |
| MeshSplitting.AcceptedIffSideBySide | stablehlo/dialect/ReplicaGroupUtils.cpp:107-228 | when no sub-axis has extent 1, success if and only if each reference is to an axis of the mesh or ends at a divisor of it, and references to one axis are to sub-axes of which one ends where the other starts, or before |
| ReplicaGroups.FlattenReplicaGroupMeshAxes | stablehlo/dialect/ReplicaGroupUtils.cpp:232-267 | flattening composes reindexing, device numbering and grouping |
| ReplicaGroups.FlattenedMember | stablehlo/dialect/ReplicaGroupUtils.cpp:246-267 | there are volume / group size groups, and member j of group i is its grid position itself without an explicit list, and the list's entry there with one |
| MeshCoordinates.SplitCoord | stablehlo/dialect/ReplicaGroupUtils.cpp:155-187 | along divisor chains, the coordinate of a position in a split dimension is that in a sub-axis of the mesh, positions being numbered row-major over the mesh axes |
| MeshCoordinates.MemberOnMesh | stablehlo/dialect/ReplicaGroupUtils.cpp:44-267 | along divisor chains, member j of a group has on the axes and sub-axes of the communication the coordinates that spell j, row-major in the order of the communication, and its device is the one at its mesh position |
| MeshCoordinates.WholeAxisMember | stablehlo/dialect/ReplicaGroupUtils.cpp:44-267 | along whole axes, the coordinates of member j of group i spell j on the axes of the communication, in its order, and i on the other axes, in mesh order |
| ReplicaGroups.DeviceReadsInRangeIff | stablehlo/dialect/ReplicaGroupUtils.cpp:87-99 | repeated axis names included, every read of the device list is in range if and only if there is no group or the last read is; with distinct names, if and only if the list has an entry for each position of the split grid; without an explicit list there is one for each position of the mesh |
| MeshExamples.ShortDeviceList | stablehlo/dialect/ReplicaGroupUtils.cpp:255-266 | a mesh of two positions whose one-entry device list passes every check |
| MeshExamples.RepeatedName | stablehlo/dialect/ReplicaGroupUtils.cpp:155-225 | axes x of sizes 4 and 2 with the sub-axis (1)4 pass every check, split into [4, 2, 2], and read past the default list of 8 |
| ReplicaGroups.FlattenPartitionsIff | stablehlo/dialect/ReplicaGroupUtils.cpp:232-267 | for distinct device ids of any number, the flattened groups partition them if and only if whole groups take as many members as there are devices, and the split grid has at least as many positions |
| ReplicaGroups.ChainsPartitionIff | stablehlo/dialect/ReplicaGroupUtils.cpp:232-267 | with one device per mesh position and distinct axis names, every read is in range, and the groups partition the devices if and only if every axis splits along a divisor chain |
| MeshExamples.LongDeviceList | stablehlo/dialect/ReplicaGroupUtils.cpp:255-266 | a mesh of two positions with three explicit devices passes every check and loses one of them |
| ReplicaGroups.FlattenGroupSizes | stablehlo/dialect/ReplicaGroupUtils.cpp:79-82 | every group has the product of the requested extents as its size |
| MeshExamples.GapExample | stablehlo/dialect/ReplicaGroupUtils.cpp:155-225 | a mesh of 12 whose split has 8 positions passes every check and loses devices |
| ReplicaGroups.VerifyReplicaGroups | stablehlo/dialect/TypeInference.cpp:873-931 | the id-set loops and the size check decide the specified acceptance |
| ReplicaGroups.SameSizeAcceptsIff | stablehlo/dialect/TypeInference.cpp:887-918 | when groups must have equal size and no size is expected, a table is accepted if and only if its ids are a permutation of 0..n-1, and under global ids it is not empty |
| ReplicaGroups.ExpectedSizeAcceptsIff | stablehlo/dialect/TypeInference.cpp:887-929 | with an expected size as well, there must be a row, and the rows must have that size |
| ReplicaGroups.PaddedAcceptsIff | stablehlo/dialect/TypeInference.cpp:887-918 | when groups may differ in size, a table is accepted if and only if its ids other than -1 are 0, 1, ... without repetitions or gaps, and under global ids it is not empty; an expected size is not checked |
| ReplicaGroups.OtherFormsDecided | stablehlo/dialect/TypeInference.cpp:878-887 | the mesh-axes form is accepted, and a tensor of another rank than 2 rejected |
| ReplicaGroups.FlattenedIsAccepted | stablehlo/dialect/ReplicaGroupUtils.cpp:232-267 | flattening along divisor chains with device ids 0..n-1 is accepted with its own group size as the expected one |
| SubAxisChains.ChainEqualsFullAxis | stablehlo/dialect/ReplicaGroupUtils.cpp:107-225 | naming a full axis, or its complete chain of sub-axes of extents at least 2, gives the same groups in the same order, or both fail, for every mesh and all other axes |
| Types.IsUnique | stablehlo/dialect/TypeInference.cpp:377-384 | true exactly for duplicate-free lists |
| Types.CheckDimsDistinct | stablehlo/dialect/TypeInference.cpp:387-399 | accepts exactly when the concatenation is duplicate-free |
| Types.CheckDimsInBounds | stablehlo/dialect/TypeInference.cpp:416-426 | accepts exactly when every dimension is in [0, bound) |
| Types.VerifyBounds | stablehlo/dialect/Base.cpp:240-260 | accepts exactly one bound per dimension and none on a static one |
| Types.EncodingWellFormed | stablehlo/dialect/Base.cpp:268-278 | rebuilding the encoding keeps a type well-formed if and only if it has dimensions or the prototype had no bounds |
| Gather.VerifyGather | stablehlo/dialect/TypeInference.cpp:1503-1645 | the chain of checks decides the dimension-number conditions |
| Gather.PrefixPlusOffset | stablehlo/dialect/TypeInference.cpp:1653-1676 | past the largest removed index, filtering is a shift by the number removed |
| Gather.AdjustedSliceDimIsFiltered | stablehlo/dialect/TypeInference.cpp:1658-1676 | the prefix-plus-offset lookup equals the slice sizes with collapsed and batching dimensions filtered out, and stays in range |
| Gather.SkipOneVisitsAll | stablehlo/dialect/TypeInference.cpp:1694-1701 | skipping the index vector dimension visits every other dimension exactly once, in order |
| Gather.InferGatherShape | stablehlo/dialect/TypeInference.cpp:1648-1703 | the result shape puts filtered slice sizes on offset dimensions and start_indices sizes, in order, on the others |
| Gather.InferGatherBounds | stablehlo/dialect/TypeInference.cpp:1756-1768 | the bounds loop puts start_indices bounds, without the index vector's, on the batch dimensions in order |
| Gather.InferGatherReturnTypeComponents | stablehlo/dialect/TypeInference.cpp:1718-1773 | range check, shape and bounds together give the specified type |
| Gather.InferGatherOp | stablehlo/dialect/TypeInference.cpp:2917-2982 | inference succeeds exactly on accepted attributes and gives the specified type |
| Gather.ScalarGatherKeepsBounds | stablehlo/dialect/TypeInference.cpp:1753-1771 | a gather that collapses its whole operand infers a scalar with the bound of the start indices |
| Gather.BoundsFollowShape | stablehlo/dialect/TypeInference.cpp:1684-1771 | both loops read the same start_indices dimension for each batch dimension; the result is well-formed unless it has rank 0 and start_indices has bounds, which it then carries |
| GatherMeaning.InferredIff | stablehlo/dialect/TypeInference.cpp:2917-2982 | inference succeeds if and only if the dimension lists are ordered, disjoint and in range, paired sizes agree where known, and slice sizes are from 0 to the known operand size, and at most 1 in collapsed and batching dimensions |
| GatherMeaning.InferredShape | stablehlo/dialect/TypeInference.cpp:1648-1703 | offset dimensions take, in order, the slice sizes of the operand dimensions that neither collapse nor batch; the other dimensions take, in order, the sizes of start_indices without the index vector |
| GatherMeaning.InferredBounds | stablehlo/dialect/TypeInference.cpp:1756-1771 | offset dimensions have no bounds, and the others take, in order, those of start_indices without the index vector, unless the result has rank 0 |
| GatherMeaning.SliceVolumeKept | stablehlo/dialect/TypeInference.cpp:2940-2954 | when no slice size is 0, the result sizes at the offset dimensions multiply to the volume of the slice |
| Scatter.ValidateScatterDimensionNumbers | stablehlo/dialect/TypeInference.cpp:1365-1501 | the chain of checks decides the dimension-number conditions |
| Scatter.ScatterSizes | stablehlo/dialect/TypeInference.cpp:4993-5037 | the window sizes are as many as update_window_dims, and the scatter dimensions as many as the remaining update dimensions, so every later index is in range |
| Scatter.MaxUpdateSliceSizes | stablehlo/dialect/TypeInference.cpp:5022-5037 | the two-pointer merge yields exactly the operand sizes outside inserted and batching dimensions, in order |
| Scatter.CheckWindows | stablehlo/dialect/TypeInference.cpp:5039-5058 | accepts exactly when no known window size exceeds the operand's |
| Scatter.CheckScatterDims | stablehlo/dialect/TypeInference.cpp:5060-5081 | the skip counter compares the k-th scatter dimension with the k-th index dimension other than the index vector |
| Scatter.VerifyScatterOp | stablehlo/dialect/TypeInference.cpp:4933-5085 | accepts exactly when inputs, updates, every pair and the shapes of the region satisfy the specified conditions |
| Scatter.AllOkIff | stablehlo/dialect/TypeInference.cpp:4933-5037 | several operands pass if and only if there is one, each passes alone with its updates, operands and updates agree with the first in rank and known sizes, and the region takes two scalars and yields one for each |
| GatherScatterDuality.DimensionNumbersAgree | stablehlo/dialect/TypeInference.cpp:1365-1645 | the scatter checks under the matching attributes and the gather checks accept the same dimension numbers |
| GatherScatterDuality.GatherImpliesScatter | stablehlo/dialect/TypeInference.cpp:2917-2982 | updates compatible with an accepted gather's result are accepted by the matching scatter |
| GatherScatterDuality.ScatterIffGather | stablehlo/dialect/TypeInference.cpp:4964-5082 | scatter accepts updates if and only if some slice sizes make the matching gather produce a compatible shape |
| GatherScatterDuality.ScatterUndoesGather | stablehlo/dialect/TypeInference.cpp:4933-5085 | the inferred result of a gather is accepted as the updates of the matching scatter, if and only if its region combines two scalars into one |
| BoundedDims.MostSpecificIsIntersection | stablehlo/dialect/Base.cpp:318-348 | the merge is the exact intersection and fails if and only if that is empty |
| BoundedDims.LeastSpecificIsHull | stablehlo/dialect/Base.cpp:358-383 | the merge is the least dimension covering both, failing only on different static sizes |
| BoundedDims.ConcatenatedIsSum | stablehlo/dialect/Base.cpp:288-307 | the result covers all sums, its bound is attained, and without a bound every size is reached |
| BoundedDims.FoldMostMeaning | stablehlo/dialect/Base.cpp:404-417 | folding the intersection succeeds if and only if all pairs are compatible, and denotes the common sizes |
| BoundedDims.FoldMostIgnoresOrder | stablehlo/dialect/Base.cpp:404-417 | the fold depends only on the set of operands |
| BoundedDims.FoldLeastMeaning | stablehlo/dialect/Base.cpp:404-417 | folding the branch rule covers every operand, and succeeds when all are compatible with the first |
| BoundedDims.FoldLeastIsLeast | stablehlo/dialect/Base.cpp:404-417 | nothing smaller than the branch fold covers every operand |
| BranchOrder.FoldLeastSomeIff | stablehlo/dialect/Base.cpp:358-417 | folding the branch rule succeeds if and only if no two different sizes come before the first unknown one |
| BranchOrder.FoldLeastAgrees | stablehlo/dialect/Base.cpp:358-417 | folds of the same dimensions that succeed are equal, whatever the order |
| BranchOrder.LeastSpecificOrderIff | stablehlo/dialect/Base.cpp:358-417 | every order folds alike if and only if the static sizes are equal or no size is unknown |
| BoundedDims.LeastSpecificDependsOnOrder | stablehlo/dialect/Base.cpp:358-383 | 2, ?, 3 merge in one order and conflict in another |
| BoundedInference.InferTypeWithCustomFn | stablehlo/dialect/Base.cpp:385-427 | the double loop over types and dimensions equals a fold per dimension, failures included |
| BoundedInference.VerifyCompatibleShapeWithBounds | stablehlo/dialect/Base.cpp:58-83 | the early-exit loops decide compatibility of sizes and of sizes against bounds |
| BoundedInference.TypesCompatibleByDim | stablehlo/dialect/Base.cpp:58-83 | compatibility of types is compatibility of every pair of dimensions |
| BoundedInference.MostSpecificExistsIff | stablehlo/dialect/Base.cpp:385-417 | success if and only if ranks are equal and every pair passes the compatibility check |
| BoundedInference.MostSpecificIgnoresOrder | stablehlo/dialect/Base.cpp:385-427 | sizes, bounds and success are the same for every order; the whole type exactly when both or neither order starts with bounds, or every dimension is static in some type or bounded in none |
| BoundedInference.EncodingLost | stablehlo/dialect/Base.cpp:398-426 | ? with bound 4 and a bare ? keep the bound in one order and lose it in the other |
| BoundedInference.InferredWellFormed | stablehlo/dialect/Base.cpp:385-427 | both merges infer types that satisfy verifyBounds |
| BoundedInference.InferredSizes | stablehlo/dialect/Base.cpp:385-427 | the most specific type knows the sizes that some operand knows, the least specific one those that all operands know alike; without bounds on the first type the result has none |
| BoundedInference.LeastSpecificSound | stablehlo/dialect/Base.cpp:385-427 | a shape of any operand type is a shape of the least specific type |
| BoundedInference.LeastSpecificLeast | stablehlo/dialect/Base.cpp:385-427 | with bounds on the first type, a type that holds all shapes of the operands holds all shapes of the least specific type |
| BoundedInference.MostSpecificSound | stablehlo/dialect/Base.cpp:385-427 | the most specific type holds all common shapes, and only those when the first type has bounds |
| Concatenation.InferConditionalOp | stablehlo/dialect/TypeInference.cpp:1776-1820 | a conditional succeeds exactly when every branch takes no arguments and passes the check against the first: the merge never fails after it |
| Concatenation.ConditionalIff | stablehlo/dialect/TypeInference.cpp:1776-1808 | accepted if and only if the selector has rank 0, there is a branch, and every branch takes no arguments and yields as many results as the first, of the same ranks and with a common size in every dimension |
| BranchOrder.ConditionalOrderIff | stablehlo/dialect/TypeInference.cpp:1791-1808 | every order of the branches is accepted if and only if they are pairwise compatible, and all are treated alike if and only if every or no branch is compatible with all |
| BranchOrder.AcceptedOrdersAgree | stablehlo/dialect/TypeInference.cpp:1791-1819 | orders of the branches that are accepted infer the same shapes, and the same types if and only if both or neither start with bounds, or every dimension is static in all branches or unbounded in one |
| BranchOrder.BranchBoundLost | stablehlo/dialect/TypeInference.cpp:1810-1818 | ? with bound 4 and 3 are accepted in both orders and keep the bound in one |
| BranchOrder.BranchOrderMatters | stablehlo/dialect/TypeInference.cpp:1791-1808 | branches of sizes ?, 2, 3 are accepted, and as 2, ?, 3 rejected |
| Concatenation.ConditionalExact | stablehlo/dialect/TypeInference.cpp:1810-1818 | a result has a known size exactly when all branches have it; otherwise, with bounds on the first branch, it can have any size up to what some branch can have; without, it has no bounds |
| Concatenation.ConditionalSound | stablehlo/dialect/TypeInference.cpp:1810-1818 | whatever shape a branch yields is a shape of the conditional's result |
| Concatenation.InferConcatenateOp | stablehlo/dialect/TypeInference.cpp:2057-2142 | the loops over inputs and dimensions compute the specified type |
| Concatenation.ConcatenateSound | stablehlo/dialect/TypeInference.cpp:2089-2123 | concatenating concrete shapes gives a shape of the inferred type |
| Concatenation.ConcatenatedIff | stablehlo/dialect/TypeInference.cpp:2057-2123 | accepted if and only if the ranks are equal, the dimension exists, and the inputs have a size in common in every other dimension |
| Concatenation.ConcatenateExact | stablehlo/dialect/TypeInference.cpp:2083-2142 | outside the dimension the result has exactly the common sizes; along it, the size is the sum of known sizes, or else the bound is the sum of sizes and bounds when every input has one |
| Concatenation.ConcatenatedWellFormed | stablehlo/dialect/TypeInference.cpp:2089-2142 | the inferred type satisfies verifyBounds |
| Windows.StridedBoundCounts | stablehlo/dialect/TypeInference.cpp:595-607 | the result counts exactly the offsets at which the window fits, if and only if not both bound and window are 0 |
| Windows.StridedBoundMonotone | stablehlo/dialect/TypeInference.cpp:595-607 | a larger base never has fewer positions, and there are never fewer than 0 |
| Windows.DilatedBoundMonotone | stablehlo/dialect/TypeInference.cpp:576-585 | dilation is monotone and keeps non-empty arrays non-empty |
| Windows.VerifyWindowAttributesAndInferWindowDimensions | stablehlo/dialect/TypeInference.cpp:764-839 | optional lists default to neutral values; accepted exactly when all lengths match and sizes, strides and dilations are positive |
| WindowMeaning.WindowIff | stablehlo/dialect/TypeInference.cpp:764-839 | attributes make a window if and only if each is absent or has an entry per dimension, and known sizes, strides and dilations are at least 1 |
| WindowMeaning.WindowIs | stablehlo/dialect/TypeInference.cpp:801-836 | a window dimension takes each value from its own attribute; an absent stride or dilation is 1, and absent padding 0 |
| Windows.InferWindowOutputShape | stablehlo/dialect/TypeInference.cpp:848-871 | per dimension the strided bound of the padded dilated base, unknown if base or window is |
| Windows.InferReduceWindowOp | stablehlo/dialect/TypeInference.cpp:3225-3267 | accepts exactly compatible inputs of the window's rank with a padding attribute of pairs and a valid window; sizes and bounds of every input go through the same window arithmetic |
| WindowMeaning.ReduceWindowIff | stablehlo/dialect/TypeInference.cpp:1128-1175 | accepted if and only if there is an input, all have the rank of the window and known sizes equal to those of the first, the padding attribute is absent or holds pairs, and the window is valid; each input then has its result, inferred with this window |
| WindowMeaning.ReduceWindowExact | stablehlo/dialect/TypeInference.cpp:3250-3264 | the result size is known when operand and window size are, and counts the places of the dilated window; a bound of the operand gives the bound that counts the places for an operand of that size |
| Windows.ConvertPaddingAttribute | stablehlo/dialect/TypeInference.cpp:528-551 | an absent attribute gives no pairs, an N x 2 one its rows, and any other shape fails |
| Windows.PairCount | stablehlo/dialect/TypeInference.cpp:542-550 | an N x 2 attribute gives N pairs |
| Windows.OutputCountsPositions | stablehlo/dialect/TypeInference.cpp:848-871 | for every verified window the output size counts exactly the positions at which the dilated window fits the padded base |
| Windows.PaddedBaseNonNegativeIff | stablehlo/dialect/TypeInference.cpp:860-866 | the padded base is non-negative for every size of a dimension if and only if padding does not shrink the smallest below 0 |
| Windows.NegativePadding | stablehlo/dialect/TypeInference.cpp:860-866 | a verified window whose padded base is -1 |
| Windows.ReduceWindowSound | stablehlo/dialect/TypeInference.cpp:3250-3264 | the inferred type is well-formed and holds the window output of every concrete input shape |
| Windows.InferPadOp | stablehlo/dialect/TypeInference.cpp:3129-3184 | the loop computes the specified sizes and bounds, and rejects negative interior padding and negative results |
| WindowMeaning.PaddedIff | stablehlo/dialect/TypeInference.cpp:3129-3170 | accepted if and only if padding is given for every dimension, interior padding is not negative, and no known size or bound is padded to a negative length |
| WindowMeaning.PadExact | stablehlo/dialect/TypeInference.cpp:3145-3184 | size and bound of the result are the padded lengths of those of the operand, where they are known |
| Windows.PadIsDilation | stablehlo/dialect/TypeInference.cpp:3163-3166 | the padded size is low + dilated size + high |
| Windows.PadSound | stablehlo/dialect/TypeInference.cpp:3129-3184 | padding a concrete shape gives a shape of the inferred type, which is well-formed |
| Windows.InferSliceOp | stablehlo/dialect/TypeInference.cpp:3438-3497 | accepts exactly in-range, ordered indices with positive strides; the result is static and has no bounds |
| WindowMeaning.SliceableIff | stablehlo/dialect/TypeInference.cpp:3438-3485 | accepted if and only if start and limit are ordered, not negative and within the known size or bound, and strides are positive |
| WindowMeaning.SliceCounts | stablehlo/dialect/TypeInference.cpp:3486-3497 | the sizes count the positions start, start + stride, ... below the limit |
| Windows.SliceUndoesPad | stablehlo/dialect/TypeInference.cpp:3129-3184 | a non-negative pad followed by slice(low, size-high, interior+1) restores the shape |
| ReducerMatching.VerifyReducerShape | stablehlo/dialect/TypeInference.cpp:992-1126 | the shape checks decide that counts agree, results match arguments and initial values, and arguments embed into the allowed dimensions |
| ReducerMatching.ScalarRegionIff | stablehlo/dialect/TypeInference.cpp:4971-4981 | as scatter calls it, the verifier accepts exactly regions over one or more scalars |
| ReducerMatching.RegionIff | stablehlo/dialect/TypeInference.cpp:992-1126 | for any shapes, a region passes if and only if there is an initial value, and for each one result and two arguments, the result agreeing with the other three in rank and known sizes, and the second argument, for some values of the unknown sizes, a subsequence of the allowed dimensions |
| ReducerMatching.StaticRegionIff | stablehlo/dialect/TypeInference.cpp:992-1126 | for known shapes, a region passes if and only if its results have the shapes of the initial values, its arguments are these shapes twice, and each of them can be a subsequence of the allowed dimensions |
| ReducerMatching.MatchReducerArgument | stablehlo/dialect/TypeInference.cpp:1097-1122 | the greedy scan accepts if and only if some order-preserving embedding into the allowed dimensions exists |
| DotGeneral.CheckDotGeneralConstraints | stablehlo/dialect/TypeInference.cpp:2373-2459 | the chain of checks decides the specified conditions |
| DotGeneral.InferDotGeneralOp | stablehlo/dialect/TypeInference.cpp:2461-2532 | batch dimensions merged, then the free ones of lhs and rhs in order, with bounds alongside |
| DotGeneral.DotTypeIff | stablehlo/dialect/TypeInference.cpp:2373-2520 | a type is inferred if and only if the dimension lists are distinct, disjoint, in range and paired, paired batching dimensions have a size in common, and paired contracting sizes agree where known |
| DotGeneral.DotGeneralExact | stablehlo/dialect/TypeInference.cpp:2461-2532 | at rank 1 or more the result has exactly the sizes that both batching dimensions of a pair have, and then size and bound of every free dimension of lhs and of rhs, in order |
| DotGeneral.DotTypeWellFormedIff | stablehlo/dialect/TypeInference.cpp:2524-2530 | the inferred type satisfies verifyBounds if and only if some dimension is batching or free, or neither operand has bounds; at rank 0 it carries the bounds of lhs, or of rhs if lhs has none |
| DotGeneral.ScalarResultKeepsBounds | stablehlo/dialect/TypeInference.cpp:2524-2530 | contracting two bounded vectors infers a scalar with a bound |
| DotGeneral.DotGeneralSound | stablehlo/dialect/TypeInference.cpp:2461-2532 | the product of concrete shapes is a shape of the inferred type |
| DotGeneral.VolumeConserved | stablehlo/dialect/TypeInference.cpp:2373-2522 | volume(lhs) * volume(rhs) = volume(result) * batch * contracting^2 |
| DotSpeculation.WalkFreeDims | stablehlo/dialect/StablehloOps.cpp:985-997 | resultIndex always names the result dimension that inference filled from the current free dimension |
| DotSpeculation.GetSpeculatability | stablehlo/dialect/StablehloOps.cpp:960-1000 | the loops decide the specified condition |
| DotSpeculation.SpeculatableSound | stablehlo/dialect/StablehloOps.cpp:960-1000 | for every concrete operand shape of a speculatable verified op all checks succeed and the result matches the declared shape |
| DotSpeculation.SpeculatableComplete | stablehlo/dialect/StablehloOps.cpp:960-1000 | unless an unknown operand size has bound 0, speculatable if and only if no concrete operands fail the checks or mismatch the declared shape |
| DotSpeculation.DeclaredBoundNotChecked | stablehlo/dialect/TypeInference.cpp:4254-4276 | a verified speculatable op whose concrete result exceeds its declared bound |
| DotSpeculation.DeclaredTypeIff | stablehlo/dialect/TypeInference.cpp:4254-4276 | a speculatable verified op always yields the declared type, bounds included, if and only if each declared bound covers the inferred dimension |
| Transpose.InferTransposeOp | stablehlo/dialect/TypeInference.cpp:3548-3580 | accepts exactly permutations of the dimensions and permutes sizes and bounds |
| Transpose.TransposeExact | stablehlo/dialect/TypeInference.cpp:3567-3578 | the result type holds exactly the transposed shapes of the operand |
| Transpose.GetSpeculatability | stablehlo/dialect/StablehloOps.cpp:3192-3203 | the loop decides the specified condition |
| Transpose.SpeculatableSound | stablehlo/dialect/StablehloOps.cpp:3192-3203 | a speculatable verified transpose never yields a shape other than declared |
| Transpose.SpeculatableComplete | stablehlo/dialect/StablehloOps.cpp:3192-3203 | unless an unknown size has bound 0, speculatable if and only if it can never mismatch |
| RaggedDot.CheckRaggedDotConstraints | stablehlo/dialect/ChloOps.cpp:501-647 | the three-mode checks decide the specified conditions |
| RaggedDot.RaggedBatchIff | stablehlo/dialect/ChloOps.cpp:501-647 | for a ragged batching dimension: no group dimension, and group sizes given once or over the batching dimensions before it |
| RaggedDot.RaggedContractingIff | stablehlo/dialect/ChloOps.cpp:501-647 | for a ragged contracting dimension: no group dimension, and group sizes given once or over the batching and the earlier contracting dimensions |
| RaggedDot.RaggedFreeIff | stablehlo/dialect/ChloOps.cpp:501-647 | for another ragged dimension: one free rhs group dimension as large as the number of groups where both are known, and group sizes given once or over the batching and the earlier free dimensions |
| RaggedDot.InferRaggedDotOutputDimensions | stablehlo/dialect/ChloOps.cpp:649-682 | the loops build the specified dimensions in every mode |
| RaggedDot.RaggedExact | stablehlo/dialect/ChloOps.cpp:649-682 | the result lists the number of groups if the ragged dimension is contracting, the batching sizes as lhs has them, and then, in order, the free sizes of lhs and those of rhs without the group dimension |
| RaggedDot.BatchSizeFromRhsOnly | stablehlo/dialect/ChloOps.cpp:668-671 | a batch size of ? on the lhs and 7 on the rhs is 7 for dot_general and ? for ragged dot |
| RaggedDot.RaggedFromDotGeneral | stablehlo/dialect/ChloOps.cpp:649-682 | the result is derived from the type dot_general infers (group size in front, as is, or group dimension deleted) if and only if no batch size is known from rhs alone |
| StructSyntax.ParseStruct | stablehlo/dialect/StablehloOps.cpp:3590-3623 | the keyword passes parse exactly like a one-entry-at-a-time parser, and at most keywords + 1 passes are made |
| StructSyntax.EntriesParse | stablehlo/dialect/StablehloOps.cpp:3590-3623 | printed entries in any order are accepted if and only if no field repeats, and then assign exactly those fields |
| StructSyntax.StructAcceptsIff | stablehlo/dialect/StablehloOps.cpp:3590-3623 | text without question marks is accepted if and only if it is entries of different fields in any order, with or without a comma after them, and exactly these fields are assigned |
| StructSyntax.OrderIsImmaterial | stablehlo/dialect/StablehloOps.cpp:3590-3623 | any reordering of the entries parses to the same value |
| StructSyntax.PrintField | stablehlo/dialect/StablehloOps.cpp:3628-3645 | a field is printed unless it has its default value, and only then does the separator become a comma |
| StructSyntax.PrintStruct | stablehlo/dialect/StablehloOps.cpp:3646-3658 | exactly the non-default fields are printed, in schema order, separated by commas |
| StructSyntax.StructRoundTrip | stablehlo/dialect/StablehloOps.cpp:3590-3658 | parsing the printed struct gives back every field, elided defaults included, and leaves what follows |
| StructSyntax.ListTokensAt | stablehlo/dialect/StablehloOps.cpp:3628-3645 | a list is printed as its numbers with commas between them |
| AttributeSyntax.ScatterRoundTrip | stablehlo/dialect/StablehloOps.cpp:3661-3701 | every scatter dimension-numbers attribute is read back from its printed form |
| AttributeSyntax.GatherRoundTrip | stablehlo/dialect/StablehloOps.cpp:3704-3743 | every gather dimension-numbers attribute is read back from its printed form |
| AttributeSyntax.DotRoundTrip | stablehlo/dialect/StablehloOps.cpp:3746-3780 | every dot dimension-numbers attribute is read back from its printed form |
| AttributeSyntax.ScatterText | stablehlo/dialect/StablehloOps.cpp:3661-3671 | every field is printed under its own keyword, in a fixed order with commas, unless it is empty or 0 |
| AttributeSyntax.GatherText | stablehlo/dialect/StablehloOps.cpp:3704-3712 | every field is printed under its own keyword, in a fixed order with commas, unless it is empty or 0 |
| AttributeSyntax.DotText | stablehlo/dialect/StablehloOps.cpp:3746-3755 | every field is printed under its own keyword, in a fixed order with commas, unless it is empty |
| ConvDimensions.PrintDims | stablehlo/dialect/StablehloOps.cpp:3876-3903 | the dims array holds, at each position, the last dimension written there, and is printed comma-separated |
| ConvDimensions.ParseGroup | stablehlo/dialect/StablehloOps.cpp:3989-4104 | the loop over maps and allowed sets, and the completeness checks, invert a duplicate-free gap-free list |
| ConvDimensions.LayoutOfRegular | stablehlo/dialect/StablehloOps.cpp:3876-3890 | a duplicate-free in-range group prints each of its dimensions once, and its layout leads back to it |
| ConvDimensions.GroupText | stablehlo/dialect/StablehloOps.cpp:3797-3903 | in the printed list of a group, batch and feature dimension stand as b and f at their positions, kernel input and output feature dimension as i and o, and spatial dimension k as the number k |
| ConvDimensions.LayoutIff | stablehlo/dialect/StablehloOps.cpp:3876-3890 | the printed list of an in-range group names every dimension once if and only if no position is taken twice, except that of the first spatial dimension by another spatial one |
| ConvDimensions.RegularOfLayout | stablehlo/dialect/StablehloOps.cpp:4061-4101 | a gap-free list without repetitions comes from a duplicate-free in-range group, which prints as that list |
| ConvDimensions.GroupParsedIff | stablehlo/dialect/StablehloOps.cpp:3989-4104 | one group is read if and only if the tokens are the printed form of a duplicate-free in-range group |
| ConvAttribute.IsConvolutionDimensionsPrintable | stablehlo/dialect/StablehloOps.cpp:3843-3862 | true exactly when every index of each group is below the rank of the group |
| ConvAttribute.PrintConvolutionDimensionsRaw | stablehlo/dialect/StablehloOps.cpp:3822-3839 | the raw form spells out all nine fields in order |
| ConvAttribute.PrintConv | stablehlo/dialect/StablehloOps.cpp:3865-3926 | compressed if printable, raw otherwise |
| ConvAttribute.CompressedText | stablehlo/dialect/StablehloOps.cpp:3865-3926 | in range and without duplicates, the lists of input, kernel and output are printed in this order, each with its own named dimensions at the positions of the attribute |
| ConvAttribute.RawText | stablehlo/dialect/StablehloOps.cpp:3822-3839 | out of range, each of the nine fields is printed under its own keyword |
| ConvAttribute.ParseConv | stablehlo/dialect/StablehloOps.cpp:4142-4152 | the attribute parser chooses the raw or the compressed parser and consumes the brackets |
| ConvAttribute.CompressedExact | stablehlo/dialect/StablehloOps.cpp:3977-4152 | text without the raw marker is accepted if and only if it is the printed form of in-range, duplicate-free groups, which are what is read |
| ConvAttribute.ConvRoundTripIff | stablehlo/dialect/StablehloOps.cpp:3822-4152 | an attribute round-trips if and only if some index is out of range or no group repeats a dimension |
| ConvAttribute.PrintedIsReread | stablehlo/dialect/StablehloOps.cpp:3865-4152 | text of an in-range attribute is accepted if and only if in no group a position is taken twice, except that of the first spatial dimension by another spatial one; it is then read as the attribute its lists lead back to, the printed one exactly when it has no duplicates |
| ConvAttribute.DuplicatesMisread | stablehlo/dialect/StablehloOps.cpp:3876-3890 | an in-range duplicate that is read back as a different attribute |
| ArgMax.BodySelects | stablehlo/dialect/StablehloOps.cpp:4338-4403 | value and index come from the same argument: the greater value, NaN first, smaller index on ties |
| ArgMax.BodyLaws | stablehlo/dialect/StablehloOps.cpp:4352-4403 | the body is commutative, associative and idempotent |
| ArgMax.ReduceIsArgMax | stablehlo/dialect/StablehloOps.cpp:4352-4403 | every tree yields the maximum (NaN if present) with the smallest index holding it |
| ArgMax.TreesAgree | stablehlo/dialect/StablehloOps.cpp:4352-4403 | any two trees over the same entries reduce to the same pair |

## Left out

- Element types, quantization, precision and dot algorithms: case lists that a reading settles.
- Diagnostics, locations and MLIR attribute storage: failures are only success or failure.
- `int64_t` overflow: sizes, strides and products are mathematical integers.
- A missing or zero-sized mesh axis: division by a zero group size has no defined meaning, so axis sizes are at least 1.
- Lexing: characters, whitespace and integer overflow in literals; the model starts from tokens.
- Scatter.VerifyScatterOp: element types of the region are not modelled; its argument and result shapes are.
- Concatenation.InferConditionalOp: element types and tuple results of the branches are not modelled.
- ReducerMatching.VerifyReducerShape: element types and their promotion are not modelled; counts and shapes are.
- Windows.InferReduceWindowOp: element types are not modelled; the initial values are left out because inference does not read them.
- Bytecode, serialization, VHLO versions and `unflattenTupleTypes` are not part of this model.
- Sparsity encodings: an encoding is a bounds list or absent.
- Convolution inference and convolution speculatability.
- Reification of gather shapes with SSA values: only the `int64_t` instance of the template is modelled.
- Signed zeros and rounding in the argmax body: a value is a NaN or a totally ordered number.
- ScatterImpliesGather: the slice sizes it builds need not be the ones a caller had in mind, since an unknown update size leaves them open.
- Windows.ReduceWindowSound: the concrete output claim needs known window sizes, because an unknown window size has no concrete output.
- Windows.InferPadOp: padding lists of equal length are a precondition, as an operation trait checks that (stablehlo/dialect/StablehloOps.td:3293).
- Windows.InferSliceOp: index lists of equal length are a precondition, as an operation trait checks that (stablehlo/dialect/StablehloOps.td:1880).
