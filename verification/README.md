# A verified model of CHiLL's dependences, loop transformations and sparse kernels

CHiLL transforms loop nests. It keeps, for every statement, an affine map from
iterations to a schedule, and between statements a graph of dependence vectors;
a transformation changes both. The same repository holds sparse matrix kernels
and a driver that decides whether their loops are fully parallel. This project
models five parts and proves what they promise.

1. **Dependence vectors and graphs.** A vector is a box of per-loop distance
   intervals; its meaning is the set of integer vectors in the box. The scans over
   interval ends are proved to answer questions about that set: `normalize` is an
   exact disjoint cover by pieces of one sign, `permute` throws exactly when a
   permuted distance is negative and otherwise loses nothing, and permuting back
   gives the original set.
2. **Loop transformations.** `Loop` is a class whose methods rewrite iteration
   maps, loop-level tables and the graph in place. `permute`, `skew`, `scale`,
   `reverse` and `shift` are each proved against their whole outcome, exceptions
   included. What an outcome is, is stated apart from how it is computed: where
   `permute` moves levels, distances, tags and labels (`PermuteMoves`), the least
   interval `skew` stores (`SkewMoves`), the distances `shift` moves (`ShiftMoves`),
   and when each of them throws. On top of that: whatever the graph covers at the
   start it covers after every run that does not throw (`RunKeepsCovered`), an accepted permutation
   leaves the memory of the original nest (`PermutePreservesMemory`), and so does
   every run that ends with a graph free of negative distances
   (`LegalRunPreservesMemory`).
3. **The control tree.** The tree is built as linked nodes with parent links. The
   builder ends, its trees are the ones the unique cut into loops, ifs and runs
   between them describes (`BlockForestIs`), extraction lists every statement exactly
   once in lexical order,
   `is_dependence_valid` is exact for the order in which the tree executes (ties
   across the arms of one if aside), and the schedule a tree starts with runs
   instances in exactly that order. Two grouping algorithms are proved as well:
   `mapRefstoStatements` and `sort_cudaized_statements`.
4. **From references to memory.** `relation2dependences` turns the relation of two
   references into vectors that cover every distance, each with the sign of its
   list and for distances of its own, no wider than the bounds it is given; the
   initial double loop enters exactly these (`InitialEdge`) so that the graph covers
   every conflict of the source in the order in which the source runs it. Every run of
   transformations keeps that (`ConflictsStayCovered`), and for one statement a run
   of permutations, or a run that ends legally, leaves the memory the source leaves
   (`PermutedSourceKeepsMemory`, `LegalSourceKeepsMemory`).
5. **Sparse kernels.** The column and row forward solves solve the system in place
   and agree; column scatter and row gather compute the same product; "fully
   parallel" means every order of the iterations leaves the same memory, and the
   loops that have the property are characterized.

Files, in the order they build on one another: `Bounds` (results, extended
integers, lexicographic order, permutations), `Lists`, `DependenceVector`,
`DependenceGraph`, `GraphLaws`, `Execution` (iterations over a memory), `Affine`,
`LoopState` (states and outcomes as values), `Loop` (the class), `LoopSafety`,
`LoopMeaning`, `LoopFacts`, `PermuteLaws`, `SkewLaws`, `ShiftLaws`, `RunLaws`;
`IrTree`, `IrNodes`, `TreeOrder`, `DependenceOrder`, `Schedule`, `TreeLaws`;
`RelationVectors`, `DataTests`, `InitialGraph`, `InitialState`, `SourceMeaning`,
`InitialLaws`;
`ReferenceMap`; `CudaizedSort`; `SparseMatrix`, `SparseKernels`, `ParallelKernels`.

`dafny verify dfyconfig.toml` checks the whole project.

## What the code does that its names or comments do not say

- `hasPositive` and `hasNegative` ask whether every distance is positive or
  negative at the dimension, not whether one is. `skew` therefore throws only for
  vectors all of whose carried distances turn around (`LoopFacts.SkewThrowsIff`).
  Whether some distance turns around is decided by a scan of lower ends over the
  worst intervals (`LoopFacts.SkewIsIllegalIff`); every exception is justified
  (`LoopFacts.ThrowIsJustified`), and an accepted skew can be illegal
  (`LoopFacts.AcceptedSkewCanBeIllegal`).
- `isCarried` compares a signed dimension with an unsigned size, so a negative
  dimension acts like one past the end. `isZero()` throws on an empty vector.
- `permute` checks the level range only from the second active statement on. The
  checks keep the levels in range exactly when more than one statement is active
  (`LoopFacts.LevelRangeCheckedIff`); a nest with one loop accepts the interchange
  of levels 1 and 2 (`LoopFacts.MissingLevelAccepted`).
- `permute` throws, after it has changed the iteration maps, when a control
  dependence lies between two permuted statements: the vectors
  chill/loop_unroll.cc:593-597 makes have no bounds. The exception is
  invalid_argument unless an earlier vector is turned around
  (`DependenceGraphs.ControlVectorStops`, `DependenceGraphs.GraphPermuteRejects`).
- `permute` computes a permuted graph, uses only its exceptions, and stores another
  one. On every edge, vector by vector, the two hold the same distances exactly when
  control vectors with bounds are unaffected (`LoopFacts.StoredGraphAgreesIff`); on
  the graphs the program makes they always do (`LoopFacts.BuiltGraphsAgree`).
- `permute` moves loops by the permutation but reads the parallel tags through its
  inverse, which agrees exactly when the permutation is its own inverse
  (`LoopFacts.TagsFollowLoopsIff`). This has no effect: the program never sets a tag
  (chill/loop.cc:885, 1068 and 6813, chill/loop_tile.cc:671,
  chill/loop_basic.cc:2293), and tags that are never set stay unset
  (`LoopFacts.RunKeepsUntagged`, `InitialLaws.NoRunIsTagged`).
- `is_dependence_valid` also rejects a dependence from the else-part of an if to its
  then-part when no lower end decides, although no run violates it
  (`DependenceOrder.Query.AllForwardIff`, `DependenceOrder.TieAcrossArmsRejected`).
- A rejected vector enters the initial graph reversed, and only reversed. For the
  vectors the program finds this is always right (`InitialGraph.ProducedIsRightWay`).
  For vectors in general it is right exactly when no distance that can occur runs
  against the direction chosen, except on an edge from a statement to itself whose
  box has the opposite distance too (`InitialGraph.EnteredCoversIff`); between two
  statements a second call of the test decides it (`InitialGraph.RightWayByScan`).
- `build_ir_tree` gives a node without children to an if that is not inside a
  block, so its statements are lost, and a compound statement next to another
  non-branching statement stays opaque inside a block even when it contains loops
  (`SourceTrees.ExtractsEveryStatementIff`, `SourceTrees.BlocksAreStraightIff`).
  The header promises that a block has no further structure.
- Payloads of if nodes repeat exactly when an else-part contains an if that is not
  hidden in a block (`SourceTrees.IfPayloadsDistinctIff`).
- `sort_cudaized_statements` drops a group whose key an earlier group has
  (`CudaizedSort.Input.LaterGroupLost`).

## How the program is modelled

- Interval ends are extended integers; the sentinels `posInfinity` and
  `-posInfinity` are the two infinite ends. A vector is well formed when every
  interval is non-empty. Data vectors of a loop state have as many intervals as the
  state has dimensions; control vectors may have any number, also none.
- `setLexicalOrder`, which rests on graph sorting, is a parameter of `permute`: the
  constants it writes, or its exception.
- What the C++ needs of a caller to index within bounds is a precondition:
  `LoopStates.PermuteInBounds` for the levels of `permute`, and
  `JumblesInBounds` for vectors on edges across the permuted set.
- Exceptions are values of a `Result` type: invalid_argument, ir_error, loop_error.
- All levels are original and every statement has as many as there are dependence
  dimensions, as `buildIS` sets them up; an iteration map is a list of integer
  affine rows, one per level, plus its lexical constants.
- Iterations read and write cells of a memory; the written values are any function
  of the values read. Reals stand for doubles.
- A run of a control tree is parametrized by the values each loop takes, which
  increase, and by the conditions of its ifs in each iteration: the then-part runs
  when the condition holds, the else-part of the same if when it does not.
- Omega's relations are a parameter with a meaning, the set of distances between
  related iterations. The library is asked to decide emptiness, to bound distances
  soundly, and to add a constraint on one level (`RelationVectors.Exact`); that this
  can be met is `RelationVectors.ExactIsPossible`.
- What `checkReductionDependence` decides is a parameter: the pairs of references
  whose vectors it holds back, and those it appends after all.
- `is_dependence_valid` receives nodes linked by parent fields; the ghost arguments
  name the tree they belong to.

## Model

| member | source | states |
|---|---|---|
| `DependenceVectors.DependenceVector.HasNegativeBeenCarriedAt` | chill/dep.cc:161-177 | throws on a non-data vector; true exactly when dim exists and some member has a zero prefix and a negative value there |
| `DependenceVectors.DependenceVector.HasBeenCarriedAt` | chill/dep.cc:179-194 | throws on a non-data vector; true exactly when dim exists and some member has a zero prefix and a nonzero value there |
| `DependenceVectors.DependenceVector.HasBeenCarriedBefore` | chill/dep.cc:196-213 | for a data vector, true exactly when every member has a nonzero value before dim (or, past the end, anywhere) |
| `DependenceVectors.DependenceVector.IsZeroVector` | chill/dep.cc:215-217 | true exactly when the zero vector is the only member; the empty vector throws |
| `DependenceVectors.DependenceVector.IsZeroUpTo` | chill/dep.cc:219-228 | true exactly when every member is zero up to and including dim; a dim outside the vector throws |
| `DependenceVectors.DependenceVector.IsPositive` | chill/dep.cc:230-240 | true exactly when every member is lexicographically positive |
| `DependenceVectors.DependenceVector.IsNegative` | chill/dep.cc:242-252 | true exactly when every member is lexicographically negative |
| `DependenceVectors.DependenceVector.IsAllPositive` | chill/dep.cc:254-260 | true exactly when every component of every member is non-negative |
| `DependenceVectors.DependenceVector.IsAllNegative` | chill/dep.cc:262-268 | true exactly when every component of every member is non-positive |
| `DependenceVectors.DependenceVector.HasPositive` | chill/dep.cc:270-279 | despite its name, true exactly when every member is positive at dim; a bad dim throws |
| `DependenceVectors.DependenceVector.HasNegative` | chill/dep.cc:281-290 | despite its name, true exactly when every member is negative at dim; a bad dim throws |
| `DependenceVectors.DependenceVector.IsCarried` | chill/dep.cc:292-314 | true exactly when some member has a zero prefix before the dimension really examined and a value of at most the given size there; a negative dim acts like one past the end, and a size limit that is not positive throws |
| `DependenceVectors.DependenceVector.ZeroPrefixMember` | chill/dep.cc:161-314 | the prefix test all queries make on intervals is the question whether some member has a zero prefix |
| `DependenceVectors.DependenceVector.CarriedMember` | chill/dep.cc:292-314 | isCarried's interval form holds exactly when a member witnesses it |
| `DependenceVectors.DependenceVector.LowerScanDecides` | chill/dep.cc:230-240 | lower ends 0,...,0,positive make every member lexicographically positive |
| `DependenceVectors.DependenceVector.UpperScanDecides` | chill/dep.cc:242-252 | upper ends 0,...,0,negative make every member lexicographically negative |
| `DependenceVectors.DependenceVector.CanPermute` | chill/dep.cc:316-329 | rejects a pi of the wrong length; otherwise true exactly when no member becomes lexicographically negative under pi |
| `DependenceVectors.DependenceVector.PermutedMeaning` | chill/dep.cc:359-368 | permuting the interval ends permutes the set of distances, in both directions |
| `DependenceVectors.DependenceVector.SplitInterval` | chill/dep.cc:331-357 | cutting one interval in two cuts the box into two disjoint boxes that cover it |
| `DependenceVectors.DependenceVector.DefiniteFrom` | chill/dep.cc:331-357 | a zero prefix followed by an interval on one side of zero fixes the sign of the whole box |
| `DependenceVectors.DependenceVector.CutDimension` | chill/dep.cc:334-352 | one step of normalize's loop pushes the specified pieces and leaves the specified vector |
| `DependenceVectors.DependenceVector.PiecesFromSplit` | chill/dep.cc:331-357 | from any dimension on, normalize yields an exact, pairwise disjoint cover by pieces of one lexicographic sign |
| `DependenceVectors.DependenceVector.PiecesFromLength` | chill/dep.cc:331-357 | at most 2(n-i)+1 pieces remain to be pushed from dimension i |
| `DependenceVectors.DependenceVector.Normalize` | chill/dep.cc:331-357 | an exact, pairwise disjoint cover of the box, at most 2n+1 pieces, each all positive, all negative or exactly zero |
| `GraphLaws.NormalizeLaw` | chill/dep.cc:331-357 | the pieces are a disjoint cover, and each is the box with zeros up to some dimension, one whole side of zero there, and the old intervals behind it |
| `GraphLaws.PiecesAreParts` | chill/dep.cc:331-357 | the same from any dimension on |
| `DependenceVectors.DependenceVector.Violated` | chill/dep.cc:370-383 | permute's scan: true exactly when a member of the permuted box is lexicographically negative |
| `DependenceVectors.DependenceVector.Permute` | chill/dep.cc:359-388 | invalid_argument, ir_error or normalized pieces, decided by the members of the permuted box and the quasi and scalar flags |
| `DependenceVectors.DependenceVector.PermuteIsExact` | chill/dep.cc:316-388 | for an ordinary vector: throws exactly when a permuted member is negative, exactly when canPermute is false; otherwise the pieces hold exactly the permuted distances |
| `DependenceVectors.DependenceVector.AcceptedPiecesNonNegative` | chill/dep.cc:359-388 | an accepted permutation of an ordinary vector returns only pieces whose members are all positive, or all zero |
| `DependenceVectors.DependenceVector.PermuteRoundTrip` | chill/dep.cc:359-388 | for a vector without negative members and an accepted pi, permuting every piece by the inverse never throws and the union is the original set |
| `DependenceVectors.DependenceVector.Reverse` | chill/dep.cc:390-412 | the reversed vector holds exactly the negated distances, exchanges W2R and R2W, and is marked quasi |
| `DependenceGraphs.DependenceGraph.ConnectTwice` | chill/dep.cc:486-489 | connecting vectors one after the other is connecting their concatenation |
| `DependenceGraphs.DependenceGraph.Permute` | chill/dep.cc:473-507 | the permuted graph, or the exception of the first rejected vector, edge by edge as specified, control vectors of any length included |
| `DependenceGraphs.DependenceGraph.Subspace` | chill/dep.cc:523-543 | the graph whose edges keep control vectors and the data vectors carried at dim |
| `DependenceGraphs.DependenceGraph.MappedEdge` | chill/dep.cc:473-507 | rebuilding a graph edge by edge gives each edge the mapped list, and none when the list is empty |
| `DependenceGraphs.PermuteList` | chill/dep.cc:486-489 | the pieces of all vectors of an edge, or the first exception |
| `DependenceGraphs.JumbleVector` | chill/dep.cc:496-503 | every dimension pi moves becomes unknown; the others keep their interval |
| `DependenceGraphs.KeepCarried` | chill/dep.cc:532-540 | the vectors of an edge that subspace keeps, in order |
| `DependenceGraphs.GraphPermuteRejects` | chill/dep.cc:473-507 | throws exactly when a vector between permuted statements has the wrong length or is an ordinary one that gets a negative distance; invalid_argument exactly when the first such vector has the wrong length, otherwise ir_error |
| `DependenceGraphs.ListResultThrows` | chill/dep.cc:359-388 | one edge: some vector throws exactly when one has the wrong length or turns a distance around, and the first one gives the exception |
| `DependenceGraphs.ControlVectorStops` | chill/dep.cc:484-490 | a vector without bounds between permuted statements stops every permutation, with invalid_argument when no vector before it is rejected |
| `DependenceGraphs.GraphPermuteInside` | chill/dep.cc:484-490 | between permuted statements an edge holds exactly the permuted distances |
| `DependenceGraphs.GraphPermuteOutside` | chill/dep.cc:491-504 | an edge with one permuted end holds exactly the vectors that agree with an old member in the dimensions that stay; other edges keep their distances |
| `GraphLaws.PermutedEdgeInside` | chill/dep.cc:473-507 | an edge between permuted statements lists, vector after vector, exactly the parts of the permuted boxes, each with the kind and flags of its vector |
| `GraphLaws.PermutedEdgeOutside` | chill/dep.cc:473-507 | an edge with one permuted end keeps its vectors in place with their kinds and flags, each holding what agrees with the old box where pi moves nothing; other edges are unchanged |
| `DependenceGraphs.JumbledMeaning` | chill/dep.cc:496-503 | a jumbled box holds exactly the vectors that agree with the old box in the dimensions that stay |
| `DependenceGraphs.SubspaceKeepsCarried` | chill/dep.cc:523-543 | a vector survives exactly when it is a control vector or a member is zero before dim |
| `GraphLaws.SubspaceEdge` | chill/dep.cc:523-543 | every edge of the result lists, in order, exactly those vectors of the old edge that are control vectors or have a distance that is zero before dim |
| `DependenceGraphs.SubspaceTwice` | chill/dep.cc:523-543 | subspace(a) then subspace(b) is subspace(max(a,b)) for non-negative a and b, exceptions included |
| `Execution.StepsCommute` | findFullParWithZ3.cc:285-287 | two iterations without a conflict commute on every memory |
| `Execution.AgreeingOrdersGiveSameMemory` | chill/loop.hh:18-34 | two orders of the same iterations that agree on every conflicting pair leave the same memory |
| `Execution.ParallelLoopAnyOrder` | findFullParWithZ3.cc:285-287 | if no two iterations touch a location one of them writes, every execution order leaves the same memory |
| `Affine.CombinedValue` | chill/loop_basic.cc:931-951 | the combined row computes the weighted sum of the old levels |
| `Affine.SkewLowSound` | chill/loop_basic.cc:967-1014 | no distance of the box gives a sum below the accumulated lower bound |
| `Affine.SkewLowTight` | chill/loop_basic.cc:967-1014 | a finite lower bound is attained; an infinite one means the sum goes below any number |
| `Affine.LowSideExact` | chill/loop_basic.cc:967-1014 | the lower bound is sound, attained when finite, infinite only when the sum is unbounded below |
| `Affine.HighSideExact` | chill/loop_basic.cc:967-1014 | the same for the upper bound |
| `Affine.SkewIntervalExact` | chill/loop_basic.cc:963-1016 | skew's interval over a box is sound and tight on both sides |
| `Loops.Loop.CheckPermutation` | chill/loop_basic.cc:256-271 | rejects exactly the pi that do not permute consecutive levels from a level of at least 1; otherwise its lowest level and reverse permutation |
| `Loops.Loop.CheckActive` | chill/loop_basic.cc:272-296 | accepts exactly the active sets the argument checks describe; the level range is checked only when there is more than one active statement |
| `Loops.Loop.PermuteXforms` | chill/loop_basic.cc:300-328 | every active iteration map has its levels rearranged by pi; the others are unchanged |
| `Loops.Loop.StoreGraph` | chill/loop_basic.cc:357-419 | the stored graph: permuted lists inside the active set, jumbled lists across it, loop_error on an unknown type that it touches |
| `Loops.Loop.PermuteLevels` | chill/loop_basic.cc:421-481 | new level tables with payload equal to position and parallel tags read through the reverse permutation |
| `Loops.Loop.PermuteGraph` | chill/loop_basic.cc:355-419 | the checks of DependenceGraph::permute, with its exceptions, followed by the stored graph |
| `Loops.Loop.Permute` | chill/loop_basic.cc:252-482 | the state becomes the outcome the value model gives it, or its exception with what has been changed by then; what that outcome is, is PermuteMoves, PermuteThrowsIff and PermuteStopped |
| `Loops.Loop.SetOrders` | chill/loop_basic.cc:481 | the lexical constants of active statements become the given ones, nothing else changes |
| `Loops.Loop.SkewXforms` | chill/loop_basic.cc:931-951 | the skewed level of every active map becomes the weighted sum of its levels |
| `Loops.Loop.SkewBounds` | chill/loop_basic.cc:967-1014 | the accumulated lower and upper bounds are the specified interval |
| `Loops.Loop.SkewDependence` | chill/loop_basic.cc:965-1036 | one vector: its new interval, the quasi flag cleared when certainly positive, loop_error when certainly negative |
| `Loops.Loop.SkewFromActive` | chill/loop_basic.cc:956-1050 | all edges leaving skewed statements: skewed inside, unknown at the level outside, or loop_error |
| `Loops.Loop.SkewToActive` | chill/loop_basic.cc:1051-1068 | edges into skewed statements become unknown at the skewed level |
| `Loops.Loop.Skew` | chill/loop_basic.cc:909-1070 | the state becomes the outcome the value model gives it, or its exception, after loop_error with the graph updated up to the edge that was rejected; what that outcome is, is SkewMoves, SkewDecides and SkewStopped |
| `Loops.Loop.Scale` | chill/loop_basic.cc:1158-1162 | scale is the skew with one amount at its own level, exceptions and what they leave behind included |
| `Loops.Loop.Reverse` | chill/loop_basic.cc:1164-1166 | reverse is the skew with amount -1 at its own level, exceptions and what they leave behind included |
| `Loops.Loop.ShiftXforms` | chill/loop_basic.cc:1095-1112 | the shifted level of every active map grows by the amount |
| `Loops.Loop.ShiftFromActive` | chill/loop_basic.cc:1117-1135 | finite bounds of edges leaving the shifted set shrink by the amount |
| `Loops.Loop.ShiftToActive` | chill/loop_basic.cc:1136-1154 | finite bounds of edges entering the shifted set grow by the amount |
| `Loops.Loop.Shift` | chill/loop_basic.cc:1073-1156 | the state becomes the outcome the value model gives it, or its exception with nothing changed; what that outcome is, is ShiftMoves |
| `LoopStates.DependencePermutationIsPermutation` | chill/loop_basic.cc:330-353 | dep_pi is pi on the permuted levels and the identity elsewhere, and a permutation |
| `LoopSafety.PermutedSchedule` | chill/loop_basic.cc:300-328 | where the permuted maps send an instance: its old image, rearranged, for active statements |
| `LoopSafety.PermuteKeepsCovered` | chill/loop_basic.cc:252-482 | after a permute, every dependence the graph covered is covered by the stored graph, jumbled edges included |
| `LoopSafety.SkewVectorAdmits` | chill/loop_basic.cc:965-1036 | a skewed vector admits every old distance, skewed |
| `LoopSafety.SkewKeepsCovered` | chill/loop_basic.cc:909-1070 | after a skew, scale or reverse that does not throw, every covered dependence stays covered |
| `LoopSafety.ShiftKeepsCovered` | chill/loop_basic.cc:1073-1156 | after a shift, every covered dependence stays covered |
| `LoopSafety.StepIsValid` | chill/loop_basic.cc:252-1166 | a transformation that does not throw leaves a well-formed state |
| `LoopSafety.StepKeepsCovered` | chill/loop_basic.cc:252-1166 | each of the five transformations keeps every covered dependence covered |
| `LoopSafety.RunKeepsCovered` | chill/loop_basic.cc:252-1166 | after any sequence of the five transformations in which nothing throws, every originally covered pair is covered |
| `LoopMeaning.OrderKeptMemoryKept` | chill/loop.hh:18-34 | two schedules that run every conflicting pair in the same order leave the same memory |
| `LoopMeaning.AcceptedEdge` | chill/dep.cc:359-388 | an accepted permutation never turns an ordinarily covered distance around, and the stored edge still covers it |
| `LoopMeaning.PermutePreservesMemory` | chill/loop_basic.cc:300-389 | if permute does not throw and ordinary vectors cover all conflicts, the permuted order leaves the memory of the original order |
| `LoopMeaning.PermutedOrderExists` | chill/loop_basic.cc:300-328 | the permuted schedule orders the same instances: an order the theorem speaks about exists |
| `LoopMeaning.PermuteRunPreservesMemory` | chill/loop_basic.cc:252-482 | any sequence of permutations in which nothing throws preserves the memory |
| `LoopMeaning.PermuteRunOrderExists` | chill/loop_basic.cc:252-482 | after any sequence of permutations in which nothing throws there is an order by the final schedule, so the theorem is not vacuous |
| `LoopMeaning.LegalRunPreservesMemory` | chill/loop_basic.cc:252-1166 | any sequence of the five transformations preserves the memory if the graph it ends with admits no negative distance |
| `LoopFacts.StoredGraphAgrees` | chill/loop_basic.cc:355-419 | where the two graphs agree vector by vector, their edges hold the same distances |
| `LoopFacts.VectorAgreesIff` | chill/loop_basic.cc:357-419 | one vector of any edge: both graphs keep the same distances of it exactly when it is a data vector or the edge leaves its box alone |
| `LoopFacts.StoredGraphAgreesIff` | chill/loop_basic.cc:355-419 | on any edge, inside, across or outside the permuted set, the stored graph and the discarded result agree vector by vector exactly when every control vector is unaffected |
| `LoopFacts.BuiltGraphsAgree` | chill/loop_unroll.cc:593-597 | on graphs whose control vectors have no bounds, as the program makes them, the two graphs agree on every edge |
| `LoopFacts.TagsFollowLoopsIff` | chill/loop_basic.cc:426-432 | parallel tags follow their loops for every tag table exactly when pi is its own inverse |
| `LoopFacts.TagSourceIff` | chill/loop_basic.cc:421-434 | the tag is read from the level moved there, for every level, exactly when pi is its own inverse |
| `LoopFacts.EqualTagsFollow` | chill/loop_basic.cc:426-432 | a table with the same tag everywhere keeps it under every permutation |
| `LoopFacts.RunKeepsUntagged` | chill/loop.cc:1062-1069 | tags that are unset at the start are unset after any run, so no run shows a misplaced tag |
| `LoopFacts.LevelRangeCheckedIff` | chill/loop_basic.cc:272-296 | accepted arguments keep the levels in range for every pi exactly when more than one statement is active |
| `LoopFacts.MissingLevelAccepted` | chill/loop_basic.cc:272-296 | one statement with one loop accepts the interchange of levels 1 and 2 |
| `LoopFacts.SkewThrowsIff` | chill/loop_basic.cc:1017-1034 | skew throws on a vector exactly when it is not quasi, some distance is zero before the level and every distance becomes negative there |
| `LoopFacts.NegativeIff` | chill/dep.cc:316-329 | a box has a negative member exactly when the scan of lower ends meets a negative end before a positive one |
| `LoopFacts.SkewedBoxNegativeIff` | chill/loop_basic.cc:1016-1034 | the skewed box has a negative member exactly when the scan of the old lower ends with the new one in place meets an end below zero before one above zero |
| `LoopFacts.SkewIsIllegalIff` | chill/loop_basic.cc:963-1034 | some distance is skewed to a negative one exactly when the scan over the worst intervals says so: zero before the level, tight components at their low ends |
| `LoopFacts.ThrowIsJustified` | chill/loop_basic.cc:1021-1034 | whenever skew throws on a vector, some distance is skewed to a negative one |
| `LoopFacts.SkewedBoxOverstates` | chill/loop_basic.cc:963-1034 | the witness that the two scans differ: a skewed box with a negative member although no skewed distance is negative |
| `LoopFacts.AcceptedSkewCanBeIllegal` | chill/loop_basic.cc:1021-1034 | the witness: a skew that does not throw and leaves a vector with negative distances |
| `PermuteLaws.PermuteMoves` | chill/loop_basic.cc:300-481 | a permute that does not throw: in schedules and in the distances of permuted pairs level pi[k] becomes level + k; a pair with one permuted end keeps exactly what it knows of the levels that stay; every vector stays in its place with kind, quasi and scalar; tags move the other way; other statements and edges are unchanged |
| `PermuteLaws.StoredListMoved` | chill/loop_basic.cc:357-419 | the same for one edge, vector by vector |
| `PermuteLaws.PermuteArgumentsIff` | chill/loop_basic.cc:256-296 | the arguments accepted: pi lists consecutive levels from 1 or more, the statements exist, with two of them the levels do, and all have the same constants before those levels |
| `PermuteLaws.PermuteThrowsIff` | chill/loop_basic.cc:252-482 | permute throws exactly for its arguments, for an ordinary vector between permuted statements with a distance that would turn negative, for one of another length, for an unknown vector at a permuted statement, or when setLexicalOrder does; and which exception each gives |
| `PermuteLaws.IrErrorTurns` | chill/dep.cc:473-507 | ir_error is always the fault of an ordinary vector with a distance that is turned around |
| `PermuteLaws.PermuteStopped` | chill/loop_basic.cc:300-481 | what an exception leaves behind: moved schedules with everything else old, or everything moved but the lexical constants |
| `SkewLaws.WeightedSumIsDot` | chill/loop_basic.cc:931-951 | the weighted sum is the dot product of amounts and levels |
| `SkewLaws.SkewVectorLaw` | chill/loop_basic.cc:965-1036 | a vector between skewed statements: the interval at the level is the least one with every weighted sum, finite ends attained, infinite ones only when the sum is unbounded; all other intervals, kind and scalar stay; quasi is dropped exactly when some distance is zero before the level and every sum is positive |
| `SkewLaws.ForgottenLaw` | chill/loop_basic.cc:1037-1068 | a vector with one skewed end holds exactly what agrees with an old distance in all other levels, with the same label |
| `SkewLaws.LeastIsUnique` | chill/loop_basic.cc:967-1014 | there is only one such least interval |
| `SkewLaws.SkewMoves` | chill/loop_basic.cc:931-1069 | a skew that does not throw: the level of every active schedule is the weighted sum of its levels, nothing else of it changes, and every edge is updated vector by vector as above |
| `SkewLaws.SkewDecides` | chill/loop_basic.cc:909-1069 | invalid_argument exactly for bad statements, level or amounts; loop_error exactly when some ordinary vector between skewed statements has a distance that is zero before the level and only negative sums |
| `SkewLaws.SkewStopped` | chill/loop_basic.cc:956-1050 | after loop_error all schedules are skewed, the edges of skewed statements before the first that stops are updated, all others are old |
| `SkewLaws.ScaleMoves` | chill/loop_basic.cc:1158-1162 | scale multiplies its level of the schedule by the amount |
| `SkewLaws.ReverseMirrors` | chill/loop_basic.cc:1164-1166 | reverse mirrors its level: the new vector holds exactly the mirrored distances |
| `ShiftLaws.ShiftVectorLaw` | chill/loop_basic.cc:1122-1131 | one vector: exactly the old distances with the amount added at the level, same label |
| `ShiftLaws.ShiftMoves` | chill/loop_basic.cc:1073-1156 | shift: exactly when it throws; otherwise the amount is added to one level of the active schedules, and on every edge vector by vector to the distances whose destination is shifted and taken from those whose source is |
| `RunLaws.RunKeepsLabels` | chill/loop_basic.cc:252-1166 | over every run in which nothing throws each vector stays in its place with its kind and scalar flag; quasi flags stay too, except that skew, scale and reverse may drop them |
| `RunLaws.IrErrorHasCulprit` | chill/loop_basic.cc:355-357 | when a permute of a run throws ir_error, the fault is an ordinary vector that was not scalar at the start of the run, and not quasi unless a skew has dropped the flag |
| `SourceTrees.FindOneLevelControlStructure` | chill/ir_chill.cc:1271-1337 | the controls the scan of one block gives, with the unwrapping and the no-split cases; OneLevelCuts says which they are |
| `SourceTrees.OneLevelShrinks` | chill/ir_chill.cc:1271-1337 | every control returned is strictly smaller than the block, so the unwrap-and-recurse cycle ends |
| `SourceTrees.OneLevelLeaves` | chill/ir_chill.cc:1296-1333 | when a block has controls, they hold its statements exactly once and in order |
| `TreeLaws.OneLevelCuts` | chill/ir_chill.cc:1271-1337 | the controls are the statements in order, every loop and if by itself, blocks non-empty and without loops and ifs, never two in a row; none exactly for an empty list or straight code that was not unwrapped |
| `TreeLaws.CutIsUnique` | chill/ir_chill.cc:1304-1333 | only one list of controls is such a cut |
| `SourceTrees.ExtractsEveryStatementIff` | chill/irtools.cc:25-172 | extraction lists every statement exactly once in lexical order, exactly unless the control given is itself an if with statements, which are lost |
| `SourceTrees.BlockForestExtracts` | chill/irtools.cc:25-172 | the blocks of the tree of a statement list hold its statements exactly once in lexical order |
| `SourceTrees.ControlForestFaithful` | chill/irtools.cc:61-107 | blocks are leaves, loops and blocks carry -1, a node with odd payload holds the then-part and one with even payload the else-part |
| `SourceTrees.BlockForestPaired` | chill/irtools.cc:70-98 | every else-part directly follows its then-part |
| `TreeLaws.StraightIsOneLeaf` | chill/irtools.cc:25-60 | straight code, inside compounds or not, becomes exactly one leaf |
| `TreeLaws.BlockForestIs` | chill/irtools.cc:25-107 | the trees are exactly those the cuts describe: a leaf for straight code, one node for a loop, one for each part of an if, with the trees of its body below |
| `TreeLaws.IfNumbers` | chill/irtools.cc:61-107 | the counter goes up by two for each if; a then-part is numbered after the ifs inside it, an else-part after those inside both |
| `TreeLaws.BlocksAreStatements` | chill/irtools.cc:137-172 | extraction lists every block node of the forest, empty ones too, exactly once and in the order of the text |
| `TreeLaws.ExtractionResets` | chill/irtools.cc:137-172 | extraction resets the payload of every loop and changes nothing else |
| `SourceTrees.IfPayloadsDistinctIff` | chill/irtools.cc:61-107 | the payloads of all if nodes are pairwise distinct exactly when no if node lies below an else-part, and exactly when no else-part of the source contains an if outside a block |
| `SourceTrees.IfPayloadsRepeat` | chill/irtools.cc:73-98 | the smallest repetition: an if alone in an else-part has the payload of the outer then-part |
| `SourceTrees.BlocksAreStraightIff` | chill/ir_chill.cc:1296-1333 | every extracted block is straight-line code exactly when no statement list puts a compound containing a loop or an if beside another non-branching statement |
| `IrNodes.IrBuilder.BuildIrTree` | chill/irtools.cc:25-132 | the linked nodes, with parent links and fresh storage, are the specified tree, and the counter advances as specified |
| `IrNodes.IrBuilder.BuildNode` | chill/irtools.cc:61-69 | a node whose children are the tree of its body, linked to it |
| `IrNodes.IrBuilder.BuildBlock` | chill/irtools.cc:32-58 | a leaf when nothing splits the block, otherwise the nodes of its controls in order |
| `IrNodes.IrBuilder.BuildIf` | chill/irtools.cc:70-98 | a then-node numbered after its own subtree and an else-node numbered after both |
| `IrNodes.ExtractIrStmts` | chill/irtools.cc:137-172 | the block nodes of the tree, each once, in lexical order; every loop payload below is reset and nothing else changes |
| `TreeOrder.TraceInOrder` | chill/irtools.cc:189-224 | the sequential run emits instances in strictly increasing structural order |
| `TreeOrder.TraceReaches` | chill/irtools.cc:189-224 | every instance whose loop values are taken and whose conditions hold occurs in the run |
| `TreeOrder.TraceExecutes` | chill/irtools.cc:189-224 | conversely, every instance in the run has its loop values taken and its conditions as its arms need them |
| `TreeOrder.RunsIff` | chill/irtools.cc:189-224 | an instance occurs in the run exactly when its loops take its values and its arms run |
| `TreeOrder.ArmsExclude` | chill/irtools.cc:70-98 | in one iteration of their common loops, statements in the two arms of one if never both run |
| `TreeOrder.PrecedesIff` | chill/irtools.cc:189-224 | one instance precedes another in the run exactly when it comes before it structurally |
| `TreeOrder.RunsBeforeIff` | chill/irtools.cc:189-224 | the iterations of the common loops decide the order, and the text breaks ties |
| `DependenceOrder.ScanLowerBounds` | chill/irtools.cc:210-217 | the scan of lower bounds is true exactly when every distance over the scanned loops is positive, or zero with before set |
| `DependenceOrder.Query.PairRespectedIff` | chill/irtools.cc:189-224 | a run respects a pair exactly when its distance over the common loops is positive, or zero with before set |
| `DependenceOrder.Query.Realized` | chill/irtools.cc:189-224 | every distance over the common loops occurs between two instances of some run, except zero between the arms of one if |
| `DependenceOrder.BothRun` | chill/irtools.cc:189-224 | any two instances occur together in some run unless they need both arms of one if in one iteration |
| `DependenceOrder.TieAcrossArmsRejected` | chill/irtools.cc:210-219 | the witness: a dependence at distance 1 from a loop in an else-part to a loop in its then-part, which no run violates and the test rejects |
| `DependenceOrder.Query.AllForwardIff` | chill/irtools.cc:189-224 | the box test over the common loops holds exactly when every run respects every related pair and the dependence is not a tie across the arms of one if, which no run violates |
| `DependenceOrder.LinesMeet` | chill/irtools.cc:191-208 | walking up from two nodes meets in the same node exactly where their paths agree |
| `DependenceOrder.CollectLoops` | chill/irtools.cc:191-199 | the loop nodes around the source, by parent links |
| `DependenceOrder.InnermostShared` | chill/irtools.cc:201-208 | the dimension of the innermost loop around both nodes, or -1 |
| `DependenceOrder.CommonLoopsShared` | chill/irtools.cc:201-208 | the number of common loops is the number of loops among the shared ancestors |
| `DependenceOrder.IsDependenceValid` | chill/irtools.cc:189-224 | true for a scalar dependence; otherwise true exactly when in every run every pair at one of the distances runs in the order of the dependence, ties across the arms of one if excepted |
| `Schedule.NumberLoopsNumbers` | chill/loop.cc:1090-1096 | loop payloads become 0, 1, 2, ... from the root down, as is_dependence_valid relies on |
| `Schedule.NumberLoopsPaired` | chill/loop.cc:1090-1113 | numbering the loops keeps every else-part behind its then-part |
| `TreeLaws.NumberingKeepsTree` | chill/loop.cc:1090-1113 | numbering the loops changes nothing but their payloads |
| `Schedule.StampOrderIsExecutionOrder` | chill/loop.cc:1070-1088 | the 2n+1 iteration maps order two instances exactly as the source runs them |
| `Schedule.InitialScheduleRunsTheSource` | chill/loop.cc:1070-1112 | one instance precedes another in the source's run exactly when its initial stamp is lexicographically smaller |
| `RelationVectors.RefineUndetermined` | chill/omegatools.cc:1978-2078 | one level of a part without a direction: the parts that replace it keep every distance, their boxes hold their distances, and no distance is in two of them |
| `RelationVectors.Split` | chill/omegatools.cc:2008-2077 | the split into zero, negative and positive distances loses none, except those mirrored between a reference and itself |
| `RelationVectors.TightBounds` | chill/omegatools.cc:2083-2128 | the tightened interval of a level holds every distance, is inside the bounds it is given, is open only where distances of that sign occur when there are none, and ends at zero only if zero occurs |
| `RelationVectors.RefineDirected` | chill/omegatools.cc:2081-2140 | one level of a part with a direction: its interval, turned around for negative distances |
| `RelationVectors.FinishedVector` | chill/omegatools.cc:1866-1977 | the vector of a finished part is ordinary, holds all distances of the part, and starts with zeros followed by an interval above zero, or is zero |
| `RelationVectors.RelationToVectors` | chill/omegatools.cc:1837-2143 | the worklist ends; positive distances are in the first list, negative ones turned around in the second, zero in the first unless a reference meets itself; a vector of the first list starts with a write exactly if the source writes and ends with one exactly if the destination does, in the second list the other way round; every vector stands for distances of its own, holds some, and is no wider than the bounds given |
| `RelationVectors.OneVectorPerLevel` | chill/omegatools.cc:1978-2077 | no two vectors of a list are led by the same level, and at most one is zero |
| `RelationVectors.LeadsIsPositive` | chill/omegatools.cc:2028-2077 | a vector of that form holds only lexicographically positive distances |
| `RelationVectors.ExactIsPossible` | chill/omegatools.cc:1857-1988 | what is asked of Omega can be met |
| `DataTests.TestPair` | chill/irtools.cc:400-405 | two references: no vectors if they cannot conflict, otherwise the vectors of their relation, which start and end with what the references do |
| `DataTests.TestStatements` | chill/irtools.cc:390-415 | two statements: the lists are those of all pairs of references, one after the other, and cover the relation of every pair that may conflict |
| `DataTests.TestSelf` | chill/irtools.cc:304-385 | one statement: the lists are those of the pairs in textual order that are not held back, then the late ones, and nothing else; they cover the relation of each of these pairs |
| `DataTests.TestedIsSourced` | chill/irtools.cc:390-415 | every vector found between two statements comes from a pair of references to one array, one of them writing, starts and ends with what they do, and holds a distance of their relation |
| `DataTests.SelfIsSourced` | chill/irtools.cc:304-385 | the same for one statement |
| `InitialGraph.PairRealized` | chill/irtools.cc:189-224 | every member of a box that is zero outside the loops of its statements is the distance of two instances of some run, except zero between the arms of one if |
| `InitialGraph.PairOrder` | chill/irtools.cc:189-224 | which instance of a pair runs first is decided by its distance over the common loops and the text |
| `InitialGraph.Enter` | chill/loop.cc:1322-1330 | one vector: connected as it is when the test accepts it, reversed on the opposite edge when not |
| `InitialGraph.RightWayCovers` | chill/loop.cc:1322-1339 | a pair whose distance is entered in the order in which it runs is admitted by the edge along which it runs |
| `InitialGraph.EnteredCoversIff` | chill/loop.cc:1322-1339 | entering a vector covers every pair at its distances, in every run and in the order in which it runs, exactly when no possible distance runs against the direction chosen (self edges may hold both) |
| `InitialGraph.RightWayByScan` | chill/loop.cc:1322-1339 | between two statements that is so exactly when the box test accepts the vector as it was entered, ties across arms aside, or no pair is at its distances |
| `InitialGraph.ProducedIsRightWay` | chill/loop.cc:1322-1339 | every vector of a form relation2dependences returns is entered the right way, from either list and on self edges |
| `InitialGraph.BothSignsNotCovered` | chill/loop.cc:1327-1329 | the witness that not every vector is entered the right way: a box with both signs, of a form the program never enters |
| `InitialState.EnterList` | chill/loop.cc:1322-1340 | one list: its vectors are entered one after the other |
| `InitialState.EnterPair` | chill/loop.cc:1322-1340 | both lists of one pair of statements, the first one first |
| `InitialState.EnterRow` | chill/loop.cc:1304-1342 | statement i with every statement from itself on, both lists of each pair |
| `InitialState.EnterRows` | chill/loop.cc:1304-1343 | all rows of the double loop, from a graph without edges |
| `InitialState.InitGraph` | chill/loop.cc:1296-1343 | the double loop over all statements builds the graph of the initial state |
| `InitialState.Nest.FoundIsEntered` | chill/loop.cc:1304-1343 | every vector on the lists of the tests is entered |
| `InitialState.Nest.AllEntered` | chill/loop.cc:1322-1340 | every entered vector is, at the end, on the edge is_dependence_valid chose for it |
| `InitialState.StampParts` | chill/loop.cc:1070-1088 | an initial stamp has the loop values at its odd positions and the lexical counters of its statement at the even ones |
| `InitialState.InitialSchedule` | chill/loop.cc:1062-1088 | the initial state runs every instance at its stamp |
| `InitialState.SourceIsCovered` | chill/loop.cc:1304-1343 | the initial graph covers every pair of source instances at a distance found, in the order in which the source runs it |
| `InitialState.EveryRunCoversTheSource` | chill/loop_basic.cc:252-1166 | after any run of transformations from the initial state in which nothing throws, every such pair is still covered in that order |
| `InitialLaws.InitialEdge` | chill/loop.cc:1304-1343 | edge (a, b) of the initial graph lists the vectors found between the two statements, first list then second, each as it is if no run violates it and it is no tie across arms, otherwise reversed on the opposite edge, and nothing else |
| `InitialLaws.EdgeVectorKind` | chill/loop.cc:1304-1343 | every vector on edge (a, b) belongs to references of a and b to one array, one of them writing, starts with what the one in a does and ends with what the one in b does |
| `InitialLaws.TestsAreSourced` | chill/loop.cc:1304-1321 | lists that come from the tests are as EdgeVectorKind needs them |
| `InitialLaws.CounterIsPosition` | chill/loop.cc:1070-1088 | the first lexical constant of a statement is the position of its outermost node in the list with every if opened |
| `InitialLaws.CounterInside` | chill/loop.cc:1070-1088 | the constants behind a loop are those of its body, counted from zero |
| `InitialLaws.NoRunIsTagged` | chill/loop.cc:1062-1069 | no state of a run from the initial state has a parallel tag |
| `SourceMeaning.Source.ConflictIsFound` | chill/irtools.cc:277-424 | if two instances conflict, a vector of the list for its sign holds their distance |
| `SourceMeaning.ConflictsStayCovered` | chill/loop_basic.cc:252-1166 | every conflict between instances of any two statements is covered in the order the source runs them, initially and after every run of transformations in which nothing throws |
| `SourceMeaning.SourceRunsInOrder` | chill/loop.cc:1062-1088 | with one statement, the source runs its iterations in the order of the initial schedule |
| `SourceMeaning.ConflictIsOrdinary` | chill/loop.cc:1322-1339 | with one statement, the vector of a conflict enters the graph as it is, neither quasi nor scalar |
| `SourceMeaning.PermutedSourceKeepsMemory` | chill/loop_basic.cc:252-482 | with one statement, any order by the schedule after a run of permutations leaves the memory the source run leaves |
| `SourceMeaning.LegalSourceKeepsMemory` | chill/loop_basic.cc:252-1166 | the same after any of the five transformations when the final graph admits no negative distance |
| `ReferenceMap.VisitPair` | chill/irtools.cc:454-477 | the body of both loops keeps the invariant on provisional ids and inserts into rMap and tnrStmts as specified |
| `ReferenceMap.VisitRow` | chill/irtools.cc:451-478 | one pass of the inner loop keeps earlier ids and completes those of the statement of reference i |
| `ReferenceMap.AllConflicts` | chill/irtools.cc:471-474 | the index pairs visited collect exactly the references that conflict with one of another statement |
| `ReferenceMap.ConflictingIff` | chill/irtools.cc:471-474 | a reference is collected exactly if one of another statement uses its array and one of the two writes |
| `ReferenceMap.MapRefsToStatements` | chill/irtools.cc:445-485 | final ids are equal exactly for references of one statement; rMap gains exactly the final ids; nrStmts gains exactly the ids of statements with a reference conflicting with another statement's |
| `CudaizedSort.SortCudaizedStatements` | chill/cudaize_codegen_v2.cc:50-111 | the output sets of all listed keys, in strictly increasing key order |
| `CudaizedSort.JoinStatements` | chill/cudaize_codegen_v2.cc:63-79 | each remaining statement joins the first group with its key, or lists its own key |
| `CudaizedSort.OutputSet` | chill/cudaize_codegen_v2.cc:89-109 | the first group with the key, grown, tagged with its index; or the remaining statements with the key, tagged -1 |
| `CudaizedSort.Input.GrownKey` | chill/cudaize_codegen_v2.cc:66-71 | joining statements never changes a group's key |
| `CudaizedSort.Input.OutputKey` | chill/cudaize_codegen_v2.cc:84-109 | every output set is non-empty and its first statement has the key it was listed for |
| `CudaizedSort.Input.KeysIncrease` | chill/cudaize_codegen_v2.cc:81-109 | the keys of the output sets strictly increase |
| `CudaizedSort.Input.OutputSets` | chill/cudaize_codegen_v2.cc:50-111 | one output set for each key that occurs, in increasing order: the statements of no group with that key, together with the first group that has it, whose index is the tag, -1 without one |
| `CudaizedSort.Input.PartitionIff` | chill/cudaize_codegen_v2.cc:50-111 | for disjoint groups the output is an ordered partition of all statements exactly when the groups have distinct keys |
| `CudaizedSort.Input.LaterGroupLost` | chill/cudaize_codegen_v2.cc:89-96 | a group whose key an earlier group has is in no output set |
| `CudaizedSort.Input.Tags` | chill/cudaize_codegen_v2.cc:89-109 | a tag names a group the set contains, occurs once, every group with a distinct key gets one, and untagged sets hold no cudaized statement |
| `CudaizedSort.SortFacts` | chill/cudaize_codegen_v2.cc:82 | sorting is a sorted permutation |
| `SparseMatrices.GatherIsDot` | data/spMV_Mul_csr.c:8-12 | gathering by position is the dense product of the entries, duplicate entries added up |
| `SparseMatrices.UniqueSolution` | IEGenLib/data/Forward-Solve_CSR/forwSolCSR.c:2-8 | a lower triangular system with nonzero diagonal has at most one solution |
| `SparseKernels.Gaxpy` | IEGenLib/data/GAXPY/gaxpy.cpp:9-20 | y grows by A*x, columns scattered |
| `SparseKernels.ScatterColumn` | IEGenLib/data/GAXPY/gaxpy.cpp:14-17 | the inner loop adds the column's entries times x[j] |
| `SparseKernels.SpmvCsr` | data/spMV_Mul_csr.c:4-14 | y grows by A*x on the first n rows and is unchanged beyond |
| `SparseKernels.ScatterEqualsGather` | IEGenLib/data/GAXPY/gaxpy.cpp:9-20 | column scatter and row gather give the same y whenever their structures denote the same matrix |
| `SparseKernels.EliminateColumn` | data/fs_csc.c:10-13 | the inner loop subtracts the column times x[j] below the diagonal and changes nothing else |
| `SparseKernels.ColumnStep` | data/fs_csc.c:7-14 | one column keeps the invariant: solved rows above, residuals below |
| `SparseKernels.ForwardSolveCsc` | data/fs_csc.c:4-15 | in place, the final x satisfies L*x = the initial contents |
| `SparseKernels.RowSolved` | IEGenLib/data/Forward-Solve_CSR/forwSolCSR.c:2-7 | a row's residual divided by its diagonal solves the row |
| `SparseKernels.ForwardSolveCsr` | IEGenLib/data/Forward-Solve_CSR/forwSolCSR.c:2-8 | the final x satisfies L*x = b |
| `SparseKernels.ForwardSolvesAgree` | IEGenLib/data/Forward-Solve_CSC/forwSolCSC.c:1-12 | the column and row solves give the same x whenever their structures denote the same matrix |
| `ParallelKernels.SpmvFullyParallel` | data/spMV_Mul_csr.c:8-12 | no two rows of the product conflict |
| `ParallelKernels.SpmvAnyOrder` | data/spMV_Mul_csr.c:8-12 | every order of the rows leaves the same memory, and in it y + A*x |
| `ParallelKernels.UpdatesParallelIff` | data/fs_csc.c:10-13 | a column's updates are fully parallel exactly when there is at most one, or their rows are distinct and none is j |
| `ParallelKernels.UpdatesAnyOrder` | data/fs_csc.c:10-13 | with distinct rows below the diagonal, every order of the updates leaves the same memory, the one with the column subtracted |
| `ParallelKernels.ColumnsParallelIff` | IEGenLib/data/GAXPY/gaxpy.cpp:12-18 | the column loop is fully parallel exactly when no row index is stored in two columns |
| `ParallelKernels.SolveAnyRespectfulOrder` | IEGenLib/data/Forward-Solve_CSR/forwSolCSR.c:2-8 | any order of the rows in which every row follows the rows it reads gives the x of the sequential solve |
| `ParallelKernels.SourceOrderRespects` | IEGenLib/data/Forward-Solve_CSR/forwSolCSR.c:2-8 | the source order of the rows is such an order |

## Left out

- Integer width: `coef_t`, `int` and size arithmetic are unbounded, so neither overflow nor a bound equal to the sentinel is modelled.
- Floating point: kernel arithmetic is over exact reals.
- Tile levels, `LoopLevelUnknown`, and the payload comparison among active statements, which all-original levels always pass.
- The symbol, reduction and reference fields of a dependence vector, which no modelled operation reads.
- `setLexicalOrder` itself: which constants it picks and when it throws.
- Indexing outside a vector: `permute` writes past the end of a control vector without bounds on an edge across the permuted set (chill/dep.cc:496-503), and past the level tables for levels that do not exist; neither is modelled, both are preconditions.
- Runs after an exception: what `permute` and `skew` leave behind is stated, the safety claims are for runs that do not throw.
- DependenceGraphs.DependenceGraph.Permute: connects the pieces of one edge together instead of vector by vector, which ConnectTwice shows to be the same.
- Loops.Loop.SkewDependence: makes each of the two tests once; the source repeats them on the same bounds.
- LoopMeaning.PermutePreservesMemory: one statement whose conflicts are covered by vectors that are neither quasi nor scalar, because permute's legality test skips the others.
- DependenceOrder.Query.AllForwardIff: distances are compared over the common loops, the only ones the code reads.
- InitialState.InitGraph: a nest without statements gets the dimension of the nest where the code writes 0.
- `buildIS` beyond loop numbers and iteration maps: iteration spaces, inspectors, retries after `ir_error`.
- `IR_CONTROL_WHILE` and the invalid tree exception of `extract_ir_stmts`: the splitter never produces such controls.
- IrNodes.IrBuilder.BuildIrTree: a content is fixed when its node is created; `clone`, `convert` and deletion are not modelled.
- ParallelKernels.SpmvAnyOrder: an iteration of the outer loop is one step that gathers and writes; its inner loop is the method SpmvCsr.
- `std::sort` is an insertion sort; `std::set` and `std::map` are mathematical sets and maps with the least element first.
- Omega relations, code generation, `split`, `peel`, `tile`, `flatten`, level normalization, `fuse` and `distribute`: they rest on Omega, graph sorting or typed fusion, which are not part of this model.
- `arrays2relation` and `checkReductionDependence`: the first rests on Omega and symbolic expressions, the second is a heuristic over last-level bounds.
- DataTests.TestSelf: vectors that the reduction heuristic holds back and never appends are lost in the code as well; the distances of those pairs of references are not covered.
- SourceMeaning.ConflictsStayCovered: for sources in which the heuristic lost nothing, and whose relations hold the distances of all iterations in which two references meet.
- data/fs_csr.c, whose fixed-size buffer bounds n, and the Cholesky, ILU and Gauss-Seidel kernels.
- The Z3 queries of the driver: only what its verdict means is modelled.
- AST printing, constant folding, CUDA emission, the Python module and file handling.
