# SMDA: verified models

SMDA recovers functions and control-flow graphs from machine code. These Dafny modules model its self-contained
algorithms and prove what they promise, for all inputs, all graphs and all runs. `dafny verify dfyconfig.toml` checks
everything.

| module | what it models |
|---|---|
| `Digraph`, `Flowgraph`, `DominatorTrees`, `NestingDepth` | dominator trees after Lengauer and Tarjan (TOPLAS 1(1), 1979), and the nesting depth read off them |
| `Tarjans` | strongly connected components with an explicit call stack, and the transitive closure built on their order |
| `AddressReferences`, `Disassembly` | the compressed reference maps and the result object with its two converse maps |
| `Blocks`, `Coverage`, `FunctionStates`, `AnalysisStates` | one function's analysis state: block queue, booked instructions, edges, block reconstruction and what it loses, recording and undoing |
| `Recording`, `Recovery`, `RecoveryLimits` | who owns which byte over every run of booking, recording, undoing and absorbing, and runs that show what does not hold |
| `Trails`, `Disassemblers` | the recovery engine itself: its steps are those of a run, and each block leaves a trail of the words it went over and the reason it ended |
| `Partition` | splitting a function at the ends of declared ranges |
| `DeclaredRanges`, `FunctionGaps`, `GapScan` | lookups in declared ranges, the list of gaps, and the scan of unclaimed bytes |
| `GapPasses` | the gap pass over the engine, and the whole analysis of an image |
| `Leb128`, `EhFrame` | the landing-pad decoder with its memos and budgets |
| `EhFrameForms`, `EhFrameSections` | the same tables, descriptions, records and sections as they are written, and that they are read back |
| `Overlap` | leaving out overlapping functions of different architectures |
| `ItBlocks`, `Thumb` | IT blocks across decode windows, and Thumb branch targets and escaping |
| `Minimize` | delta debugging |
| `Collections` | iteration over sets, `sorted`, bisection |

## How the models are built

Objects of the original are classes; their methods are proved against functions on plain values (`View()` gives the
value of an object), and the properties are lemmas about these functions. Fields of the analysis state that belong
together are grouped in records: the queue, the booked code, the references, the data, the notes of the backend.
`DominatorTree` and `Tarjan` run their loops on a local record of the same tables and store it in the fields at the end
of the method. Iteration over a Python set is iteration in no particular order. A resumable iterator is the position it
has reached.

What the original asks others is a parameter, or an arbitrary choice made anew whenever it is asked. In `Disassemblers`
the decoder is a parameter; what the backend does about an instruction (any number of effects on the state and on
candidates), whether it cuts the block there, whether the time is up, and in `GapPasses` which candidate comes next are
such choices, so they may depend on anything. What is asked of them is what a fixed-width backend gives: instructions are
four bytes at multiples of four inside the image, and of all addresses, inside the image or not, only finitely many are
ever queued as blocks. Exact ownership (`Recording.FinalizeKeepsOwnership`, `Recording.RevertKeepsOwnership`,
`Partition.SplitKeepsOwnership`) is shown for every instruction width; the step from "the start address is free" to "all
bytes are free", and with it every result about runs, needs words. The other parameters are the reader of the image, the
parser of CIE bodies, the code references Binary Ninja reports, and symbols.

Some properties hold only under a condition, and the condition is proved exact:

- Stored functions share no byte in any run (`Recovery.EveryRunKeepsFunctionsApart`). That the owner map has no entry
  beyond theirs needs more: undoing a stored function from its blocks gives all its bytes back exactly when the blocks
  held every booked instruction (`Recording.StaleOwners`), so recording a function keeps ownership exact if and only if
  its blocks cover it (`Recovery.OwnershipNeedsCover`). They do exactly when some walk reaches every instruction
  (`Recovery.CoversExactlyWhenReached`), which can be counted from the references, and where nothing collides exactly
  when every instruction is a potential start or follows one that passes the walk on
  (`Recovery.CoversExactlyWhenLinked`). `RecoveryLimits.UnjustifiedRun` is a run that loses an
  instruction.
- No potential start lies inside another block exactly when no instruction that a start reaches passes the walk on to
  another start (`Blocks.StartsStayOutsideExactlyWhenSealed`); the entries that `addCodeRef` makes for jump targets
  ensure it for all starts but an entry nobody refers to (`FunctionStates.OnlyTheEntryMayLackAKey`), for which
  `RecoveryLimits.StartInsideABlock` is a run.
- Undoing a function restores the result exactly when the function had left no trace in it before; the data map is not
  restored in any case (`Recording.RevertUndoesFinalize`).
- Splitting keeps functions disjoint exactly when no instruction reaches across a split point
  (`Partition.SplitKeepsOwnership`).
- The walk down the frame-description ranges is complete exactly when no two neighbours that end before the address
  shadow the range that holds it (`DeclaredRanges.FdeLookupFinds`); nested ranges do (`DeclaredRanges.NestedIsShadowed`).
- The list of gaps has every byte of an image without code areas that is not code exactly when some code lies behind
  the first byte of the image and code at address 0 goes on at address 1 (`FunctionGaps.WholeImageIsListed`).
- The gap pointer moves ahead exactly when the function it is in ends behind it (`GapScan.NextGapIsAhead`). The engine
  leaves the candidate of each analysis before the end of its function even where other bytes have stale owners, so the
  whole gap pass moves ahead (`GapPasses.AnalyzeGaps`).
- Signed LEB128 numbers below -2^62 are not read back: the sign bit of a tenth byte is not looked at
  (`Leb128.SlebRoundTrip`).

Where the documentation and the code differ, the code is followed: `shrink` says that it trims single bytes from both
ends, but it only sweeps with ever smaller chunks.

## Main results

- `DominatorTrees.DominatorTree.Compute`, `DominatorTrees.BuildDominatorTree`: exact immediate dominators and exactly
  that tree, resting on `Flowgraph.SemiIsIdom`, `Flowgraph.SharesIdom` and `Flowgraph.LeastContributionIsSemi`;
  `DominatorTrees.DominatorTree.Eval`: path compression refines an uncompressed walk.
- `NestingDepth.CalculateNestingDepth`: the nesting depth as a property of the graph.
- `Tarjans.Tarjan.CalculateScc`, `Tarjans.Tarjan.Closure`: components in reverse topological order, exact closure.
- `Recovery.EveryRunKeepsFunctionsApart`, `Recovery.EveryRunKeepsOwnership`, `Recovery.NoBlockIsProcessedTwice`: over
  every run; `Disassemblers.RecursiveDisassembler.AnalyzeFunction`, `GapPasses.AnalyzeBuffer`: of the engine itself,
  with what it books and when it records (`Trails.FreeStartIsBooked`, `Trails.ReactionsKeep`).
- `Coverage.BlocksEndByRules`, `Coverage.BlocksHoldReached`, `Recovery.OwnershipNeedsCover`,
  `Blocks.StartsStayOutsideExactlyWhenSealed`: where blocks end and what block reconstruction keeps, exactly.
- `Recording.RevertUndoesFinalize`, `FunctionStates.RevertAnalysisUndoesFinalize`, `Partition.SplitKeepsOwnership`.
- `GapPasses.AnalyzeGaps`, `GapScan.OffersAreProposable`, `FunctionGaps.WholeImageIsListed`,
  `DeclaredRanges.FdeLookupFinds`,
  `DeclaredRanges.ExceptionDirectory.DeclaredExceptionRangeContaining`.
- `EhFrameSections.SectionRoundTrip`, `EhFrameForms.TableRoundTrip`, `Leb128.SlebRoundTrip`: round trips, up to whole
  sections;
  `EhFrame.DecodeEhFrameLandingPads`: memos and budgets against plain decoding.
- `AddressReferences.LastOperationDecides`, `Overlap.ModeOverlapLosers`, `ItBlocks.DecodeRun`, `Thumb.EscapedAlike`,
  `Thumb.CallTargetInvertsEncode`, `Minimize.Shrink`.

## Model

| member | source | states |
|---|---|---|
| Digraph.ImmediateDominatorIsUnique | src/smda/common/DominatorTree.py:4-11 | a vertex has at most one immediate dominator, so the results below determine the tree |
| Flowgraph.SemiIsAncestor | src/smda/common/DominatorTree.py:83-91 | a semidominator is a proper ancestor in the depth-first tree |
| Flowgraph.SemiIsIdom | src/smda/common/DominatorTree.py:93-99 | Theorem 2 of Lengauer and Tarjan: when no vertex between has a smaller semidominator, the semidominator is the immediate dominator |
| Flowgraph.SharesIdom | src/smda/common/DominatorTree.py:93-104 | Theorem 3: otherwise the vertex shares its immediate dominator with the one of least semidominator between |
| Flowgraph.LeastContributionIsSemi | src/smda/common/DominatorTree.py:85-89 | Theorem 4: the least contribution of the predecessors is the semidominator |
| Flowgraph.SegmentIsLeast | src/smda/common/DominatorTree.py:64-81 | a forest entry that summarises a path up to the tree root names a vertex of least semi on that path |
| Flowgraph.SegmentJoin | src/smda/common/DominatorTree.py:77-81 | joining a compressed entry with the one above it summarises the joined path, so compression changes no minimum |
| DominatorTrees.CompressStep | src/smda/common/DominatorTree.py:77-81 | one step of path compression keeps the forest a summary of the uncompressed depth-first tree |
| DominatorTrees.DominatorTree.NextDiscovery | src/smda/common/DominatorTree.py:48-57 | the resumed iterator stops at the next undiscovered successor, or is exhausted |
| DominatorTrees.DominatorTree.DepthFirstSearch | src/smda/common/DominatorTree.py:39-59 | numbers exactly the reachable vertices in preorder, with tree parents and the predecessor sets of the reachable subgraph |
| DominatorTrees.DominatorTree.Compress | src/smda/common/DominatorTree.py:71-81 | afterwards the ancestor is a tree root and every entry still summarises its segment of the uncompressed forest |
| DominatorTrees.DominatorTree.Eval | src/smda/common/DominatorTree.py:64-69 | returns the vertex itself when unlinked, else a vertex of least semi on the path up to but excluding its tree root, as an uncompressed walk would find |
| DominatorTrees.DominatorTree.ComputeSemi | src/smda/common/DominatorTree.py:85-89 | step 2 leaves the semidominator in `semi` |
| DominatorTrees.DominatorTree.ProcessVertex | src/smda/common/DominatorTree.py:84-99 | one round of steps 2 and 3 keeps: later vertices have their semidominators, forest and buckets are as they should be |
| DominatorTrees.DominatorTree.Steps2And3 | src/smda/common/DominatorTree.py:83-99 | `semi` holds all semidominators, `dom` the immediate dominator or the vertex that shares it |
| DominatorTrees.DominatorTree.Step4 | src/smda/common/DominatorTree.py:101-104 | `dom` holds immediate dominators |
| DominatorTrees.DominatorTree.Compute | src/smda/common/DominatorTree.py:106-110 | for every graph and root: `dom` has an entry for exactly the reachable vertices but the root, and it is the immediate dominator |
| DominatorTrees.FixGraph | src/smda/common/DominatorTree.py:113-120 | every vertex mentioned becomes a key, no edge is added or lost |
| DominatorTrees.Invert | src/smda/common/DominatorTree.py:135-140 | the child lists say exactly the same as `dom`, each child once |
| DominatorTrees.BuildDominatorTree | src/smda/common/DominatorTree.py:127-140 | None exactly when the root is no vertex; else exactly the dominator tree, with the entry of every reachable vertex under its immediate dominator |
| NestingDepth.CostBounds | src/smda/common/DominatorTree.py:149-165 | the cost of a node is at least the weight of every branch below it |
| NestingDepth.CostAttained | src/smda/common/DominatorTree.py:149-165 | some branch below the node attains its cost |
| NestingDepth.MaximumCosts | src/smda/common/DominatorTree.py:149-165 | the explicit-stack traversal ends and returns the recursive cost of the root |
| NestingDepth.SignificantNodes | src/smda/common/DominatorTree.py:144-146 | exactly the targets of vertices with more than one successor |
| NestingDepth.GetNestingDepth | src/smda/common/DominatorTree.py:143-171 | the greatest number of significant nodes on a branch of the tree |
| NestingDepth.BranchIsDominators | src/smda/common/DominatorTree.py:143-171 | the nodes of a branch of a dominator tree are the dominators of its last node |
| NestingDepth.DominatorTreeIsRanked | src/smda/common/DominatorTree.py:127-140 | a dominator tree has no cycle: a child has more dominators than its parent |
| NestingDepth.CostIsDepth | src/smda/common/DominatorTree.py:143-171 | on a dominator tree the cost of the root is the greatest number of significant dominators of a reachable vertex |
| NestingDepth.CalculateNestingDepth | src/smda/common/SmdaFunction.py:492-506 | the nesting depth is the greatest number of significant dominators of a vertex reachable from the root |
| Tarjans.Completed | src/smda/common/Tarjan.py:32-75 | when the search is over, the emitted components are exactly the classes of mutual reachability |
| Tarjans.Tarjan.Advance | src/smda/common/Tarjan.py:43-57 | the resumed iterator pushes the next unseen successor or lowers the low link for those on the stack, keeping the search invariant |
| Tarjans.Tarjan.PopDownTo | src/smda/common/Tarjan.py:61-67 | pops the stack down to and with the vertex |
| Tarjans.Tarjan.PopComponent | src/smda/common/Tarjan.py:60-68 | what is popped is the part of the stack from the vertex on |
| Tarjans.Tarjan.Finish | src/smda/common/Tarjan.py:59-73 | an exhausted vertex emits its component if its low link is its index, and passes its low link to its caller |
| Tarjans.Tarjan.CalculateScc | src/smda/common/Tarjan.py:23-75 | partitions the keys and all they reach into exactly the maximal mutually reachable sets, in an order where every edge that leaves a component leads to an earlier one |
| Tarjans.Gather | src/smda/common/Tarjan.py:84-90 | what is put together is exactly the successors, what the map has for them, and the component itself if it has more than one vertex |
| Tarjans.ClosureStep | src/smda/common/Tarjan.py:80-93 | successors and what they reach, together with the component itself if it has more than one vertex, are what the component reaches by a non-empty path |
| Tarjans.Tarjan.Closure | src/smda/common/Tarjan.py:77-94 | maps each vertex to exactly what it reaches by a path of at least one edge, self-loops included; the internal assertion holds for every graph |
| AddressReferences.AddressRefs.Add | src/smda/DisassemblyResult.py:57-65 | adds one reference to the plain map the compressed one stands for |
| AddressReferences.AddressRefs.Discard | src/smda/DisassemblyResult.py:67-73 | takes one reference out, leaving an entry behind even where there was none |
| AddressReferences.AddressRefs.Get | src/smda/DisassemblyResult.py:28-36 | returns the set of the plain map, or nothing for an address without an entry |
| AddressReferences.AddressRefs.Items | src/smda/DisassemblyResult.py:38-40 | every entry of the plain map, boxed |
| AddressReferences.AddressRefs.EqualsMapping | src/smda/DisassemblyResult.py:46-49 | true exactly when the plain map equals the other mapping of addresses to sets, however the entries are stored |
| AddressReferences.AddressRefs.Equals | src/smda/DisassemblyResult.py:46-49 | the same against another compressed map: true exactly when the plain maps are equal |
| AddressReferences.LastOperationDecides | src/smda/DisassemblyResult.py:57-73 | after any sequence of additions and removals a reference is present exactly when the last operation about it added it, or none was about it and it was there before |
| AddressReferences.ConverseAdded | src/smda/DisassemblyResult.py:309-311 | adding an edge in both directions keeps the two maps converse |
| AddressReferences.ConverseDiscarded | src/smda/DisassemblyResult.py:322-324 | removing an edge in both directions keeps the two maps converse |
| Disassembly.DisassemblyResult.AddCodeRefs | src/smda/DisassemblyResult.py:309-311 | one edge more, both maps still converse |
| Disassembly.DisassemblyResult.MergeCodeRefs | src/smda/DisassemblyResult.py:313-320 | exactly the edges of the function's map are added, both maps still converse |
| Disassembly.DisassemblyResult.RemoveCodeRefs | src/smda/DisassemblyResult.py:322-324 | one edge less, both maps still converse |
| Disassembly.DisassemblyResult.AddDataRefs | src/smda/DisassemblyResult.py:326-336 | one data reference more, both maps still converse |
| Disassembly.DisassemblyResult.RemoveDataRefs | src/smda/DisassemblyResult.py:338-344 | one data reference less, both maps still converse |
| Disassembly.DisassemblyResult.GetOutRefs | src/smda/DisassemblyResult.py:381-405 | an entry for exactly the instructions with a reference inside the image and outside the function, or to its entry, listing these in ascending order |
| Blocks.BlocksAreSlices | src/smda/common/FunctionAnalysisState.py:281-351 | one block for each instruction that is a potential start, in address order, beginning there and running over consecutive instructions |
| Blocks.WalkStops | src/smda/common/FunctionAnalysisState.py:310-347 | a walk goes on exactly as long as no rule stops it, passes no start, and drops at most the reference out of its last instruction |
| Blocks.NoStartInsideABlock | src/smda/common/FunctionAnalysisState.py:281-351 | when every start but the lowest instruction has an entry among the targets, no start lies inside another block and each block ends before the next begins |
| Blocks.StartsStayOutsideExactlyWhenSealed | src/smda/common/FunctionAnalysisState.py:281-351 | when no instruction reaches into a later one: no start lies inside another block exactly when no instruction that a start reaches passes the walk on to another start |
| Blocks.KeyedIsSealed | src/smda/common/FunctionAnalysisState.py:338-343 | entries among the targets for all starts but the lowest are enough for that |
| Blocks.TargetsStayKeyed | src/smda/common/FunctionAnalysisState.py:121-149 | adding and removing references keeps an entry among the targets for every jump target |
| FunctionStates.OnlyTheEntryMayLackAKey | src/smda/common/FunctionAnalysisState.py:302-304 | so the hypothesis can only fail for the function's entry, when it is neither the lowest instruction nor referred to |
| FunctionStates.KeyedStartsOutside | src/smda/common/FunctionAnalysisState.py:281-351 | so no start lies inside another block of a function whose entry is referred to or is its lowest instruction |
| RecoveryLimits.StartInsideABlock | src/smda/common/FunctionAnalysisState.py:338-347 | a run over four instructions, from the empty result by booking and referring alone, that ends where a function with its entry inside another of its blocks is recorded |
| Blocks.BlocksHoldCovered | src/smda/common/FunctionAnalysisState.py:281-351 | when no start lies inside another block, the blocks in order are exactly the instructions that a start reaches with nothing stopping the walk, each once |
| Blocks.BlocksCoverExactlyWhenLinked | src/smda/common/FunctionAnalysisState.py:281-351 | then the blocks make up the sorted instruction list exactly when every instruction is a start or follows one that passes the walk on |
| Coverage.BlocksHoldReached | src/smda/common/FunctionAnalysisState.py:281-351 | with no hypothesis about starts or collisions: an instruction is in a block exactly when the count of walks that reach it is not zero, where the first walk to a collision drops the reference and ends, and later ones find it gone |
| Coverage.ReachedExactlyWhenLinked | src/smda/common/FunctionAnalysisState.py:306-349 | where nothing collides every instruction is reached exactly when each is a start or follows one that passes the walk on |
| Coverage.BlocksEndByRules | src/smda/common/FunctionAnalysisState.py:310-347 | a block that holds an instruction holds its successor if and only if the first is a call or refers to nothing but the second, the second is no start with a reference to it and has at most one source, and neither mnemonic nor architecture ends the block; where the next address belongs to another function the first such block ends, and later ones are decided without that reference |
| Recovery.BlocksFollowRules | src/smda/common/FunctionAnalysisState.py:281-351 | so it is in the blocks of every analysis of the engine |
| Blocks.LastWordIsLast | src/smda/common/FunctionAnalysisState.py:310-314 | a mnemonic counts without its prefixes: the part behind the last space |
| Blocks.TargetsStayExact | src/smda/common/FunctionAnalysisState.py:121-149 | the jump targets are exactly what some jump refers to, whatever references are added and removed: a target stays one as long as another jump refers to it, and no longer |
| Blocks.FlowGainsAndLoses | src/smda/common/FunctionAnalysisState.py:121-149 | adding and removing a reference changes both maps by exactly that reference |
| AnalysisStates.FunctionAnalysisState.ChooseNextBlock | src/smda/common/FunctionAnalysisState.py:71-79 | the last block queued moves to the processed ones, and the latches are cleared |
| AnalysisStates.FunctionAnalysisState.AddInstruction | src/smda/common/FunctionAnalysisState.py:93-105 | books the instruction, its bytes and, when the next one is reached, the edge to it |
| AnalysisStates.FunctionAnalysisState.AddCodeRef | src/smda/common/FunctionAnalysisState.py:121-137 | adds an edge in both directions and, for a jump, its target |
| AnalysisStates.FunctionAnalysisState.RemoveCodeRef | src/smda/common/FunctionAnalysisState.py:139-149 | removes an edge but keeps its entries; a target remains one while another jump refers to it |
| AnalysisStates.FunctionAnalysisState.JudgeOne | src/smda/common/FunctionAnalysisState.py:312-347 | what happens to the walk at one instruction is what the rules in their order specify; `Coverage.BlocksEndByRules` says what the rules mean |
| AnalysisStates.FunctionAnalysisState.TakeBlock | src/smda/common/FunctionAnalysisState.py:310-347 | one block and the references left are those of the specified walk |
| AnalysisStates.FunctionAnalysisState.GetBlocks | src/smda/common/FunctionAnalysisState.py:281-351 | the loop over sorted starts finds the blocks that a scan over the sorted instructions specifies, or returns those found before (where they end: `Recovery.BlocksFollowRules`); no start lies inside another of the blocks found if the entry is referred to or lowest |
| FunctionStates.PushKeepsQueue | src/smda/common/FunctionAnalysisState.py:81-84 | queued and processed blocks stay disjoint and the queue lists each queued block once |
| FunctionStates.PopKeepsQueue | src/smda/common/FunctionAnalysisState.py:71-84 | a block that is chosen was never processed before and is never queued again |
| AnalysisStates.FunctionAnalysisState.SortInstructions | src/smda/common/FunctionAnalysisState.py:157-160 | the booked instructions are in address order afterwards, in place, whether they were sorted before or not |
| Collections.SortIsAPermutation | src/smda/common/FunctionAnalysisState.py:291-293 | the stable sort gives a permutation in order |
| FunctionStates.SortIsStrict | src/smda/common/FunctionAnalysisState.py:291-293 | instructions at distinct addresses sort into strictly ascending order |
| AnalysisStates.FunctionAnalysisState.RecordInstructions | src/smda/common/FunctionAnalysisState.py:189-208 | enters shapes and owners of all instructions and finds their least start and greatest end |
| AnalysisStates.FunctionAnalysisState.FinalizeRegularAnalysis | src/smda/common/FunctionAnalysisState.py:187-219 | the result is the old one with the function's findings recorded |
| AnalysisStates.FunctionAnalysisState.FinalizeAnalysis | src/smda/common/FunctionAnalysisState.py:221-259 | which analyses are kept and which of them are recorded |
| AnalysisStates.KeptInPlainTerms | src/smda/common/FunctionAnalysisState.py:221-247 | kept is anything that is no gap candidate or ended sanely, a lone jump that is not the short form, and a single block of more that ends with a jump or a call |
| AnalysisStates.FunctionAnalysisState.RevertAnalysis | src/smda/common/FunctionAnalysisState.py:261-279 | the result is the old one without the function's findings |
| Recording.RevertUndoesFinalize | src/smda/common/FunctionAnalysisState.py:187-219 | recording and then undoing restores the whole result, but for the data map and up to empty reference entries, exactly when the function had left no trace before |
| Recording.FinalizedInPlainTerms | src/smda/common/FunctionAnalysisState.py:187-219 | recording adds exactly the function's marks, references and data, and gives it exactly the bytes of its instructions |
| Recording.ExtentHolds | src/smda/common/FunctionAnalysisState.py:192-207 | the borders hold all instructions and are no wider than that |
| FunctionStates.RevertAnalysisUndoesFinalize | src/smda/common/FunctionAnalysisState.py:261-279 | the same for the state object, whose blocks are derived, whose references are reduced and whose instructions are sorted in between |
| Recording.FunctionsAreDisjoint | src/smda/DisassemblyResult.py:96-99 | stored functions share no byte |
| Recording.BordersEnclose | src/smda/DisassemblyResult.py:94-99 | an owned byte lies between the borders of its owner, and an owner owns its start |
| Recording.FinalizeKeepsOwnership | src/smda/common/FunctionAnalysisState.py:187-219 | recording a function whose bytes are new and whose blocks cover it keeps the owner map exact, for every instruction width |
| Recording.RevertKeepsOwnership | src/smda/common/RecursiveDisassembler.py:249-267 | undoing a stored function keeps the owner map exact: no byte keeps an owner that is gone |
| Recording.StaleOwners | src/smda/common/RecursiveDisassembler.py:249-267 | undoing a function from its stored blocks gives every byte back exactly when the blocks held every booked instruction |
| RecoveryLimits.UnjustifiedRun | src/smda/common/FunctionAnalysisState.py:306-349 | a run over three AArch64 instructions that records a function which owns a byte none of its stored instructions covers |
| RecoveryLimits.StaleOwnerRun | src/smda/common/RecursiveDisassembler.py:249-293 | the run goes on, with an absorbing step as the Intel backend takes it, to a byte whose owner is no function any more |
| Recording.FinalizeKeepsSafe | src/smda/common/FunctionAnalysisState.py:187-219 | recording a function of free words keeps stored functions apart even if its blocks lose instructions |
| Recording.RevertKeepsSafe | src/smda/common/RecursiveDisassembler.py:249-267 | undoing a stored function keeps the others apart |
| Recovery.BookKeepsSound | src/smda/common/RecursiveDisassembler.py:432-439 | looking up only the start address of an instruction is enough for words: none of its bytes is booked or owned by a stored function |
| Recovery.RevertedWordIsFree | src/smda/common/RecursiveDisassembler.py:453-456 | after the owner of an address is undone no stored function owns the word there, and the analysis had not booked it |
| Recovery.BlocksHoldStarts | src/smda/common/FunctionAnalysisState.py:281-351 | blocks hold nothing but booked instructions, and each of these that is a potential start |
| Recovery.SoundIsStorable | src/smda/common/RecursiveDisassembler.py:505-505 | an analysis that booked only free words can be recorded: its entry is always in a block |
| Recovery.SoundIsReady | src/smda/common/RecursiveDisassembler.py:505-505 | if its blocks cover it, it is recorded with exact ownership |
| Recovery.CoversExactlyWhenReached | src/smda/common/FunctionAnalysisState.py:281-351 | for every analysis under way, the blocks cover the booked instructions exactly when some walk reaches each of them |
| Recovery.CoversExactlyWhenLinked | src/smda/common/FunctionAnalysisState.py:281-351 | where nothing collides, they do exactly when each is a start or follows one that passes the walk on |
| Recovery.OwnershipNeedsCover | src/smda/common/RecursiveDisassembler.py:505-505 | recording an analysis keeps the owner map exact if and only if its blocks cover it |
| Recovery.StepKeeps | src/smda/common/RecursiveDisassembler.py:324-528 | every step of the engine keeps stored functions apart, the booked words free and the queue valid |
| Recovery.StepKeepsOwnership | src/smda/common/RecursiveDisassembler.py:324-528 | every step keeps the owner map exact, if a function that is recorded is covered by its blocks |
| Recovery.EveryRunKeepsFunctionsApart | src/smda/common/RecursiveDisassembler.py:324-528 | at every point of every run from the empty result, whatever becomes of candidates on the way, stored functions share no byte, own all of theirs, and share none with what is booked |
| Recovery.EveryRunKeepsOwnership | src/smda/common/RecursiveDisassembler.py:324-528 | in every run that records functions only when their references lead some walk to each of their instructions, the owner map is at every point exactly the byte map of the stored functions, and borders are exact |
| Recovery.EveryRunKeepsStartsOutside | src/smda/common/FunctionAnalysisState.py:281-351 | in every run, no start lies inside another block of a function when it is recorded, if its entry is referred to or is its lowest instruction |
| Recovery.NoBlockIsProcessedTwice | src/smda/common/RecursiveDisassembler.py:356-366 | no analysis takes the same block start twice, in any run |
| Disassemblers.RecursiveDisassembler.RevertStoredFunction | src/smda/common/RecursiveDisassembler.py:249-267 | undoes the function as rebuilt from its stored blocks, with the references out of it or without |
| Disassemblers.RecursiveDisassembler.RevertGapFunction | src/smda/common/RecursiveDisassembler.py:214-247 | undoes the owner of an address exactly when it is another, stored, gap function without a landing pad at its entry |
| Disassemblers.RecursiveDisassembler.AbsorbFunction | src/smda/common/RecursiveDisassembler.py:269-293 | undoes another stored function, references included, exactly when it is a candidate that is not from the gap scan |
| Trails.EventOf | src/smda/common/RecursiveDisassembler.py:428-431 | each thing a backend does about an instruction is a step of a run, so what holds over every run holds for it |
| Trails.ReactionsKeep | src/smda/common/RecursiveDisassembler.py:428-431 | whatever a backend does about an instruction, nothing is unbooked or newly booked, each block it queues is queued or was processed, and the block ends only if it notes the end |
| Trails.RoutesInPlainTerms | src/smda/common/FunctionAnalysisState.py:81-149 | what its references, jump targets and blocks leave behind |
| Trails.DataInPlainTerms | src/smda/common/FunctionAnalysisState.py:151-155 | exactly the bytes of the data it refers to are noted as data, and as a jump table if they are one |
| Trails.NotesInPlainTerms | src/smda/common/FunctionAnalysisState.py:364-393 | each note is set by its own effect and by no other |
| Trails.EffectsInPlainTerms | src/smda/common/RecursiveDisassembler.py:428-431 | an effect leaves exactly these data, and but for those on references and blocks exactly these notes |
| Trails.EffectsUndo | src/smda/common/RecursiveDisassembler.py:269-293 | a stored function is undone by an effect exactly if it is absorbed, is not the one under analysis, and is a candidate of its own |
| Trails.BookingUndoes | src/smda/common/RecursiveDisassembler.py:214-247 | booking a word undoes exactly its owner, and that only if it is a gap function no landing pad marks and no gap is being analysed |
| Trails.BookingAdds | src/smda/common/FunctionAnalysisState.py:93-105 | a booked word is listed with its address and bytes, and refers to the next address exactly if that is reached |
| Disassemblers.RecursiveDisassembler.React | src/smda/common/RecursiveDisassembler.py:428-431 | any effects in any order, each a step of a run, keep what the engine keeps |
| Disassemblers.RecursiveDisassembler.BookOrCollide | src/smda/common/RecursiveDisassembler.py:432-462 | a word that nobody owns, that is no data and was not booked is booked, and so is one of a gap function, which is undone, if no gap is being analysed; in every other case nothing changes but that the block ends, and an owned word counts as a collision; the step is one of a run |
| Trails.StoppedInPlainTerms | src/smda/common/RecursiveDisassembler.py:389-397 | a jump table ends the block: only the reference of the last word to it is dropped, and the function ends sanely |
| Trails.TrailStays | src/smda/common/RecursiveDisassembler.py:386-479 | what is known of a block stays true whatever is analysed afterwards |
| Trails.FreeStartIsBooked | src/smda/common/RecursiveDisassembler.py:366-439 | a start that decodes, belongs to nobody and is no data is booked, unless the backend cuts it or a jump table begins there |
| Trails.ClosedCounts | src/smda/common/RecursiveDisassembler.py:463-465 | a block that is gone over to its end counts, which recording asks for |
| Disassemblers.RecursiveDisassembler.DecodeBlock | src/smda/common/RecursiveDisassembler.py:386-479 | decoding a block ends, and everything from its start to where it ends is booked, each word with what the backend did about it; it ends where nothing decodes, at a jump table, at the second word of zeros, where the backend cuts it or noted the end, or at a word that belongs to another function, is data or was booked before |
| Disassemblers.RecursiveDisassembler.Explore | src/smda/common/RecursiveDisassembler.py:356-366 | the worklist ends, with an empty queue unless the candidate is given up or time runs out; the blocks processed are those whose trails are given, the first is the start, each trail holds, every block the backend queued is queued or processed, nothing is booked that no trail took up, and the candidate is given up exactly at the second word of zeros |
| Disassemblers.RecursiveDisassembler.AnalyzeFunction | src/smda/common/RecursiveDisassembler.py:324-528 | whatever the backend does about each instruction and whenever time runs out: a candidate is gone over unless it has an owner or is declared inside; the trails of its blocks hold; a start that belongs to nobody, is no data and decodes is booked unless it is cut or a table begins there; the function is recorded exactly if it was not given up, some block counts, its start is booked and its end is acceptable; what is recorded is exactly the findings of a sound analysis, exact ownership is kept if and only if its blocks cover it, and functions stay apart |
| Partition.SegmentIsGreatest | src/smda/common/RecursiveDisassembler.py:724-732 | an address belongs to the greatest split point not above it, or to the function itself |
| Partition.PartsConserveInstructions | src/smda/common/RecursiveDisassembler.py:728-739 | whatever the blocks look like, a segment gets exactly the function's instructions that belong to it, in their old order |
| Partition.RunsMakeUpBlock | src/smda/common/RecursiveDisassembler.py:728-739 | the fragments of a block make it up, and each lies in one segment |
| Partition.PartitionBlocks | src/smda/common/RecursiveDisassembler.py:724-739 | the nested loops hand every segment the fragments that are its own |
| Partition.SplitIsFull | src/smda/common/RecursiveDisassembler.py:741-742 | for split points above the entry that begin instructions, no segment is empty |
| Partition.SplitKeepsOwnership | src/smda/common/RecursiveDisassembler.py:723-787 | a split keeps the owner map exact, and so functions disjoint and borders exact, if and only if no instruction reaches across a split point |
| Disassemblers.RecursiveDisassembler.AssignSegment | src/smda/common/RecursiveDisassembler.py:748-769 | stores one segment as a function with its borders, owners, symbol and flags |
| Partition.SegmentMarks | src/smda/common/RecursiveDisassembler.py:757-769 | a segment is a leaf unless it holds a call, recursive if one of its calls refers to its start, a thunk if it is a lone jump to an imported function; other functions keep their marks |
| Partition.EdgesAfterSplit | src/smda/common/RecursiveDisassembler.py:777-785 | after a split an edge into a split point is gone exactly if it comes from an instruction that ends there and is not of the segment that begins there; every other edge stays |
| Disassemblers.RecursiveDisassembler.DropFallThroughInto | src/smda/common/RecursiveDisassembler.py:777-785 | removes exactly the edges into a split point that fall through from an instruction of another function |
| Disassemblers.RecursiveDisassembler.PartitionFunctionAtPdataEnds | src/smda/common/RecursiveDisassembler.py:723-787 | nothing changes if some segment is empty; else the result is the specified split, without fall-through edges into split points |
| DeclaredRanges.LastInteriorFinds | src/smda/common/FunctionCandidateManager.py:604-638 | the plain search answers exactly when some record has the address in its interior |
| DeclaredRanges.ExceptionDirectory.BuildIndex | src/smda/common/FunctionCandidateManager.py:619-631 | sorts the records and bounds the ends of all records up to each one |
| DeclaredRanges.ExceptionDirectory.DeclaredExceptionRangeContaining | src/smda/common/FunctionCandidateManager.py:604-638 | equals a plain search of the whole sorted list, for every list, overlapping and nested records included |
| DeclaredRanges.DeclaredFdeRangeContaining | src/smda/common/FunctionCandidateManager.py:740-760 | the walk down the ranges as specified, including where it gives up |
| DeclaredRanges.FdeLookupFinds | src/smda/common/FunctionCandidateManager.py:740-760 | the lookup equals a plain search exactly when no two neighbours that end before the address shadow the range that holds it |
| DeclaredRanges.DisjointIsNeverShadowed | src/smda/common/FunctionCandidateManager.py:740-760 | ranges that do not overlap never shadow one another, so there the lookup is complete |
| DeclaredRanges.NestedIsShadowed | src/smda/common/FunctionCandidateManager.py:755-758 | a concrete list of nested ranges for which the lookup finds nothing although a range has the address in its interior |
| DeclaredRanges.MergedRanges | src/smda/aarch64/FunctionCandidateManager.py:1032-1042 | the loop computes the specified merge |
| DeclaredRanges.MergingKeepsTheUnion | src/smda/aarch64/FunctionCandidateManager.py:1032-1042 | merged ranges hold the same addresses and are separate, whatever the order and overlap of the originals |
| DeclaredRanges.BisectionFindsRange | src/smda/common/FunctionCandidateManager.py:97-118 | bisection over the merged ranges answers as a search of the original ones does |
| FunctionGaps.UpdateFunctionGaps | src/smda/common/FunctionCandidateManager.py:214-250 | the sorted list of exactly the heads and tails of the areas that the first and last code bytes are in, and the holes between code bytes that do not begin at address 0 |
| FunctionGaps.ByteIsListed | src/smda/common/FunctionCandidateManager.py:214-250 | a byte without code is in a listed gap exactly when it lies between code bytes other than one at address 0, or in the same area as the first or last code byte beyond it |
| FunctionGaps.GapsHoldNoCode | src/smda/common/FunctionCandidateManager.py:234-249 | no gap holds code, but for the last code byte, with which the tail of a known code area begins |
| FunctionGaps.WholeImageIsListed | src/smda/common/FunctionCandidateManager.py:225-249 | without code areas, every byte of the image that is not code is listed if and only if some code lies behind the first byte of the image and code at address 0 goes on at address 1 (or the image is trivial) |
| GapScan.OwnedIsEnclosed | src/smda/common/FunctionCandidateManager.py:302-304 | an exact owner map puts every owned byte before the end of its function |
| GapScan.NextGapIsAhead | src/smda/common/FunctionCandidateManager.py:277-324 | there is a next gap, and it is ahead of the pointer, if and only if the function the pointer is in, when asked for, has borders and ends behind it; without borders there is an error |
| GapScan.NextGapIsNearest | src/smda/common/FunctionCandidateManager.py:277-324 | no gap begins between the pointer and the next gap, which begins there, or is the end of the function the pointer is in, the address mask or the end of the image |
| GapScan.EndOfRunIsFirstTerminator | src/smda/aarch64/FunctionCandidateManager.py:1115-1145 | the skip ends behind the first terminator in reach, or is one word long if there is none |
| GapScan.SkipsLeadAhead | src/smda/aarch64/FunctionCandidateManager.py:1224-1350 | every skip of the scan moves the pointer strictly ahead |
| GapScan.OffersAreProposable | src/smda/aarch64/FunctionCandidateManager.py:1224-1354 | an address is offered if and only if it is proposable and was not the last one analysed: aligned, inside the image, the code areas and the executable sections, outside code and data, undeclared, neither padding nor a trap, no BTI pad judged interior, and no run that flows into the interior of a function |
| GapScan.Scan | src/smda/aarch64/FunctionCandidateManager.py:1224-1354 | the scan ends, and what it offers is a proposable address not before the pointer and not the last one analysed |
| GapScan.ScanOffers | src/smda/aarch64/FunctionCandidateManager.py:1224-1354 | the first aligned address from the pointer on is offered if it is proposable and was not the last one analysed |
| GapScan.DeclaredSkipsRanges | src/smda/aarch64/FunctionCandidateManager.py:1264-1312 | the tables skip the rest of a record or described range that holds the address, or one word that is a landing pad |
| GapScan.NextExecutableIsNearest | src/smda/aarch64/FunctionCandidateManager.py:1242-1251 | the skip to the next executable section passes nothing executable |
| GapScan.InteriorOwnerInPlainTerms | src/smda/common/FunctionCandidateManager.py:774-828 | an address belongs to a recovered function whose borders hold it and whose frame description, outside a PLT, or else whose exception record has it inside |
| GapScan.WordsInPlainTerms | src/smda/aarch64/FunctionCandidateManager.py:1115-1145 | returns, indirect branches, branches and traps are recognised for every register, offset and number |
| GapScan.FunctionCandidateManager.InitGapSearch | src/smda/common/FunctionCandidateManager.py:265-275 | lists the gaps of the disassembly as it stands; the pointer starts at the first gap, or at the end of the image |
| GapScan.FunctionCandidateManager.GetNextGap | src/smda/common/FunctionCandidateManager.py:277-324 | the next gap as specified, or the error for a function without borders |
| GapScan.FunctionCandidateManager.FindDeclaredInteriorOwner | src/smda/common/FunctionCandidateManager.py:774-828 | the recovered function whose declared range and whose borders hold the address, as specified |
| GapScan.FunctionCandidateManager.EndOfRefusedLandingPadRun | src/smda/aarch64/FunctionCandidateManager.py:1115-1145 | the walk over words as specified |
| GapScan.FunctionCandidateManager.DeclaredSkip | src/smda/aarch64/FunctionCandidateManager.py:1264-1312 | the three rules from declared tables, in their order |
| GapScan.FunctionCandidateManager.Consider | src/smda/aarch64/FunctionCandidateManager.py:1232-1283 | what is done at an address, reason by reason |
| GapScan.FunctionCandidateManager.ConsiderWord | src/smda/aarch64/FunctionCandidateManager.py:1252-1312 | what is done at an executable word that nobody owns |
| GapScan.FunctionCandidateManager.ConsiderShape | src/smda/aarch64/FunctionCandidateManager.py:1313-1354 | the reasons that look at the word and at what was analysed before, as specified; with `GapScan.OffersAreProposable` the last address standing is offered exactly if no shape test refuses it |
| GapScan.FunctionCandidateManager.NextGapCandidate | src/smda/aarch64/FunctionCandidateManager.py:1197-1354 | returns the candidate of the specified scan, or none once time is up, and notes it: it is proposable and not the one analysed last, and the first aligned address from the pointer on is returned if it is that |
| GapPasses.Resume | src/smda/common/RecursiveDisassembler.py:602-609 | after an analysis the search goes on at the next gap or at the end of the function the candidate became, its answer is the scan's unless time runs out, and the next candidate lies behind the one analysed |
| GapPasses.AnalyzeCandidate | src/smda/common/RecursiveDisassembler.py:324-354 | a candidate is analysed with the outcome that `AnalyzeFunction` states, and counts as declared inside exactly if a recovered function surrounds it |
| GapPasses.AnalyzeGaps | src/smda/common/RecursiveDisassembler.py:590-609 | the gap pass over the engine itself, from any state it can be in: it ends; each candidate is proposable when it is proposed and is then analysed, with the outcome that `AnalyzeFunction` states; candidates strictly increase; unless time ran out, it ends because a search from the next gap found nothing |
| GapPasses.AnalyzeBuffer | src/smda/common/RecursiveDisassembler.py:530-620 | the analysis of an image from the empty result over the first candidates, the gap pass and the late candidates, whichever candidates come, however the backend reacts and whenever time runs out: the result is reached by analysing them one after the other, its functions share no byte, and the gap pass proposed each address at most once |
| Leb128.ReadUleb128 | src/smda/common/EhFrameDecoder.py:47-56 | the loop computes the specified number, in at most ten bytes |
| Leb128.ReadSleb128 | src/smda/common/EhFrameDecoder.py:59-70 | the loop computes the specified signed number, including where the sign bit is not looked at |
| Leb128.UlebRoundTrip | src/smda/common/EhFrameDecoder.py:47-56 | an unsigned number is read back as written, anywhere in the data, exactly when it fits 70 bits |
| Leb128.SlebRoundTrip | src/smda/common/EhFrameDecoder.py:59-70 | a signed number is read back as written exactly when it fits nine bytes, or is not negative and fits ten |
| EhFrame.EncodedValue | src/smda/common/EhFrameDecoder.py:73-87 | a value is read only if it lies whole before the end, and the position never moves back |
| EhFrame.WalkEhFrameFdes | src/smda/common/EhFrameDecoder.py:183-224 | the loop gives out the specified frame descriptions, within the section |
| EhFrame.FdesAreInOrder | src/smda/common/EhFrameDecoder.py:183-224 | at most as many descriptions as records allowed, with bodies that do not overlap, in the order of the section |
| EhFrame.LandingPadDecoder.ReadTable | src/smda/common/EhFrameDecoder.py:352-363 | the loop reads the specified table, entry by entry; `EhFrameForms.TableRoundTrip` says what a table means |
| EhFrame.LandingPadDecoder.DecodeLsdaLandingPads | src/smda/common/EhFrameDecoder.py:296-363 | what the LSDA declares if it decodes and the budget is not spent, charging the length of its table |
| EhFrame.LandingPadDecoder.FdeLandingPads | src/smda/common/EhFrameDecoder.py:413-461 | one frame description, with both memos and both budgets |
| EhFrame.NextIsFaithful | src/smda/common/EhFrameDecoder.py:413-461 | the memos stay what plain decoding says; with budgets left a description yields what plain decoding yields |
| EhFrame.MemosAgreeWithPlainDecoding | src/smda/common/EhFrameDecoder.py:366-410 | for every section and reader, memos and budgets invent no pad, and lose none as long as both budgets last |
| EhFrame.PadsLieInTheirRange | src/smda/common/EhFrameDecoder.py:456-461 | every pad lies in the range of a description that declares it |
| EhFrame.ChargesAreBounded | src/smda/common/EhFrameDecoder.py:348-351 | with a reader that gives no more than asked, each budget is overdrawn by less than one LSDA |
| EhFrame.DecodeEhFrameLandingPads | src/smda/common/EhFrameDecoder.py:366-410 | memoised decoding under budgets invents no pad, misses none while the budgets last, and is charged less than a budget and one LSDA together; what plain decoding reads is `EhFrameSections.SectionRoundTrip` |
| EhFrameForms.ValueReadsBack | src/smda/common/EhFrameDecoder.py:73-104 | a value in any format that is supported, signed or not, is read back as it was written, wherever it stands |
| EhFrameForms.TableRoundTrip | src/smda/common/EhFrameDecoder.py:296-363 | for every header and every list of call sites in every encoding, an LSDA is read as exactly the pads that are not zero, each added to the function start, or to the LPStart given instead, absolute or relative to its own field |
| EhFrameForms.HeadRoundTrip | src/smda/common/EhFrameDecoder.py:413-433 | the head of a frame description is read back: location and LSDA pointer as they are, or relative to their own fields in the address space of the section, and the range |
| EhFrameForms.RecordRoundTrip | src/smda/common/EhFrameDecoder.py:195-219 | a record is read back in the short and in the extended form: its id, and where its body and the next record begin |
| EhFrameSections.FdesReadBack | src/smda/common/EhFrameDecoder.py:183-224 | the frame descriptions given out are exactly those written under a supported CIE, each with that CIE and its own body |
| EhFrameSections.SectionRoundTrip | src/smda/common/EhFrameDecoder.py:366-467 | from a section of any CIEs and descriptions in any order, with tables written in any supported encoding, exactly the pads are read that lie in the range of a description and that its call sites name |
| Overlap.SweepSpans | src/smda/binja/BinjaInterface.py:75-80 | the sweep with its list of active spans finds exactly the ordered pairs of different architecture of which the first reaches past the start of the second |
| Overlap.FindConflicts | src/smda/binja/BinjaInterface.py:66-80 | for non-empty blocks the conflicts are exactly the pairs of functions of different architecture with own blocks that share a byte |
| Overlap.Greedy | src/smda/binja/BinjaInterface.py:91-96 | kept functions do not clash, and each loser clashes with a kept one that has more evidence |
| Overlap.ModeOverlapLosers | src/smda/binja/BinjaInterface.py:61-97 | no two functions that stay, of different architecture, share a byte; each one left out shares a byte with one that stays and has more evidence: no invalid instructions, then more references to its start, then a lower start, then an earlier place |
| ItBlocks.DecodeInTwo | src/smda/arm/ArmBackend.py:57-65 | decoding to one address and on from there is decoding in one go |
| ItBlocks.GovernedBySlots | src/smda/arm/ArmBackend.py:110-121 | an IT instruction governs exactly as many instructions behind it as it has slots, counted down, unless another one comes first |
| ItBlocks.DecodedAgain | src/smda/arm/ArmBackend.py:93-106 | decoding again from the IT instruction and dropping what was seen gives what decoding on would give |
| ItBlocks.WindowsDoNotMatter | src/smda/arm/ArmBackend.py:57-65 | a run cut into any consecutive windows decodes as it does in one piece |
| ItBlocks.ArmCapstone.Track | src/smda/arm/ArmBackend.py:110-121 | gives out what is not before the offset and notes the IT state each instruction leaves |
| ItBlocks.ArmCapstone.DisasmLite | src/smda/arm/ArmBackend.py:93-108 | a window that continues exactly where decoding stopped is decoded inside its IT block, any other outside one |
| ItBlocks.DecodeRun | src/smda/arm/ArmBackend.py:57-121 | for every Thumb run and every sequence of consecutive windows, instructions and conditions are those of one decode of the whole run |
| Thumb.CallTargetInvertsEncode | src/smda/arm/definitions.py:318-339 | decoding inverts the architecture's encoding of BL and BLX for every representable offset: a BL at A goes to A + 4 + offset and a BLX to A + 4 aligned down to a word + offset, modulo 2^32, on integers |
| Thumb.EncodeInvertsOffset | src/smda/arm/definitions.py:324-336 | every BL and BLX word is the encoding of its own offset |
| Thumb.OnlyCallsHaveTargets | src/smda/arm/definitions.py:324-329 | exactly the BL and BLX words have a call target |
| Thumb.BranchTargetInvertsEncode | src/smda/arm/definitions.py:304-315 | an A32 B or BL at A with any condition and field goes to A + 8 + the offset the field stands for in two's complement, modulo 2^32 |
| Thumb.ExchangeTargetInvertsEncode | src/smda/arm/definitions.py:304-315 | so does an A32 BLX, to either halfword, and it lands in Thumb |
| Thumb.OnlyBranchesHaveTargets | src/smda/arm/definitions.py:304-315 | exactly the encodings of B, BL and BLX have a target |
| Thumb.OffsetPlaysNoPart | src/smda/arm/ArmInstructionEscaper.py:138-152 | all branches of one kind and condition are re-encoded as the same word |
| Thumb.OnlyBranchesAreReencoded | src/smda/arm/ArmInstructionEscaper.py:143-152 | besides the branches only the undefined form of BLX is re-encoded |
| Thumb.KindIsKept | src/smda/arm/ArmInstructionEscaper.py:138-152 | re-encoding keeps the kind and the condition |
| Thumb.CallsGoNowhere | src/smda/arm/ArmInstructionEscaper.py:146-148 | a re-encoded BL or BLX decodes to the same kind with offset zero, so it goes to its own address plus 4, aligned down to a word for BLX |
| Thumb.Render | src/smda/arm/ArmInstructionEscaper.py:92-101 | the loop renders bytes in little-endian order with a wildcard for every nibble the mask does not keep |
| Thumb.EscapeBinary | src/smda/arm/ArmInstructionEscaper.py:294-313 | the escaped form of a Thumb branch, and of other 32-bit words given their mask |
| Thumb.EscapedForm | src/smda/arm/ArmInstructionEscaper.py:303-307 | the escaped form of a branch says its kind and condition and nothing else |
| Thumb.EscapedAlike | src/smda/arm/ArmInstructionEscaper.py:303-307 | two branches are escaped alike if and only if they are of one kind with one condition, whatever their offsets |
| Thumb.OpcodeOnlyForm | src/smda/arm/ArmInstructionEscaper.py:286-289 | the opcode form says which of the four branches it is and nothing else |
| Minimize.Sweep | fuzzing/minimize.py:45-52 | a sweep ends; if it leaves the input alone with chunks of one byte, no single byte can be left out |
| Minimize.Round | fuzzing/minimize.py:42-53 | a round without progress leaves an input no single byte of which can be left out |
| Minimize.Shrink | fuzzing/minimize.py:34-56 | ends, returns a subsequence that satisfies the predicate if the input does, and is 1-minimal if it stopped before the rounds were used up |

## Left out

- Capstone, lief, dnfile, Binary Ninja and IDA: instruction decoding and container parsing are parameters.
- Byte-disjointness for variable-width instruction sets: only start addresses are looked up, so it does not follow.
- Restoring absorbed and reverted functions after a failed analysis (`_restoreAbsorbedFunctions`,
  `_restoreRevertedGapFunctions`): in the model these are further analyses of candidates. Called from within an
  analysis, they could call each other without end.
- Analyses undone by the tailcall pass: only the undoing itself is modelled.
- Abortion reasons, candidate scores, API and string references, logging, and the passes after an analysis is kept.
- `getBlocks` of the CIL and Dalvik backends, which largely repeats the common one.
- Two shape tests of the gap scan (`_isLikelyInteriorBtiCandidate`, `_gapRunFlowsIntoInterior`): parameters; what is
  proved of the scan holds for any two such tests.
- Completeness of the gap scan: it skips on purpose and uses a snapshot of the gaps.
- The parsing of CIE bodies (`_parse_cie`): a parameter of the landing-pad decoder. Its contract is that it is
  deterministic.
- `.pdata` split points at or below the entry of a function: the assignment of segments assumes that they lie above it.
- Exceptions swallowed by `get_nesting_depth`: the traversal is shown to end for trees without cycles, which dominator
  trees are.
- NestingDepth.GetNestingDepth: requires a tree without cycles, because on a cyclic one the original does not end.
- Thumb.EscapeBinary: the 16-bit and A32 paths of the method, which keep masks of their own, are not modelled.
- Window decoding of code that is not fully consumed before the next window, and A32 escaping.
- Offset-invariance of AArch64 and A32 escaping: the nibbles that are kept contain immediate bits, so it does not hold.
- Label providers, report serialisation, language and prologue heuristics, and the command-line scripts.
