# GeoDesk: a verified model of its query core

This project models the parts of GeoDesk (a C++ engine for querying OpenStreetMap features) that hold most of its
branching, state and protocol logic, and proves what these parts are for. `dafny verify dfyconfig.toml` checks all of it.

**The query compiler back end.** A tag query is a graph of ops, kept in an arena (`OpGraph`); a reference is an index.
What an op tests is an arbitrary function `eval(opcode, operand, state) -> (matched, state')`, so that every result
holds for every meaning of the opcodes. `Walk` follows the graph from a root: this is what a query means.
- `Layout`, `MatcherEmitter`: the layout of the graph as 16-bit words, with fall-through placement, inversion of
  branches, the stack of deferred ops, inserted GOTOs and jumps patched in place. `Layout` states the invariant that
  each placement keeps, `MatcherEmitter` is the code.
- `MatcherEngine`, `MatcherDecoder`: the interpreter and the disassembler, on the words alone. The main results are
  that interpreting the code returns what walking the graph returns, and that the linear sweep visits each instruction.
- `ValueOps`, `ValueSpecialisation`, `ValueDispatch`, `MatcherValidator`, `ClauseMeaning`: value ops are cloned for each
  type of tag value, behind loads and conversions. `Reference` is where the original ops lead if those that do not
  apply to the value count as unmatched.
- `Fragments`, `SelectorList`, `SelectorChain`, `PolyformSelectors`, `SelectorLinking`, `SelectorValidator`: selectors
  are chained as alternatives by copying nodes over the ops with which they reject, grouped by feature type, and
  relieved of redundant checks for local keys. What a selector does is its `Behaviour`: its verdict in a state, and the
  state that it leaves if it rejects, in which the next selector starts.
- `SelectorClauses`, `TagScan`, `TagLoad`: the ascending list of clauses, the scans of a packed tag table that rely on it,
  and the loads of the value found.

**The B+tree.** Nodes are pages of words which are edited in place by moves of overlapping ranges (`BTreeNode`). A tree
is well-formed (`TreeOk`) if the keys of every node ascend within the bounds that its parent's separators set, all
leaves have equal depth and every node but the root has one parent; `Valid` adds the least and greatest sizes of
nodes. It stands for the map whose bindings are the entries of its leaves (`Bound`). The page size is a parameter:
`4 * m` words, with `m >= 3` (256 in the code).

**The concurrent tile query.** `TileQuery` is a step system with one consumer, any number of workers and a bounded
pool; a step is what happens under one lock. `QueryResults` and `ThreadPool` are the data structures behind these
steps, as classes: the circular bucket lists, their splicing and opening, and the ring buffer.

**The tile index.** `TileIndex` describes the packed index as an array of words, with a mask of children in each record,
and the tiles that it holds in pre-order; `TileTree` says where these lie on the map. `TileScan` says at which tiles a
walk stops, for any box, and for which boxes these are the right ones. `TileIndexWalker` is the stateful walk,
`TileTwins` the test that makes a feature stored in several tiles appear once.

**Packed codecs and indexes.** `Quotient` (facts about numbers), `CompactHashTable`, `TritStreamReader`, `Varint`, and `WithinFilter` (the guarded
recursion through the members of relations, which may be cyclic).

## Where the code departs from its intent

- A clause with numeric ops, none of which is met on the way of a string that is not a global one, e.g. `[k=code][k>10]`:
  `findWrongTypeOp` is given CODE_TO_STR and stops at the STR_TO_NUM behind it, so values of other types reach ops for
  codes with whatever the registers hold (`Astray`). Values are dispatched as the clause says if and only if it is not
  astray, or no global string can match it (`NoCodeMatches`): `MatcherValidators.MatcherValidator.CreateMultiTypeLoadOps`
  and `InsertLoadOps` state it for what they build, `ClauseMeaning.GapAcceptsWrongly` is an instance.
- LOCAL_KEY takes bit 2 of the current key for the flag of a last local key, although the current key may be a global
  one, namely if FIRST_LOCAL_KEY has found nothing. Then a local key that is present counts as absent if the last
  global scan ended at a key with an odd code: `TagScans.LocalAnswersRight` is the exact condition,
  `TagScans.GapRejectsWrongly` an instance.
- `validateAllSelectors` follows the false branch of the first op of the first selector, which is null if that selector
  has no clauses (its first op is RETURN). It reads the null branch if and only if a later selector then starts with
  HAS_LOCAL_KEYS (`FirstHasBranch`): `SelectorValidators.SelectorValidator.ValidateAllSelectors` states it, and
  `ValidatePolyformSelectors` for the groups; `SelectorValidators.NullBranchIsRead` is an instance.
- A box may reach across the antimeridian, with its west side beyond its east side, but the walk over the tile index
  then stops in one column of each matrix only, and where the two sides lie in different columns leaves out the first
  row as well. It visits exactly the tiles that meet a non-empty box, whatever the index, if and only if the box does not
  cross: `TileScans.RightUnlessAcross`.
- Signed 64-bit varints are read back exactly if they fit into 63 bits: `Varints.ReadsSignedExactly`.

## Model

| member | source | states |
|---|---|---|
| MatcherEngines.Accept | src/match/MatcherEngine.cpp:103-331 | interpreting the emitted code from its first word returns what walking the graph from its root returns, for every meaning of the ops and every start state; the interpreter ends |
| MatcherEngines.ShortCodeRuns | src/match/MatcherEmitter.cpp:186-203 | code of at most 16K words whose resources are in reach can be run: no jump asserted by fixJumps fails |
| MatcherEngines.SmallMatcherReaches | src/match/MatcherEmitter.h:98-106 | if the resources lie before the code and all of it within 64K, every resource is in reach |
| MatcherEmitters.CompileMatcher | src/match/MatcherEmitter.cpp:10-203 | emit and fixJumps give linked code: each op reachable from the root is placed once, no other op is, every branch falls through or jumps to its target; at most one GOTO is added for each op |
| MatcherEmitters.MatcherEmitter.Emit | src/match/MatcherEmitter.cpp:25-183 | emission ends with no op deferred, the layout invariant holds, and the length is bounded by the ops placed |
| MatcherEmitters.MatcherEmitter.OrientBranch | src/match/MatcherEmitter.cpp:143-179 | a branch whose false way is placed but whose true way is not is inverted, one with both ways placed gets a GOTO; matched or not, the op as placed leads where the original leads, or to a GOTO to there |
| MatcherEmitters.MatcherEmitter.PlaceNext | src/match/MatcherEmitter.cpp:33-182 | one round places one new node where the code ends and keeps the layout invariant |
| MatcherEmitters.MatcherEmitter.TakeDeferred | src/match/MatcherEmitter.h:83-91 | what is popped has not been placed; the stack is empty if there is none |
| MatcherEmitters.MatcherEmitter.FixJumps | src/match/MatcherEmitter.cpp:186-203 | all jumps hold the distance to their targets, the rest of the code is unchanged |
| MatcherEngines.ShortRoundTrip | src/match/MatcherEmitter.cpp:186-203 | a distance stored as a 16-bit word is read back with its sign |
| Layouts.PlacedAreReachable | src/match/MatcherEmitter.cpp:33-182 | when emission ends, an op has been placed exactly if it can be reached |
| Layouts.FixedIsLinked | src/match/MatcherEmitter.cpp:186-203 | once every jump is patched, falling through and jumping follow the graph |
| OpGraphs.WalkIgnoresRank | src/match/OpGraph.h:138-177 | what a graph means does not depend on the ranking that shows it free of cycles |
| OpGraphs.OpGraph.CreateGoto | src/match/OpGraph.cpp:126-132 | the arena gains a GOTO whose two ways lead to the target |
| MatcherDecoders.Decode | src/match/MatcherDecoder.cpp:14-64 | the linear sweep visits exactly the emitted instructions in ascending order and stops at the end of the code |
| BTrees.Insert | include/clarisma/store/BTree.h:417-494 | inserting an absent key adds this binding and no other, and keeps the invariant through leaf splits, inner splits and a new root |
| BTrees.BTree.InsertRound | include/clarisma/store/BTree.h:422-493 | one level of the climb either completes the tree or leaves one entry due at the level above, with the same bindings |
| BTreeRemovals.Remove | include/clarisma/store/BTree.h:510-635 | removing at a valid position deletes this binding and no other, and keeps the invariant through borrowing, merging and the collapse of the root |
| BTreeRemovals.Rebalance | include/clarisma/store/BTree.h:540-634 | a node one below the least size borrows or merges, after which all is well or its parent is due; the bindings stay |
| BTreeRemovals.AtRoot | include/clarisma/store/BTree.h:522-537 | an inner root without keys is replaced by its only child |
| BTreeIterations.Iterate | include/clarisma/store/BTree.h:203-222 | the iteration ends, and yields exactly the bindings in strictly ascending order of keys |
| BTreeIterations.MoveToFirst | include/clarisma/store/BTree.h:115-134 | the cursor is at the first entry of the leaf that starts the key range |
| BTreeIterations.MoveNext | include/clarisma/store/BTree.h:158-187 | the cursor moves to the next entry, in the same leaf or at the start of the leaf that follows it |
| BTreeIterations.NextLeaf | include/clarisma/store/BTree.h:158-187 | the entries passed at the end of a leaf are those passed at the start of the leaf whose range follows |
| BTrees.Cursor.FindLowerBound | include/clarisma/store/BTree.h:94-113 | the descent ends in the leaf whose range covers the key, at the first entry that is not below it |
| BTrees.LowerBoundDecides | include/clarisma/store/BTree.h:94-113 | a binding with the key exists in the tree exactly if it is the entry at this position |
| BTreeNodes.InsertRaw | include/clarisma/store/BTree.h:401-413 | moving words makes room for one entry at the position |
| BTreeNodes.RemoveRaw | include/clarisma/store/BTree.h:499-508 | moving words closes the gap of one entry |
| BTreeNodes.FindInnerNodeEntry | include/clarisma/store/BTree.h:340-375 | the position is the last whose key is not above the key sought |
| BTreeNodes.FindLeafNodeEntry | include/clarisma/store/BTree.h:377-399 | the position is the first whose key is not below the key sought |
| BTreeNodes.InsertSplit | include/clarisma/store/BTree.h:432-474 | the two halves joined by the separator are the full node with the entry inserted, and each half has room |
| BTreeNodes.BorrowFromLeft | include/clarisma/store/BTree.h:545-574 | the node gains the neighbour's last entry; both joined by the new separator are what they were joined by the old one |
| BTreeNodes.BorrowFromRight | include/clarisma/store/BTree.h:576-606 | the node gains the neighbour's first entry; both joined by the new separator are what they were joined by the old one |
| BTreeNodes.MergeNodes | include/clarisma/store/BTree.h:608-632 | the left node holds both nodes joined by their separator |
| BTreeShapes.SplitStep | include/clarisma/store/BTree.h:432-482 | splitting a node below a parent with room keeps order, bounds, depth and bindings |
| BTreeShapes.MergeStep | include/clarisma/store/BTree.h:608-633 | merging two neighbours keeps order, bounds, depth and bindings |
| BTreeShapes.RedistributeStep | include/clarisma/store/BTree.h:547-606 | any new division of two neighbours that joins to the same node keeps order, bounds, depth and bindings |
| BTreeShapes.GrowRoot | include/clarisma/store/BTree.h:485-493 | a new root above the old one keeps the tree well-formed with the same bindings |
| BTreeShapes.ShrinkRoot | include/clarisma/store/BTree.h:523-537 | dropping a root with one child keeps the tree well-formed with the same bindings |
| BTreeShapes.OneValuePerKey | include/clarisma/store/BTree.h:417-494 | a well-formed tree binds no key twice |
| BTrees.EmptyTree | include/clarisma/store/BTree.h:637-642 | a root page without entries is a well-formed tree without bindings |
| TileQueries.StepKeepsItems | src/query/Query.cpp:66-238 | every step keeps, for each item, the sum of its copies in unprocessed tiles, workers, the queue, the current batch, what was returned and what was deleted |
| TileQueries.StepKeepsInv | src/query/Query.cpp:43-238 | every step keeps the invariant, by which the pending tiles are those queued, running and completed, up to the step between post and increment |
| TileQueries.RunKeepsInv | src/query/Query.cpp:43-238 | in every interleaving, the invariant holds after each step and no item is lost or duplicated |
| TileQueries.ReturnedAtMostOnce | src/query/Query.cpp:198-238 | in every interleaving, an item is returned and deleted no more often than there are places in loaded tiles that hold it |
| TileQueries.FinishedReturnedAll | src/query/Query.cpp:198-238 | when next has returned null, all tiles have been requested and processed, and each item has been returned as often as there are places in the buckets of loaded tiles that hold it |
| TileQueries.ReturnedAreLoaded | src/query/Query.cpp:147-238 | whatever has been returned is in a loaded tile; at the end, whatever is in a loaded tile has been returned |
| TileQueries.TilesCount | src/query/Query.cpp:147-196 | the number of copies that is conserved counts the places in loaded tiles |
| TileQueries.CallSubmits | src/query/Query.cpp:147-196 | in one call of `requestTiles`, the consumer runs a tile itself only if the pool is full and the call has submitted no other tile; the call leaves tiles for later only if the pool is full and it has submitted one |
| TileQueries.DestroyedLeavesNothing | src/query/Query.cpp:43-52 | after the destructor, no task is queued or running and no list is left |
| TileQueries.WaitingConsumerIsServed | src/query/Query.cpp:92-109 | if the consumer is blocked in take, a worker can fetch or offer |
| TileQueries.NeverStuck | src/query/Query.cpp:111-238 | until the query is destroyed, some step is enabled |
| TileQueries.StepProgresses | src/query/Query.cpp:43-238 | every step lowers the remaining work, returns an item or brings the consumer closer to its goal |
| TileQueries.EveryRunIsFinite | src/query/Query.cpp:43-238 | the number of steps of any run is bounded by its tiles and their items |
| ThreadPools.ThreadPool.TryPost | include/clarisma/thread/ThreadPool.h:48-57 | a task is appended to the queue exactly if this is not full |
| ThreadPools.ThreadPool.Take | include/clarisma/thread/ThreadPool.h:131-151 | a worker takes the first task of the queue |
| QueryResultLists.TileQueryTask.AddResult | src/query/TileQueryTask.cpp:216-229 | the circular list of buckets gains the item, in a new bucket if the last is full |
| QueryResultLists.AddedAppends | src/query/TileQueryTask.cpp:216-229 | the items of the buckets are the items added, in order, with no empty bucket |
| QueryResultLists.Splice | src/query/Query.cpp:66-84 | swapping two links joins two circular lists, in order |
| QueryResultLists.Query.Offer | src/query/Query.cpp:66-84 | the task's buckets are appended to the queued ones, even if either list is empty |
| QueryResultLists.Query.Take | src/query/Query.cpp:92-109 | the circular list is opened at its head; the counts of tiles are settled |
| QueryResultLists.Query.StartBatch | src/query/Query.cpp:198-238 | what is left to read is all items of the batch, in order |
| QueryResultLists.Query.NextInBatch | src/query/Query.cpp:198-238 | the next unread item is returned, or none is left and the batch is gone |
| QueryResultLists.ScanReturnsInOrder | src/query/Query.cpp:198-238 | the step system reads a batch as the linked lists do, first item first |
| ValueOps.ExitDependsOnTest | src/match/MatcherValidator.cpp:271-282 | where value ops lead depends only on the outcomes of the ops of the clause |
| MatcherValidators.MatcherValidator.CloneValueOp | src/match/MatcherValidator.cpp:271-282 | the clone leads, for every test, where the original leads with ops of other types unmatched; no existing node is changed |
| MatcherValidators.MatcherValidator.FindWrongTypeOp | src/match/MatcherValidator.cpp:145-153 | the result is where the ops lead if none matches |
| MatcherValidators.MatcherValidator.CreateMultiTypeLoadOps | src/match/MatcherValidator.cpp:203-258 | every tag value reaches the exit of the original ops exactly if the clause is not astray or no global string can match it; in the astray case, the result also says where values go instead |
| MatcherValidators.MatcherValidator.InsertLoadOps | src/match/MatcherValidator.cpp:160-200 | the key op leads to loads that reach the exit of the original ops for every tag value, under the same exact condition |
| ValueDispatch.StrayIsRight | src/match/MatcherValidator.cpp:203-268 | the loads of an astray clause lead every tag value where the original ops lead it exactly if no global string can match the clause |
| ValueDispatch.NumberClause | src/match/MatcherValidator.cpp:160-200 | a clause with numeric ops only: the five ops before it find the number, or what the string or code spells |
| ClauseMeaning.VerdictOfClause | src/match/MatcherValidator.cpp:160-268 | walking the loads returns the code of the op that the original clause exits to |
| ClauseMeaning.SingleOpDecides | src/match/MatcherEngine.cpp:125-178 | behind the loads, a code op matches exactly its code, a string op exactly its local string, a text op the text of a global or local string but no number, a numeric op a number of either width or what a string of either kind spells; negation swaps the branches |
| ClauseMeaning.WalkThroughValuePart | src/match/MatcherEngine.cpp:122-327 | the walk of the whole graph passes through loads and value ops as the dispatch says |
| ClauseMeaning.GapAcceptsWrongly | src/match/MatcherValidator.cpp:203-268 | the number 7, stored as 263, reaches the accepting op of an astray clause whose original ops reject it |
| Fragments.OutcomeIsVerdict | src/match/MatcherEngine.cpp:103-331 | walking a selector's graph returns its verdict |
| Fragments.ChainIsOr | src/match/MatcherValidator.cpp:440-487 | copying the first op of a graph over the rejecting op of another makes their disjunction: the second decides in the state in which the first has rejected |
| Fragments.ChainBehaves | src/match/MatcherValidator.cpp:440-487 | so does chaining any number of graphs, each starting in the state that the rejecting ones before it leave |
| Fragments.FirstDecides | src/match/MatcherValidator.cpp:440-487 | if each graph's verdict on a feature does not depend on the registers, the chain accepts exactly what one of them accepts |
| SelectorChains.LinkedBehaves | src/match/MatcherValidator.cpp:440-487 | the linked selectors are tried in order, each in the state left by those that have rejected, whether their checks for local keys were merged or not |
| SelectorChains.LinkedAccepts | src/match/MatcherValidator.cpp:440-487 | walking the linked graph accepts a feature exactly if walking one selector's own graph does, if that does not depend on the registers |
| SelectorChains.LinkedDecides | src/match/MatcherValidator.cpp:440-487 | a feature on which no selector's verdict depends on the registers is accepted exactly if one of the linked selectors accepts it |
| SelectorChains.MergedBehaves | src/match/MatcherValidator.cpp:462-485 | the merged check for local keys does the work of all that were dropped |
| SelectorChains.TypeTestBehaves | src/match/MatcherValidator.cpp:85-103 | a type test in front of a graph restricts it to features of these types |
| SelectorValidators.SelectorValidator.ValidateAllSelectors | src/match/MatcherValidator.cpp:440-487 | the null branch is read exactly if the first selector has no clauses and a later one starts with a check for local keys; otherwise the nodes become those of the linked selectors |
| SelectorValidators.SelectorValidator.CopyFirstOps | src/match/MatcherValidator.cpp:440-461 | unless the null branch is read, every first op is copied over the preceding rejecting op, and the checks can be merged exactly if all selectors start with the same one |
| SelectorValidators.NullBranchIsRead | src/match/MatcherValidator.cpp:440-461 | two selectors, the first without clauses, for which the null branch is read; in the other order it is not |
| SelectorValidators.SelectorValidator.DropChecks | src/match/MatcherValidator.cpp:462-485 | the redundant checks are overwritten, the remaining one rejects for all |
| SelectorLists.GroupSelectors | src/match/MatcherValidator.cpp:57-83 | the list is split in place into the selectors with the types of the first and the others |
| SelectorLists.WithTypesIsStable | src/match/MatcherValidator.cpp:57-83 | each part keeps the order of the list |
| SelectorLists.WithTypesIsSelection | src/match/MatcherValidator.cpp:57-83 | each part holds exactly the selectors that belong to it |
| PolyformSelectors.PolyformBehaves | src/match/MatcherValidator.cpp:85-103 | the groups are tried in order: one behaves as its linked selectors on features of its types and rejects all others, and the next group starts in the state that it leaves |
| PolyformSelectors.PolyformAccepts | src/match/MatcherValidator.cpp:85-103 | walking the whole graph accepts a feature exactly if some selector has its type and walking this selector's own graph accepts it, if that does not depend on the registers |
| PolyformSelectors.PolyformDecides | src/match/MatcherValidator.cpp:85-103 | a feature on which no selector's verdict depends on the registers is accepted exactly if a selector accepts it and has its type |
| SelectorValidators.SelectorValidator.ValidatePolyformSelectors | src/match/MatcherValidator.cpp:85-103 | the null branch is read exactly if this happens for the selectors of some group; otherwise the nodes become those of the chained groups |
| SelectorClauses.Selector.AddClause | src/match/Selector.cpp:18-43 | the clause is linked in at the place that keeps the keys strictly ascending, unless its key is present |
| SelectorClauses.KeysAreOrdered | src/match/OpGraph.cpp:135-166 | the comparison of key ops is a strict total order |
| SelectorClauses.NameOrder | src/match/OpGraph.cpp:135-151 | a name comes before the names that it begins, and else the first character in which two names differ decides |
| SelectorClauses.AscendingKinds | src/match/OpGraph.cpp:135-166 | in ascending order, global keys precede local ones, codes and names ascend |
| TagScans.AnswersAreLookups | src/match/MatcherEngine.cpp:15-42 | FIRST_GLOBAL_KEY and GLOBAL_KEY scans in ascending order answer every key as a lookup would |
| TagScans.LocalAnswersExact | src/match/MatcherEngine.cpp:45-68 | FIRST_LOCAL_KEY and LOCAL_KEY scans in ascending order answer as a lookup would, except behind an absent first key and a stale flag |
| TagScans.LocalAnswersRight | src/match/MatcherEngine.cpp:205-227 | the whole series is right exactly if there is no such flag, the first key is present, or no key is |
| TagScans.GapRejectsWrongly | src/match/MatcherEngine.cpp:205-227 | a feature and a query for which a local key that is present counts as absent, wherever its name is stored |
| TagScans.StopsOn | src/match/MatcherEngine.cpp:15-42 | where scans for ascending keys leave the tag pointer depends on the last key alone |
| TagScans.MatcherEngine.ScanGlobalKeys | src/match/MatcherEngine.cpp:15-42 | the scan stays within the table, ends where the lookup needs it, and leaves kind and value for the loads |
| TagScans.MatcherEngine.ScanLocalKeys | src/match/MatcherEngine.cpp:45-68 | the key is found and passed, or the pointer is rewound |
| TagScans.MatcherEngine.FirstGlobalKey | src/match/MatcherEngine.cpp:196-203 | the scan starts at the first global tag; it matches exactly if the tag where the lookup ends has the key |
| TagScans.MatcherEngine.FirstLocalKey | src/match/MatcherEngine.cpp:218-227 | the scan starts at the first local tag; it answers as the scan of the table does, and leaves kind and value for the loads |
| TagScans.MatcherEngine.LocalKey | src/match/MatcherEngine.cpp:205-216 | a flagged current key means no match, without a scan |
| TagScans.GetGlobalKeyValue | src/feature/TagTablePtr.cpp:88-105 | the lookup finds the tag at which the scan ends, with its kind and value, exactly if the scan matches |
| TagLoads.Values.LoadCode | src/match/MatcherEngine.cpp:233-237 | it matches exactly if the value is a global string, and loads the 16 bits of the value |
| TagLoads.Values.LoadString | src/match/MatcherEngine.cpp:239-265 | it matches exactly if the value is a local string, and then loads its address, which is relative and signed |
| TagLoads.Values.LoadNum | src/match/MatcherEngine.cpp:267-288 | it matches exactly on narrow and wide numbers, and loads the number with its offset and scale |
| TagLoads.LoadsAreSteps | src/match/MatcherEngine.cpp:233-288 | in the dispatch of values, the loads match on these kinds and leave these values |
| TileIndexWalkers.Walk | src/query/TileIndexWalker.cpp:14-189 | for every box, the root and repeated next visit the tiles at which a walk stops, in pre-order, with their tips; if the box is simple, these are exactly the tiles that meet it |
| TileIndexWalkers.TileIndexWalker.Next | src/query/TileIndexWalker.cpp:55-189 | one call visits the first of the tiles still ahead, and sets the flags by the sides of the box |
| TileIndexWalkers.TileIndexWalker.StartLevel | src/query/TileIndexWalker.cpp:191-214 | a level is set up such that the cells ahead are those below the tile at which the walk stops |
| TileScans.RightUnlessAcross | src/query/TileIndexWalker.cpp:55-214 | the walk visits exactly the tiles that meet a non-empty box, whatever the index, if and only if the box does not cross the antimeridian |
| TileScans.MissedQuarter | src/query/TileIndexWalker.cpp:55-214 | for every box that crosses, an index and a tile of it that meets the box and is not visited |
| TileScans.SimpleWalk | src/query/TileIndexWalker.cpp:55-214 | for a simple box, the tiles at which a walk stops are those that meet the box |
| TileIndexWalkers.LevelsAreBits | src/query/TileIndexWalker.cpp:29-42 | the zoom levels that the steps reach are those whose bits are set |
| TileTrees.AllTilesByWays | src/query/TileIndexWalker.cpp:59-189 | the tiles of the index are those to which a way leads from the root, child by child, with the tips where these ways end |
| TileIndexes.MaskWords | src/query/TileIndexWalker.cpp:209-212 | the words between a record's start and its first child are exactly those that hold the mask |
| TileIndexes.MaskBits | src/query/TileIndexWalker.cpp:209-212 | a bit of the mask is the same bit of these words, lower word first |
| TileIndexes.OnesCount | src/query/TileIndexWalker.cpp:93-112 | the rank of a child is the number of bits set below its own |
| TileIndexes.TargetIs | src/query/TileIndexWalker.cpp:168-184 | a pointer holds four times the signed distance in words, plus one |
| TileIndexes.CellNumber | src/query/TileIndexWalker.cpp:85-118 | the matrix is numbered row by row |
| TileIndexes.MeetsAtPoint | src/query/TileIndexWalker.cpp:199-202 | a tile meets a simple box exactly if a point of the box lies in the tile's column and row |
| TileScans.MeetsAcrossAtPoint | include/geodesk/geom/Box.h:28-37 | the same for a box that crosses the antimeridian |
| TileTrees.MeetingIsSelection | src/query/TileIndexWalker.cpp:55-189 | the tiles visited are those of the index that meet the box |
| TileTrees.AllTilesOnce | src/query/TileIndexWalker.cpp:55-189 | no tile occurs twice |
| TileIndexes.RankByShift | src/query/TileIndexWalker.cpp:86-112 | shifting the 64-bit mask and counting its bits gives the number of children before a cell, whatever the neighbouring word holds |
| TileIndexes.MeetsByNumbers | src/query/TileIndexWalker.cpp:191-214 | a tile meets a box exactly if its column and row lie between those of the box |
| TileScans.SkipCells | src/query/TileIndexWalker.cpp:59-87 | cells at which the walk does not stop can be skipped |
| TileIndexWalkers.CoordinatesFit | src/query/TileIndexWalker.cpp:162-166 | the sides of a tile fit 32-bit signed coordinates |
| TileTrees.WorldIsAll | src/feature/ReverseTileIndex.cpp:16-38 | every tile meets the box of the whole world |
| TileIndexWalkers.InitializeReverseIndex | src/feature/ReverseTileIndex.cpp:16-38 | the array maps the tip of every tile to its number |
| TileIndexWalkers.TileNumberTells | src/feature/ReverseTileIndex.cpp:16-38 | the number of a tile determines it |
| TileIndexWalkers.TileNumberBits | include/geodesk/geom/Tile.h:57-70 | column, row and zoom level are 12, 12 and 4 bits of the number |
| TileTwins.ReturnedFromOneTile | src/query/TileQueryTask.cpp:171-208 | of the copies of a feature in a block of tiles, the flags and the box let pass exactly one if a point lies both in its bounds and in the box, else none |
| TileTwins.BoxesMeetAtPoint | src/query/TileQueryTask.cpp:182-185 | the four comparisons tell whether a point lies in both boxes |
| TileTwins.FoundMeans | src/query/TileQueryTask.cpp:171-208 | the results are, in order, the features up to the last whose flags, box, type and matcher let them pass |
| TileTwins.ReturnedOnceByWalk | src/query/TileIndexWalker.cpp:162-166 | over a whole walk, a feature is returned from exactly one visited tile if a point lies both in its bounds and in the box, or else from none |
| TileTwins.SearchLeaf | src/query/TileQueryTask.cpp:171-208 | a leaf is searched up to its last feature, and all features that pass are returned in order |
| CompactHashTables.Create | include/clarisma/data/CompactHashTable.h:32-88 | the table is a rearrangement of the items up to their links, and every chain is finite and holds exactly the items of one home slot |
| CompactHashTables.Lookup | include/clarisma/data/CompactHashTable.h:17-30 | the search ends, and finds an item with the key if there is one |
| CompactHashTables.SameKeys | include/clarisma/data/CompactHashTable.h:17-88 | the table has a key, with a value, exactly if the source had it |
| CompactHashTables.PlaceFirsts | include/clarisma/data/CompactHashTable.h:39-55 | the first item of each home slot is placed there |
| CompactHashTables.LinkEmpty | include/clarisma/data/CompactHashTable.h:57-68 | the slots left form a free list |
| CompactHashTables.PlaceRest | include/clarisma/data/CompactHashTable.h:70-87 | all other items are placed in free slots, behind the first of their chains |
| TritStreamReaders.TritStreamReader.Next | include/clarisma/util/TritStreamReader.h:101-125 | a trit or bit is what the decoder that takes one bit at a time returns, with the same bits left, and it fails exactly when that decoder runs past the end |
| TritStreamReaders.TritStreamReader.NextBit | include/clarisma/util/TritStreamReader.h:132-135 | the same for a single bit |
| TritStreamReaders.ReadAll | include/clarisma/util/TritStreamReader.h:59-147 | so it is for every mix of calls on every buffer, with or without a first trit |
| TritStreamReaders.EncodingDecodes | include/clarisma/util/TritStreamReader.h:13-27 | decoding the encoding of any trits returns them, whatever follows |
| TritStreamReaders.CodeIsValue | include/clarisma/util/TritStreamReader.h:18-27 | each code, read as a number, is its digit, and no code begins another |
| TritStreamReaders.StreamBitAt | include/clarisma/util/TritStreamReader.h:13-17 | bits come from the least significant of each byte upward, and bytes in ascending order |
| TritStreamReaders.WordBits | include/clarisma/util/TritStreamReader.h:138-148 | a little-endian word holds the bits of its bytes in order |
| Varints.ReadVarint64 | include/clarisma/util/varint.h:44-79 | at most ten bytes are read, and 64 bits of what they hold are kept |
| Varints.WriteVarint | include/clarisma/util/varint.h:150-158 | the encoding is written, nothing else changes |
| Varints.EncodedDigits | include/clarisma/util/varint.h:150-158 | the bytes are the number's digits to base 128, the lowest first, all but the last marked |
| Varints.ReadsWhatIsWritten | include/clarisma/util/varint.h:44-158 | every 64-bit number is read back as written, from as many bytes as its size says |
| Varints.SizeIsLength | include/clarisma/util/varint.h:183-186 | the size computed from the leading zeros is the length of the encoding |
| Varints.ReadsSignedExactly | include/clarisma/util/varint.h:93-176 | a signed number is read back as written exactly if it lies in [-2^62, 2^62) |
| Varints.WriteSignedVarint | include/clarisma/util/varint.h:173-176 | the encoding of the zigzag number is written, nothing else changes |
| Varints.ReadSignedVarint64 | include/clarisma/util/varint.h:93-97 | the number read is what the 64 bits stand for as a signed zigzag number |
| Varints.ZigzagAlternates | include/clarisma/util/varint.h:189-192 | 0, -1, 1, -2, 2 and so on become 0, 1, 2, 3, 4 and so on |
| Varints.ZigzagReturns | include/clarisma/util/varint.h:189-202 | fromZigzag inverts toZigzag on all 64-bit numbers |
| Varints.ZigzagReturnsUnsigned | include/clarisma/util/varint.h:189-202 | toZigzag inverts fromZigzag on all 64-bit patterns |
| Varints.SkipVarints | include/clarisma/util/varint.h:119-127 | the pointer is moved behind the given number of varints |
| Varints.SkipIsRead | include/clarisma/util/varint.h:44-127 | skipping one varint leads to where reading it leads |
| Varints.SkipVarintsBackwardUnsafe | include/clarisma/util/varint.h:136-145 | the pointer is moved back to where so many varints start |
| Varints.BackwardUndoesForward | include/clarisma/util/varint.h:119-145 | a backward skip undoes a forward skip if a varint ends where this begins |
| Varints.CountVarints | include/clarisma/util/varint.h:108-117 | the number of bytes without a continuation bit |
| WithinFilters.LocateMembers | src/filter/WithinFilter.cpp:74-113 | on any graph of relations the search ends; the result is -1 exactly if a point that can be reached lies outside, else the innermost location of any, or 0 |
| WithinFilters.AcceptMembers | src/filter/WithinFilter.cpp:66-71 | a relation is accepted exactly if no point lies outside and some point lies inside |
| WithinFilters.ReachedMeans | src/filter/WithinFilter.cpp:74-113 | the points that count are the nodes and the vertices of ways of all relations to which a chain of members leads, placeholders aside |
| WithinFilters.LocateWayNodes | src/filter/WithinFilter.cpp:238-253 | the first vertex outside decides, else the innermost vertex |
| WithinFilters.RecursionGuard.CheckAndAdd | include/geodesk/feature/RelationPtr.h:43-53 | a relation is new exactly if it is neither the parent nor known, and is then added |
| WithinFilters.SeenIsAll | src/filter/WithinFilter.cpp:74-113 | if all relations seen have been explored, no other can be reached |

## Left out

- References to nodes, pages and buckets are indices or objects; arenas, memory mapping and alignment are not modelled, and memory is never exhausted.
- MatcherEmitters.CompileMatcher: requires a graph without GOTOs, because no validator creates one and `emit` does not defer the target of one; and six words for each op, because `maxInstructionSize` is not modelled. The length of the code is stated by the ops placed.
- MatcherEngines.Accept: requires that each jump and each resource offset fits 16 bits, because the code asserts this.
- The text that the disassembler writes; the sweep over instructions is modelled.
- Regular expressions, string tests and number comparisons are uninterpreted; a string that is not a number counts as unmatched.
- The flags of value ops are records of booleans, not bit masks.
- ClauseMeaning.VerdictOfClause: requires that the value ops and loads work as modelled (`Faithful`), because the meaning of ops is a parameter of the graph; `TagLoads` and `TagScans` model the loads and the scans on memory.
- The parser, `TagClause::insertValueOp` and `TagClause::absorb`: clauses come as graphs of value ops; a clause whose key is present is reported, not merged.
- The chaining of a selector's clauses in `validateSelector`, in particular the branch for global keys followed by negated local keys: selectors come with their graphs. The model has the order of clauses, the loads of each clause and the scans.
- Selectors appear twice: with their clauses (`SelectorClauses`) and with their graphs (`SelectorLists`), since the two stages touch different fields.
- The local keys of a tag table are taken to ascend as the clauses of a selector do; strings in memory are given by a function from pointers to names.
- B+tree: keys are below 2^32, values and references unbounded; duplicate keys, `takeLowerBound`, `moveToLast` and `isAfter` at a leaf other than the last; transactions.
- BTrees.Insert: requires that the height stays below the cursor's capacity, because the code allocates a fixed stack of levels.
- Tile query: a region under one lock is one step; memory ordering, fairness of condition variables, shutdown of the pool, other queries that share the pool, and calling `next` again after it has returned null are not modelled. Buckets are not freed.
- QueryResultLists.Query.NextInBatch: does not model that a bucket is deleted once it has been read, because memory is not modelled.
- Tile walk: filters and the mode for accepted tiles, `skipChildren`, columns held in 16-bit fields. Words behind a record's mask are readable.
- TileTwins.ReturnedOnceByWalk: requires simple boxes, because the walk over other boxes misses tiles.
- TileIndexWalkers.InitializeReverseIndex: requires that each tip belongs to one tile; publishing the array under a lock is not modelled, because it does not affect what the array holds.
- Descending the spatial index of a tile down to its leaves, and the bounding boxes of nodes.
- WithinFilters.LocateMembers: the variant without a guard, which ignores child relations, is not modelled, because it has no recursion.
- Varints.CountVarints: takes `char` as signed, because the source compares bytes of this type with zero and leaves its sign to the platform.
- TritStreamReaders.TritStreamReader.Next: the exception is a result value; registers are numbers, so the bitwise operators of the source are quotients and remainders.
- Varints.ReadVarint64: requires that the bytes hold a complete number of at most ten bytes, because the code reads without a bound and asserts this; the 14- and 35-bit variants are left out as easy members.
- `GlobalKeyMatcher`, `QuickSelect`, geometry in floating point, Python bindings, writers, console and files.
