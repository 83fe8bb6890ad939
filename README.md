# Iterated-width lookahead for Atari agents, modelled in Dafny

This project models the search core of an Arcade Learning Environment
agent. The agent picks each move by building a lookahead tree of emulator
states, pruning it by novelty (IW(1) and its reward-aware variant PIW(1)),
backing up discounted returns, and learning which action sequences are
dominated (they lead nowhere new), so it can skip them later.

The modules follow the source files:

| module (file) | source |
|---|---|
| `Base` (base.dfy) | shared constants (`PLAYER_A_MAX` = 18, `PLAYER_A_NOOP` = 0, `RAM_SIZE` = 128), C++ integer division, remainder and truncation, `std::count` |
| `TreeNodes` (tree_node.dfy) | src/agents/TreeNode.cpp |
| `BranchReturns` (branch_return.dfy) | `update_branch_return` and `set_terminal_root`, which are the same code in IW1Search.cpp and PIW1Search.cpp |
| `VertexCovers` (vertex_cover.dfy) | src/agents/VertexCover.cpp |
| `ActionSequences` (action_sequences.dfy) | sequence numbering: `seqToInt` / `intToSeq` / `num_sequences` / `permutateToOriginalAction` / `getResultingNode` of DominatedActionSequenceDetection.cpp, with the identical `secToInt` / `intToSec` / `t_size` / `getResultingNode` of ActionSequenceDetection.cpp |
| `SearchTrees` (search_tree.dfy) | src/agents/SearchTree.cpp |
| `Novelty` (novelty.dfy) | the novelty tables as values, for both searches |
| `IW1` (iw1.dfy) | src/agents/IW1Search.cpp |
| `PIW1` (piw1.dfy) | src/agents/PIW1Search.cpp |
| `UsedSequences` (used_sequences.dfy) | the node list, the "used sequence" marks and the dominance-graph links of `getUsedSequenceList`, plus `searchNode` |
| `EffectiveActions` (effective_actions.dfy) | the loop shared by `getEffectiveActions` (both DASD files) and `getUsefulActions` (ActionSequenceDetection.cpp) |
| `Pruning` (dasp.dfy) | src/agents/DominatedActionSequencePruning.cpp and what it inherits from DominatedActionSequenceDetection.cpp |
| `Detection` (asd.dfy) | src/agents/ActionSequenceDetection.cpp |
| `Features` (features.dfy) | src/agents/features/TFBinary.cpp and src/agents/features/RAMBytes.cpp |

The lookahead tree is a value: `TreeNode = Null | Node(...)`, with children
in a sequence. A node is named by the path of child indices from the root.
The parent pointer is implicit: whenever the source reads the parent, the
model passes the parent explicitly.

The emulator is not modelled. One simulation is a `StepOutcome` parameter:
the new state, the number of steps, the reward and the terminal flag.
States are compared by equality. A screen is a function on states, passed as
a parameter.

Classes model the objects whose fields the source updates in place:
- `SearchTree`, `IW1Search`, `PIW1Search`;
- `VertexCover`;
- `DominatedActionSequencePruning`, `ActionSequenceDetection`;
- `TFBinary`, `RAMBytes`.

The novelty tables are arrays. Each state-changing method is proved against
a function on values. The lemmas are stated about those functions.

## Model

| member | source | states |
|---|---|---|
| TreeNodes.NewUninitialized | src/agents/TreeNode.cpp:24-46 | the uninitialised node holds the parent's state and is a consistent root: not initialised, best branch -1, depth 0, discount 1, no children, reward 0; the original discount and simulated-step count, which the source leaves unset, are 1 and 0 here |
| TreeNodes.NewNode | src/agents/TreeNode.cpp:48-92 | depth is the parent's plus one (0 without a parent); discount is the parent's times the factor; the node is initialised exactly when simulated, and then takes the simulated state, reward and terminal flag and is consistent with its parent (accumulated reward = parent's + node reward) |
| TreeNodes.Init | src/agents/TreeNode.cpp:117-129 | init takes the simulated state, steps, reward and terminal flag, sets branch return to the node reward and marks the node initialised; every other field is kept |
| TreeNodes.UpdateTreeNode | src/agents/TreeNode.cpp:94-115 | after updateTreeNode the node is consistent with its current parent (or is a consistent root); only depth, discount and the accumulated rewards change |
| TreeNodes.UpdateTreeNodeFixesConsistent | src/agents/TreeNode.cpp:94-115 | updateTreeNode leaves an already consistent node unchanged |
| TreeNodes.UpdateTreeNodeIdempotent | src/agents/TreeNode.cpp:94-115 | running updateTreeNode twice gives the same node as running it once |
| TreeNodes.AddSimulatedChildKeepsConsistent | src/agents/TreeNode.cpp:48-92 | appending a child built by the simulating constructor keeps a consistent subtree consistent |
| TreeNodes.SameParentFields | src/agents/TreeNode.cpp:70-89 | whether a child is consistent depends only on the parent's depth, discount and accumulated rewards |
| TreeNodes.ConsistentAlongPath | src/agents/TreeNode.cpp:70-89 | in a consistent tree, the node at a path is deeper by the path length; its accumulated reward adds the rewards along the path; its discount multiplies the per-step discounts |
| TreeNodes.ConsistentRootPath | src/agents/TreeNode.cpp:70-89 | from a consistent root, depth equals the path length and accumulated reward is the root's reward plus the rewards along the path |
| TreeNodes.CountedNodesBounds | src/agents/TreeNode.cpp:131-140 | num_nodes is at least 1, at most the subtree size, and equal to it when every node is initialised |
| TreeNodes.NumNodes | src/agents/TreeNode.cpp:131-140 | the counting loop returns 1 plus the counts of the initialised children |
| BranchReturns.ArgmaxPrefixIsFirstMax | src/agents/IW1Search.cpp:401-407 | the argmax loop's index holds a value no smaller than any seen and strictly larger than every value before it: the first maximum |
| BranchReturns.MaxDepthPrefixIsMax | src/agents/IW1Search.cpp:408-409 | the branch depth after the loop is the largest of the node's own depth and the children's branch depths, and it is one of them |
| BranchReturns.BackupChildrenAt | src/agents/IW1Search.cpp:380-387 | after the recursion, a duplicate child is untouched when duplicates are ignored; every other child is backed up |
| BranchReturns.CombineMeets | src/agents/IW1Search.cpp:395-416 | only branch return, best branch and branch depth change; a terminal node gets reward·(1+γ) and best branch 0; any other node gets reward + γ·(largest child return), taken from the first child that has it, and a depth no smaller than any child's |
| BranchReturns.BackupAtNode | src/agents/PIW1Search.cpp:657-720 | the same backup in PIW1: a leaf's return is its reward with best branch -1; a terminal node gets reward·(1+γ) with best branch 0; any other node gets reward + γ·max(child returns), best branch the first argmax; only those three fields change |
| BranchReturns.BackupChildAt | src/agents/IW1Search.cpp:380-387 | each child after the whole backup is either the untouched skipped duplicate or its own backed-up subtree |
| BranchReturns.UpdateBranchReturn | src/agents/IW1Search.cpp:370-444 | the recursive method computes exactly the value-level backup |
| BranchReturns.UpdateChildren | src/agents/IW1Search.cpp:380-387 | the first loop updates every child except skipped duplicates |
| BranchReturns.CombineChildren | src/agents/IW1Search.cpp:395-443 | the terminal branch, or the argmax loop, as the value-level combine |
| BranchReturns.BestChild | src/agents/IW1Search.cpp:401-413 | the loop returns the first index of the largest child return, that return, and the deepest branch depth |
| BranchReturns.SetTerminalRoot | src/agents/IW1Search.cpp:446-459 | the root's return is its reward and its best branch 0; a childless root gets one initialised no-op child consistent with it; nothing else changes |
| BranchReturns.BackupKeepsShape | src/agents/IW1Search.cpp:370-444 | the backup changes nothing in the subtree except branch return, best branch and branch depth |
| BranchReturns.BackupBoundsPlays | src/agents/IW1Search.cpp:370-444 | without duplicate skipping and with γ ≥ 0, no play from the node returns more than its backed-up branch return |
| BranchReturns.BackupAchievedByPlay | src/agents/IW1Search.cpp:370-444 | some play achieves the backed-up return, so the branch return is the best discounted return of any play |
| VertexCovers.FirstUnvisitedNeighbour | src/agents/VertexCover.cpp:54-65 | the inner scan finds the lowest unvisited neighbour at or after the start, or reports that none exists |
| VertexCovers.WithEdgeEntries | src/agents/VertexCover.cpp:26-29 | addEdge sets adj[v][w] and adj[w][v] and no other entry |
| VertexCovers.GreedyStepPicksLowest | src/agents/VertexCover.cpp:54-65 | a greedy step adds only u and its lowest-index unvisited neighbour |
| VertexCovers.GreedyStepCovers | src/agents/VertexCover.cpp:47-68 | after vertex u's turn, every edge out of u has an end in the set |
| VertexCovers.GreedyGrows | src/agents/VertexCover.cpp:39-70 | the greedy set keeps every vertex of the starting (marked) set |
| VertexCovers.GreedyCoversPrefix | src/agents/VertexCover.cpp:47-68 | after the turns of vertices 0 .. k-1, every edge out of them is covered |
| VertexCovers.GreedyIsCover | src/agents/VertexCover.cpp:39-70 | the full greedy run is a vertex cover that contains the marked set |
| VertexCovers.VertexCover.constructor | src/agents/VertexCover.cpp:15-24 | V vertices, no edge, nothing marked |
| VertexCovers.VertexCover.AddEdge | src/agents/VertexCover.cpp:26-29 | the adjacency gains both directions of v–w; marks unchanged |
| VertexCovers.VertexCover.AddNode | src/agents/VertexCover.cpp:31-33 | only marked[v] is set; adjacency unchanged |
| VertexCovers.VertexCover.UniqueActionSet | src/agents/VertexCover.cpp:35-37 | returns exactly the marked vector |
| VertexCovers.VertexCover.MinimalActionSet | src/agents/VertexCover.cpp:39-70 | the greedy cover: length V, a superset of marked, covers every edge; adj and marked are unchanged |
| ActionSequences.EncodeRange | src/agents/DominatedActionSequenceDetection.cpp:415-421 | a sequence of in-range actions has a number below 18^length |
| ActionSequences.DecodeInRange | src/agents/DominatedActionSequenceDetection.cpp:423-434 | every digit intToSeq writes for a non-negative number is an action |
| ActionSequences.DecodeEncode | src/agents/ActionSequenceDetection.cpp:184-203 | intToSec(secToInt(s), \|s\|) == s for in-range actions (the same round trip as intToSeq/seqToInt) |
| ActionSequences.EncodeDecode | src/agents/DominatedActionSequenceDetection.cpp:415-434 | seqToInt(intToSeq(x, L)) == x for 0 ≤ x < 18^L |
| ActionSequences.SeqToInt | src/agents/DominatedActionSequenceDetection.cpp:415-421 | Horner's loop computes the sequence's base-18 number |
| ActionSequences.IntToSeq | src/agents/DominatedActionSequenceDetection.cpp:423-434 | the loop writes the L base-18 digits, most significant first |
| ActionSequences.NumSequences | src/agents/DominatedActionSequenceDetection.cpp:482-491 | 0 for length 0, 18^L otherwise (also t_size) |
| ActionSequences.SequenceCountFitsInt | src/agents/DominatedActionSequenceDetection.cpp:482-491 | the count of sequences fits a 32-bit int up to length 7 and exceeds it from length 8 on |
| ActionSequences.FirstPositionFinds | src/agents/DominatedActionSequenceDetection.cpp:634-639 | the position scan finds the first place that holds the action, no later than any other |
| ActionSequences.PermutateToOriginalAction | src/agents/DominatedActionSequenceDetection.cpp:627-642 | the identity when permutate_action is off; otherwise decode, replace each action by its position in the order, re-encode |
| ActionSequences.OriginalOfPermuted | src/agents/DominatedActionSequenceDetection.cpp:634-639 | in a bijective order, the position found for perm[d] is d |
| ActionSequences.ToOriginalUndoesForward | src/agents/DominatedActionSequenceDetection.cpp:627-642 | for a bijective order, permutateToOriginalAction undoes the digit-to-action mapping of lines 317-319 |
| ActionSequences.FirstChildWithAct | src/agents/DominatedActionSequenceDetection.cpp:459-467 | the child scan finds the first child that took the action, or reports that none did |
| ActionSequences.FollowSpellsPath | src/agents/DominatedActionSequenceDetection.cpp:446-479 | a non-null node found by getResultingNode is at the end of a path whose actions are the sequence |
| ActionSequences.FollowFindsPath | src/agents/DominatedActionSequenceDetection.cpp:446-479 | when siblings took distinct actions, getResultingNode finds the end of any path that spells the sequence |
| ActionSequences.GetResultingNode | src/agents/DominatedActionSequenceDetection.cpp:446-479 | the walk returns Null at a leaf or a missing action, otherwise the node reached through the first matching child at each step |
| SearchTrees.PostOrderFreesSubtree | src/agents/SearchTree.cpp:320-331 | delete_branch frees exactly the subtree's nodes, skipping null slots, the node itself last |
| SearchTrees.OtherBranchesSize | src/agents/SearchTree.cpp:215-236 | the branches freed by move_to_best_sub_branch and the kept best branch together are all the children's nodes |
| SearchTrees.TieSet | src/agents/SearchTree.cpp:164-209 | the tie set starts with the best branch and holds exactly the children that are not skipped duplicates and share its return and terminal flag |
| SearchTrees.TiesAreBestMoves | src/agents/SearchTree.cpp:164-209 | after the backup of a non-terminal node, every tied child has the largest branch return |
| SearchTrees.DivideKeepsSign | src/agents/SearchTree.cpp:504-514 | normalising by a positive magnitude keeps the sign of a reward |
| SearchTrees.DivideByOwnMagnitude | src/agents/SearchTree.cpp:504-514 | the first non-zero reward normalises to 1 or -1 |
| SearchTrees.PreviousActions | src/agents/SearchTree.cpp:602-621 | the intended result has length seqLength |
| SearchTrees.PreviousActionsEndsWithPath | src/agents/SearchTree.cpp:602-621 | the intended result ends with the actions from the root to the node, preceded by the last actions of the played trajectory |
| SearchTrees.PreviousActionsAsWrittenDiffers | src/agents/SearchTree.cpp:602-621 | concrete inputs where the loop as written returns a shorter vector, or repeats the parent's action |
| SearchTrees.SetDuplicateKeepsSiblings | src/agents/SearchTree.cpp:333-375 | setting a node's duplicate flag changes none of its siblings |
| SearchTrees.TestDuplicateStable | src/agents/SearchTree.cpp:333-375 | test_duplicate gives the same answer when asked again, since its own flag is not one it reads |
| SearchTrees.SearchTree.constructor | src/agents/SearchTree.cpp:29-109 | no root, not built, reward magnitude 0, settings (discount, ignore_duplicates_nodes, depth_normalized_reward) as given |
| SearchTrees.SearchTree.DeleteBranch | src/agents/SearchTree.cpp:320-331 | frees the nodes of the subtree in post-order, skipping null slots |
| SearchTrees.SearchTree.Clear | src/agents/SearchTree.cpp:114-122 | frees the whole tree; root Null, is_built false, maximum depth 0 |
| SearchTrees.SearchTree.MoveToBestSubBranch | src/agents/SearchTree.cpp:215-236 | the best child becomes a parentless root; the other branches and the old root are freed, and freed plus kept is the old tree; maximum depth 0 |
| SearchTrees.SearchTree.GetBestAction | src/agents/SearchTree.cpp:137-210 | the tie set is built around the root's best branch or, with depth_normalized_reward, the normalised choice; the chosen branch is in that tie set (the random pick is a parameter), is recorded as best branch and its action is returned |
| SearchTrees.SearchTree.NormalizedBestBranch | src/agents/SearchTree.cpp:144-159 | the depth-normalised loop equals NormalizedPrefix, which NormalizedPrefixIsFirstMax characterises |
| SearchTrees.NormalizedPrefixIsFirstMax | src/agents/SearchTree.cpp:144-159 | the first child with the largest score wins when some score beats -1; otherwise the root's best branch stays |
| SearchTrees.NormDivisorIsDiscountSum | src/agents/SearchTree.cpp:149-151 | norm_divides is the total discount 1 + γ + … + γ^(d-1) of a branch d deep |
| SearchTrees.NormDivisorAtLeastOne | src/agents/SearchTree.cpp:149-151 | with 0 ≤ γ < 1 and depth at least 1 the divisor is at least 1, so the score is defined |
| SearchTrees.StartBranch | src/agents/SearchTree.cpp:137-163 | the branch the tie set is built around is one of the root's children |
| SearchTrees.SearchTree.TiedBranches | src/agents/SearchTree.cpp:164-209 | the loop collects the tie set in order |
| SearchTrees.SearchTree.TestDuplicate | src/agents/SearchTree.cpp:333-375 | the root (and a root child in image mode) is never a duplicate; otherwise the flag becomes "some non-null, non-duplicate, initialised sibling looks the same", which is the answer |
| SearchTrees.SearchTree.Normalize | src/agents/SearchTree.cpp:504-514 | 0 gives 0; the first non-zero reward fixes the magnitude at its absolute value; a non-zero reward gives reward / magnitude |
| SearchTrees.SearchTree.NumNodes | src/agents/SearchTree.cpp:516-521 | 0 without a root, otherwise the root's num_nodes |
| SearchTrees.SearchTree.GetPreviousActionsAsWritten | src/agents/SearchTree.cpp:602-621 | the loop as written, which walks node->p_parent every time; None where it reads before the trajectory |
| SearchTrees.SearchTree.GetPreviousActions | src/agents/SearchTree.cpp:602-621 | the corrected walk returns the intended vector of length seqLength |
| Novelty.ByteCell | src/agents/PIW1Search.cpp:187-196 | cell 256·i + ram[i] decodes to byte i and its value, and lies inside the table |
| Novelty.FlatPosition | src/agents/PIW1Search.cpp:164-184 | cell 8·i + j of the boolean tables is bit j of byte i |
| Novelty.ByteMarkedNotNovel | src/agents/IW1Search.cpp:109-144 | after the byte-mode update, the same RAM is no longer novel |
| Novelty.BitMarkedNotNovel | src/agents/IW1Search.cpp:109-144 | after the boolean-mode update of both tables, the same RAM is no longer novel |
| Novelty.ByteMarkedMonotone | src/agents/IW1Search.cpp:121-122 | the byte-mode update only sets cells, and only the snapshot's own cells |
| Novelty.BitMarkedMonotone | src/agents/IW1Search.cpp:111-120 | the boolean-mode update only sets cells, and only where the bit has that table's value |
| Novelty.MarkedIdempotent | src/agents/IW1Search.cpp:109-123 | updating twice with the same RAM is updating once |
| Novelty.NoveltyAntimonotone | src/agents/IW1Search.cpp:125-144 | a table that has seen more finds fewer snapshots novel |
| Novelty.ByteNovelCountPositive | src/agents/PIW1Search.cpp:298-304 | the byte-mode count is positive exactly when some counted byte is novel |
| Novelty.BitNovelCountPositive | src/agents/PIW1Search.cpp:277-296 | the boolean-mode count is positive exactly when some counted bit position is novel |
| Novelty.NovelIffCountPositive | src/agents/PIW1Search.cpp:203-307 | check_novelty_1 is true exactly when check_novelty is positive, in both modes |
| Novelty.ByteRaisedCells | src/agents/PIW1Search.cpp:187-196 | the byte-mode update sets each snapshot cell to max(old, r) and leaves every other cell alone |
| Novelty.RaisedNotNovel | src/agents/PIW1Search.cpp:143-270 | after update_novelty_table(ram, r), check_novelty_1(ram, r) is false in both modes |
| Novelty.RaisedMonotone | src/agents/PIW1Search.cpp:143-201 | reward cells only increase |
| Novelty.RaisedIdempotent | src/agents/PIW1Search.cpp:143-201 | updating twice with the same (ram, r) is updating once |
| Novelty.ResetTableNovel | src/agents/PIW1Search.cpp:599-609 | a table reset to INT_MIN finds every snapshot novel for any 32-bit reward above INT_MIN |
| IW1.IW1Search.constructor | src/agents/IW1Search.cpp:6-28 | the tables of the chosen representation are empty and the tree has no root |
| IW1.IW1Search.UpdateNoveltyTable | src/agents/IW1Search.cpp:109-123 | the tables become the value-level update of the snapshot; the search tree is untouched |
| IW1.IW1Search.UpdateBytes | src/agents/IW1Search.cpp:121-122 | the byte-mode loop sets cell 256·i + ram[i] for every byte |
| IW1.IW1Search.UpdateBits | src/agents/IW1Search.cpp:111-120 | the boolean-mode loops set each bit position in the table for its value |
| IW1.IW1Search.CheckNovelty1 | src/agents/IW1Search.cpp:125-144 | true exactly when some atom of the snapshot has not been seen |
| IW1.IW1Search.ClearTables | src/agents/IW1Search.cpp:349-353 | every cell of the tables in use is cleared |
| IW1.IW1Search.Clear | src/agents/IW1Search.cpp:346-354 | the tree is freed (the freed list is the post-order of the old root), the tables are emptied, and the reward magnitude and trajectory are kept |
| IW1.IW1Search.MoveToBestSubBranch | src/agents/IW1Search.cpp:356-364 | the best child becomes the root, the freed list is the other branches followed by the old root with its best child unlinked, the built flag, reward magnitude and trajectory are kept, and the tables are emptied |
| PIW1.RicherTwinIsEqualSibling | src/agents/PIW1Search.cpp:737-764 | a sibling that makes test_duplicate_reward true is also an equal sibling in the sense of test_duplicate |
| PIW1.PIW1Search.constructor | src/agents/PIW1Search.cpp:7-57 | the reward tables hold INT_MIN in every cell and both queues are empty |
| PIW1.PIW1Search.UpdateNoveltyTable | src/agents/PIW1Search.cpp:143-201 | each snapshot cell takes the larger of its reward and r; nothing else changes |
| PIW1.PIW1Search.RaiseBytes | src/agents/PIW1Search.cpp:187-196 | the byte-mode loop |
| PIW1.PIW1Search.RaiseBits | src/agents/PIW1Search.cpp:162-185 | the boolean-mode loops |
| PIW1.PIW1Search.CheckNovelty1 | src/agents/PIW1Search.cpp:203-270 | true exactly when r beats the stored reward of some atom of the snapshot |
| PIW1.PIW1Search.CheckNovelty | src/agents/PIW1Search.cpp:273-307 | the number of atoms whose stored reward r beats |
| PIW1.PIW1Search.ResetTables | src/agents/PIW1Search.cpp:601-620 | every cell is INT_MIN again and both queues are empty |
| PIW1.PIW1Search.Clear | src/agents/PIW1Search.cpp:599-624 | the tree is freed (the freed list is the post-order of the old root), the tables and queues are reset, and the reward magnitude and trajectory are kept |
| PIW1.PIW1Search.MoveToBestSubBranch | src/agents/PIW1Search.cpp:626-651 | the best child becomes the root, the freed list is the other branches followed by the old root with its best child unlinked, the built flag, reward magnitude and trajectory are kept, and the tables and queues are reset |
| PIW1.PIW1Search.TestDuplicateReward | src/agents/PIW1Search.cpp:737-764 | a parentless node is not a duplicate; otherwise the flag becomes "some other non-duplicate, initialised sibling has an equal state and strictly more accumulated reward", which is the answer |
| PIW1.UpdateThenCheck | src/agents/PIW1Search.cpp:143-307 | a snapshot just recorded with reward r is no longer novel for r, and novelty agrees with a positive count |
| PIW1.TestDuplicateRewardStable | src/agents/PIW1Search.cpp:737-764 | asking test_duplicate_reward again gives the same answer |
| UsedSequences.WalkIdentity | src/agents/ActionSequenceDetection.cpp:115-126 | through the identity order, sequence number i walks exactly the digits of i |
| UsedSequences.MarkedExactly | src/agents/DominatedActionSequencePruning.cpp:124-144 | an entry is set after the loop exactly when it was set before, or a position whose node is non-null, non-terminal and the first of its state writes it |
| UsedSequences.LinkAllExactly | src/agents/DominatedActionSequencePruning.cpp:148-174 | an edge is present after the loop exactly when it was before or a position added it; the same holds for forced vertices |
| UsedSequences.LinkAllCovers | src/agents/DominatedActionSequencePruning.cpp:148-172 | every non-terminal node of the list ends up linked to its first equal peer, or forced into the cover when it has none |
| UsedSequences.PreOrderVisitsEveryNode | src/agents/DominatedActionSequenceDetection.cpp:295-306 | searchNode visits every node of the subtree |
| UsedSequences.MarksOverExactly | src/agents/DominatedActionSequenceDetection.cpp:295-306 | after the whole walk an entry is set exactly when it was before or it is used at some visited node, whatever the visiting order |
| UsedSequences.GraphOverEdge | src/agents/DominatedActionSequencePruning.cpp:148-168 | after the walk an edge is present exactly when it was before or some visited node adds it |
| UsedSequences.GraphOverForced | src/agents/DominatedActionSequencePruning.cpp:170-172 | after the walk a vertex is forced exactly when it was before or some visited node forces it |
| UsedSequences.ToOriginalInRange | src/agents/DominatedActionSequencePruning.cpp:141-142 | the written entry stays inside the mask |
| UsedSequences.CorrectedIndexNamesWalk | src/agents/DominatedActionSequencePruning.cpp:112-118 | the corrected entry decodes to the actions that lead from the node to nodeList[i] |
| UsedSequences.CorrectedIndexInjective | src/agents/DominatedActionSequencePruning.cpp:140-143 | under a bijective order, distinct positions write distinct entries |
| UsedSequences.IndicesAgreeUnderIdentity | src/agents/DominatedActionSequenceDetection.cpp:627-642 | without shuffling, the as-written index, the corrected index and position i all coincide |
| UsedSequences.AsWrittenIndexMisplaces | src/agents/DominatedActionSequencePruning.cpp:112-143 | a concrete order where the as-written index marks a sequence other than the one walked |
| UsedSequences.ListNodes | src/agents/DominatedActionSequencePruning.cpp:109-120 | the loop builds the node list of every sequence number and each walked sequence's number |
| UsedSequences.MarkFresh | src/agents/DominatedActionSequencePruning.cpp:124-144 | the marking loop equals its value-level model and only sets entries |
| UsedSequences.LinkPeers | src/agents/DominatedActionSequencePruning.cpp:148-174 | the graph after the linking loop equals its value-level model |
| EffectiveActions.KeyNamesSuffix | src/agents/DominatedActionSequencePruning.cpp:67-75 | the entry read for length L is the number of the last L-1 actions followed by j |
| EffectiveActions.EffectiveBelowFirstMask | src/agents/DominatedActionSequencePruning.cpp:62-80 | the result is pointwise below the single-action mask |
| EffectiveActions.EffectiveMeansRecorded | src/agents/DominatedActionSequencePruning.cpp:62-80 | an action is allowed exactly when, for every checked length, the history's tail followed by it is recorded as used |
| EffectiveActions.ClearUnrecorded | src/agents/DominatedActionSequencePruning.cpp:70-78 | the inner loop clears exactly the actions whose sequence of that length is not recorded |
| EffectiveActions.AllowedActions | src/agents/DominatedActionSequenceDetection.cpp:106-126 | the outer loop computes the allowed actions |
| EffectiveActions.PruningAsWritten | src/agents/DominatedActionSequencePruning.cpp:62-80 | the loop as written: a result of 18 flags, or None where it reads outside the history or a mask |
| EffectiveActions.PruningAsWrittenOverruns | src/agents/DominatedActionSequencePruning.cpp:64-75 | with two masks and the history [1, 0], the as-written loop reads entry 324 + j of a 324-entry mask; the corrected check allows every action |
| EffectiveActions.PruningAsWrittenSlicesBefore | src/agents/DominatedActionSequencePruning.cpp:68 | with a one-action history, the slice starts before the history |
| EffectiveActions.PruningAgreesWithoutLongerChecks | src/agents/DominatedActionSequencePruning.cpp:62-80 | with one mask or no history, the as-written result is the corrected one |
| EffectiveActions.DetectionAsWritten | src/agents/ActionSequenceDetection.cpp:19-43 | the ASD loop as written, or None where it reads outside a mask |
| EffectiveActions.DetectionAsWrittenOverruns | src/agents/ActionSequenceDetection.cpp:21-33 | one mask and the history [1]: the loop reads entry 18 + j of an 18-entry mask |
| EffectiveActions.DetectionAgreesWithoutHistory | src/agents/ActionSequenceDetection.cpp:19-43 | with no history the as-written loop is defined and gives the corrected result |
| EffectiveActions.UsefulMeansRecorded | src/agents/ActionSequenceDetection.cpp:19-43 | an action is useful exactly when it was used alone and, for every length below min(\|prev\|, \|masks\|), the history's tail followed by it is recorded |
| EffectiveActions.AllowedBelowMeansRecorded | src/agents/DominatedActionSequencePruning.cpp:62-80 | passing the checks up to length w is the single-action check plus every tail of fewer than w actions, followed by the action, being recorded |
| EffectiveActions.ReadOkMeansKey | src/agents/ActionSequenceDetection.cpp:26-33 | where the as-written read stays inside mask i-1, its extra leading action is a no-op and it reads the corrected entry |
| EffectiveActions.DetectionAgreesWhereDefined | src/agents/ActionSequenceDetection.cpp:19-43 | wherever the loop as written stays inside the masks, its result is the corrected one |
| EffectiveActions.DetectionStopsAtHistory | src/agents/ActionSequenceDetection.cpp:23 | with history [0], mask 0 all used and mask 1 all unused, getUsefulActions allows every action (as written and corrected) while the pruning agents' bound would allow none |
| Pruning.PartitionReorders | src/agents/DominatedActionSequencePruning.cpp:193-203 | the new order is a permutation of the old one with the in-mask actions first, and a bijective order stays bijective |
| Pruning.NoveltyOrderGroups | src/agents/DominatedActionSequenceDetection.cpp:231-248 | sortByNovelty returns a permutation: marked actions first, then cover actions, then the rest |
| Pruning.SearchedMasksStep | src/agents/DominatedActionSequencePruning.cpp:46-51 | searching one more length changes only that length's mask |
| Pruning.LearnStepShrinks | src/agents/DominatedActionSequencePruning.cpp:180-206 | learnDASP never keeps more single actions; a replaced mask 0 is a cover of the graph containing its forced vertices; only mask 0 changes; the order is a permutation with kept actions first |
| Pruning.DominatedActionSequencePruning.constructor | src/agents/DominatedActionSequenceDetection.cpp:14-54 | a negative junk_decision_frame setting means 12; masks, order and graphs start empty |
| Pruning.DominatedActionSequencePruning.GetUsedSequenceList | src/agents/DominatedActionSequencePruning.cpp:106-175 | the marks and graph links of one node, with each position writing the entry of the sequence it walked; entries are only set |
| Pruning.DominatedActionSequencePruning.SearchNode | src/agents/DominatedActionSequenceDetection.cpp:295-306 | the marks and graph after visiting every node of the subtree |
| Pruning.DominatedActionSequencePruning.SearchAll | src/agents/DominatedActionSequencePruning.cpp:46-51 | a fresh graph per length is pushed, and every mask and graph is its searched value |
| Pruning.DominatedActionSequencePruning.SearchRounds | src/agents/DominatedActionSequencePruning.cpp:47-51 | the rounds over lengths 1 .. seqLength leave the searched masks and graphs |
| Pruning.DominatedActionSequencePruning.SearchLength | src/agents/DominatedActionSequencePruning.cpp:48-50 | one round: push a fresh VertexCover(num_sequences(i)), then search mask i-1 and graph i-1 |
| Pruning.DominatedActionSequencePruning.StablePartition | src/agents/DominatedActionSequencePruning.cpp:193-203 | the loop builds the stable partition |
| Pruning.DominatedActionSequencePruning.LearnDASP | src/agents/DominatedActionSequencePruning.cpp:177-219 | with permutate_action, the cover replaces mask 0 only when it keeps strictly fewer actions, and the order is stably split; otherwise nothing changes |
| Pruning.DominatedActionSequencePruning.LearnDominatedActionSequences | src/agents/DominatedActionSequencePruning.cpp:23-54 | on the first call the order is 0 .. 17 (shuffled when asked) and the masks all-false; then every length is searched and learnDASP runs |
| Pruning.DominatedActionSequencePruning.GetEffectiveActions | src/agents/DominatedActionSequencePruning.cpp:56-90 | all actions during the grace period, otherwise the actions the masks allow after the history |
| Pruning.DominatedActionSequencePruning.GetDetectedUsedActionsSize | src/agents/DominatedActionSequencePruning.cpp:92-104 | the single actions kept when the last call learnt length 1, else 0 |
| Pruning.DominatedActionSequencePruning.SortByNovelty | src/agents/DominatedActionSequenceDetection.cpp:231-248 | the loop builds the three-group order |
| Detection.DetectedExactly | src/agents/ActionSequenceDetection.cpp:90-150 | after searchNode an entry is set exactly when it was before, or at some node its sequence number reaches the first node of its state |
| Detection.DetectedIdempotent | src/agents/ActionSequenceDetection.cpp:90-150 | searching the same tree again changes nothing |
| Detection.Prepared | src/agents/ActionSequenceDetection.cpp:53-59 | a new length grows the masks by exactly one all-false mask of 18^L entries; learnt masks are kept |
| Detection.LearntOnlyAdds | src/agents/ActionSequenceDetection.cpp:51-87 | learning length L only sets entries, and only in mask L-1 |
| Detection.LearntFreshLength | src/agents/ActionSequenceDetection.cpp:53-62 | a length learnt for the first time holds exactly what the tree shows |
| Detection.ActionSequenceDetection.constructor | src/agents/ActionSequenceDetection.cpp:11-12 | no masks |
| Detection.ActionSequenceDetection.GetUsefulActions | src/agents/ActionSequenceDetection.cpp:19-43 | the loop with its own bound min(\|prev\|, \|masks\|) and the slice corrected gives Useful, which UsefulMeansRecorded characterises; pointwise below mask 0 |
| Detection.ActionSequenceDetection.GetUsedSequenceList | src/agents/ActionSequenceDetection.cpp:104-150 | position i of the node list sets entry i when its node is non-null and the first of its state; entries are only set |
| Detection.ActionSequenceDetection.SearchNode | src/agents/ActionSequenceDetection.cpp:90-100 | the marks after visiting every node of the subtree |
| Detection.ActionSequenceDetection.GetJunkActionSequence | src/agents/ActionSequenceDetection.cpp:51-87 | the masks become the value-level learnt masks |
| Features.BinaryBits | src/agents/features/TFBinary.cpp:24-36 | both indices are in range; bit j of byte i set makes 8i+j true, clear makes 8i+j+8·\|ram\| true |
| Features.BinaryCount | src/agents/features/TFBinary.cpp:23-37 | exactly 8·\|ram\| entries are true and every entry past 16·\|ram\| is false |
| Features.TFBinary.constructor | src/agents/features/TFBinary.cpp:10-14 | 16·RAM size features |
| Features.TFBinary.GetFeatures | src/agents/features/TFBinary.cpp:20-38 | the loops compute the bit encoding |
| Features.RedundantCellBound | src/agents/features/RAMBytes.cpp:36 | every redundant index is below the feature count, as asserted, both as written and as intended |
| Features.BytesOneHot | src/agents/features/RAMBytes.cpp:28-31 | feature 256i + ram[i] is set for every byte |
| Features.BytesPlainCount | src/agents/features/RAMBytes.cpp:27-31 | without redundancy, exactly the \|ram\| byte cells are set |
| Features.BytesRedundantOverlapsPlain | src/agents/features/RAMBytes.cpp:33-39 | for RAM [5] with one redundant block, the code sets features 0 and 5 and nothing in 256 .. 511 |
| Features.IntendedKeepsPlain | src/agents/features/RAMBytes.cpp:26-31 | with blocks placed after the plain block, the plain features are exactly the byte cells |
| Features.IntendedBlocksOneHot | src/agents/features/RAMBytes.cpp:33-39 | with blocks placed after the plain block, block j is one-hot over the xor of byte i and byte i+j+1, inside the asserted range |
| Features.RAMBytes.constructor | src/agents/features/RAMBytes.cpp:10-13 | no redundancy, 256·RAM size features |
| Features.RAMBytes.WithRedundancy | src/agents/features/RAMBytes.cpp:15-18 | 256·RAM size·(1 + redundant_ram) features |
| Features.RAMBytes.Encode | src/agents/features/RAMBytes.cpp:26-39 | the loops set exactly the byte cells and the cell of every (pass, byte), for either placement of the passes |
| Features.RAMBytes.GetFeaturesAsWritten | src/agents/features/RAMBytes.cpp:24-40 | the encoding as written |
| Features.RAMBytes.GetFeatures | src/agents/features/RAMBytes.cpp:24-40 | the encoding with each pass in its own block after the one-hot blocks |

## Left out

- The emulator (`simulate_game`, state cloning, screens): each simulation is a `StepOutcome` parameter and a screen a function parameter. `expand_node` / `expand_tree` are driven by the simulation budget and are not modelled.
- `std::random_shuffle` and the random tie-break of get_best_action: their results are parameters (`shuffled`, `pick`).
- Floating point: return_t and the discount are `real`, so there is no rounding. reward_t → return_t and back are exact conversion and truncation.
- Timing, printf and the other printing (`print_frame_data`, `print_path`, the "Non-dominated action sequence" and "minset" lines, the ASD printf output).
- DASA (DominatedActionSequenceAvoidance, `learnDASA`, `getDASAActionSet`, `calcQvalue`, `novelty_to_probabilities`, `sigmoid`): floating-point exp and pow, and `rand()`.
- The other agents, the features built from the screen, and the launch scripts: outside this core.
- Pruning.DominatedActionSequencePruning.GetUsedSequenceList: uses the corrected index (see Findings). The `is_terminal` test on i instead of j (lines 131 and 159) is kept as written, so a terminal earlier node still counts as a peer.
- The order in which `sortNodeList` visits children: marks and links are unions over the visited nodes, so the visiting order does not change them (UsedSequences.MarksOverExactly).
- getUsedSequenceRec of ActionSequenceDetection.cpp is never called and is not modelled.
- Features.RAMBytes.GetFeatures: places the redundant passes as intended (see Findings); GetFeaturesAsWritten keeps the code as written.
- getFeatures' screen argument is unused; getFeatures requires a RAM of the size the constructor read, as the allocated vector assumes.
- Features.RAMBytes.WithRedundancy: a negative redundant_ram is not modelled (`nat`). It would give fewer features than RAM bytes, and the plain loop would then write out of range.
- The asserts of getResultingNode (lines 456-457) become preconditions: the actions are in range, and every child slot the source dereferences is non-null (NoNullChildren, Followable).
- SearchTrees.SearchTree.GetBestAction: with depth_normalized_reward, every child's divisor must be defined and non-zero (γ ≠ 1, branch depth ≥ 0). Otherwise the source converts an infinite or NaN quotient to reward_t, which C++ leaves undefined. The rounding of pow and of the division is not modelled.
- ActionSequences.DecodeEncode: sequence numbers are unbounded integers here. seqToInt and intToSeq compute in a 32-bit int, which overflows from length 8 on (ActionSequences.SequenceCountFitsInt), so the round trip describes the source only for lengths up to 7.
- ActionSequences.EncodeDecode: the same; it describes the source only for lengths up to 7.
- ActionSequences.NumSequences: 18^L is unbounded here; num_sequences overflows its int from length 8 on, and so do the mask sizes and graph sizes taken from it.
- Pruning.Initial: when an object invariant does not hold, the graph searched at a length falls back to the fresh VertexCover; this fallback only makes the function total.

## Findings

| source | as written | input that shows it | evidently intended | confidence | as-written member | corrected member |
|---|---|---|---|---|---|---|
| src/agents/SearchTree.cpp:602-621 | the walk steps to `node->p_parent` every turn, so it never climbs past the parent and, at the root, replaces the vector with fewer actions than asked | trajectory [7, 8], a root child with action 3, seqLength 2: returns [8] | the last trajectory actions followed by the actions from the root to the node, seqLength of them | high, not executed | SearchTrees.PreviousActionsAsWrittenDiffers | SearchTrees.PreviousActionsEndsWithPath |
| src/agents/DominatedActionSequencePruning.cpp:64-75 | the check of length i takes the last i actions, so it reads a sequence of i+1 actions in the mask of length i, or slices before the start of the history | two masks, history [1, 0]: entry 324 + j of a 324-entry mask | the last i-1 actions followed by j, in mask i-1 | high, not executed | EffectiveActions.PruningAsWrittenOverruns | EffectiveActions.EffectiveMeansRecorded |
| src/agents/ActionSequenceDetection.cpp:21-40 | the check of length i reads i previous actions plus j in mask i-1 | one mask, history [1]: entry 18 + j of an 18-entry mask | the last i-1 actions followed by j, in mask i-1, for i up to min(\|prev\|, \|masks\|) as the loop bound has it; wherever the loop as written stays in range it reads these same entries (EffectiveActions.DetectionAgreesWhereDefined) | high, not executed | EffectiveActions.DetectionAsWrittenOverruns | Detection.ActionSequenceDetection.GetUsefulActions |
| src/agents/DominatedActionSequencePruning.cpp:112-143 | position i walks actions perm[d] but writes entry permutateToOriginalAction(i), which maps each action to its position (the inverse map) | order [1, 2, 0, 3, …, 17], length 1: sequence 0 walks action 1, entry 2 is marked | the entry of the sequence actually walked | medium, not executed | UsedSequences.AsWrittenIndexMisplaces | UsedSequences.CorrectedIndexNamesWalk |
| src/agents/features/RAMBytes.cpp:33-39 | block j starts at offset j·\|ram\|·256, so block 0 writes over the plain block and the last block stays empty | RAM [5], redundant_ram 1: features 0 and 5 are set, none of 256 .. 511 | block j at offset (j+1)·\|ram\|·256, pairing byte i with byte i+j+1 | medium, not executed | Features.BytesRedundantOverlapsPlain | Features.IntendedBlocksOneHot |
