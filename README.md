# FastVC local-search core in Dafny

FastVC is a local-search solver for minimum vertex cover. It keeps one
candidate cover C and updates it in place. Each vertex has a flag
`v_in_c` and a score `dscore`:

- for a vertex outside C, `dscore` is the number of its uncovered edges
  (the gain of adding it);
- for a vertex inside C, it is minus the number of its edges whose other
  endpoint is outside C (the loss of removing it).

Two slot-tracked sets sit beside the cover. Each is an array of members
plus an inverse index:

- the uncovered-edge stack (`uncov_stack`, `index_in_uncov_stack`);
- the removal-candidate pool (`remove_cand`, `index_in_remove_cand`),
  which lists exactly C.

`add` and `remove` keep the flags, the scores and the stack exact by
walking the adjacency rows of the moved vertex; they never rescan the
graph. `init_sol` builds the first cover:

1. a greedy pass over the edges;
2. a bulk score pass;
3. a redundancy-pruning pass;
4. a pool rebuild.

`cover_LS` then alternates two kinds of iteration:

- a capture, when no edge is uncovered: record the cover as the best one,
  then evict one vertex (`update_target_size`);
- a repair step: remove a sampled pool vertex, then add the better
  endpoint of a random uncovered edge.

`check_solution` verifies the best cover at the end.

The project has five modules:

- `Graph` (graph.dfy): the edge array and the reference rows
  `Incident`/`Neighbours`, which state what `v_edges`/`v_adj` must hold.
- `Instance` (instance.dfy): `build_instance` as imperative code. It has
  the id handling of the headerless loader, the degree count, the row
  allocation and the row fill.
- `Cover` (cover.dfy): pure reference definitions over a cover given as
  a flag sequence:
  - the score of a vertex, the set of uncovered edges and the cover size;
  - the greedy and pruning passes;
  - the pool listing and the eviction slot of `update_target_size`.

  It also holds the lemmas that tie the incremental updates to these
  definitions.
- `FastVC` (solver.dfy): class `Solver`. Its fields are the solver's
  global arrays and counters. Its methods are `add`, `remove`, `cover`,
  `uncover`, `init_sol`, `reset_remove_cand`, `update_target_size`,
  `choose_remove_v`, `update_best_sol` and `check_solution`. `Valid()`
  bundles the invariants every method checks against the reference
  definitions:
  - the score formula;
  - the stack equals the set of uncovered edges, with its index inverse to
    its slots;
  - the pool equals C, with its index inverse to its slots;
  - `c_size == remove_cand_size == |C|`.
- `LocalSearch` (search.dfy): the `cover_LS` loop and its repair step,
  and `Solve`, the solver part of `main`: build, initialise, search,
  check.

`rand()` and the clock are parameters:

- `rnd(i)` is the i-th value `rand()` returns. A repair step uses 51
  values: 50 samples for `choose_remove_v`, then the uncovered-edge draw.
- `timeUp(t)` says whether the cutoff has passed when the clock is read at
  step `t`. It is consulted exactly where the source reads the clock: in a
  repair iteration whose step is divisible by 10.
- The loop is bounded by a ghost `deadline`, a step at which `timeUp`
  holds.

Integers are unbounded. The source's `int` and `long long` counters are
modelled as `int`.

## Model

| member | source | states |
|---|---|---|
| Graph.Incident | fastvc.h:205-219 | reference definition: the ids of the edges among the first n that touch `v`, in edge order, which is what the fill writes into v_edges[v]; its own contract bounds the row by n and its ids below n, and Graph.IncidentSortedExact, Graph.IncidentSet and Graph.RowsAt state what it holds |
| Graph.Neighbours | fastvc.h:214-215 | reference definition: the other endpoint of each of those edges, position by position, which is what the fill writes into v_adj[v]; its own contract bounds the row by n, and Graph.RowsAt, Graph.RowLengths and Graph.OccNeighbours state what it holds |
| Graph.RowsAt | fastvc.h:205-219 | the k-th incident edge of `v` has `v` as an endpoint, and the k-th neighbour is that edge's other endpoint |
| Graph.IncidentSortedExact | fastvc.h:205-219 | the incident row lists, in strictly increasing order, exactly the edges having `v` as an endpoint |
| Graph.RowLengths | fastvc.h:211-218 | the edge row and the neighbour row of a vertex have the same length |
| Graph.IncidentMonotone | fastvc.h:205-219 | the row of `v` only grows as the fill pass advances, and grows strictly at an edge touching `v` |
| Graph.JoiningSymmetric | fastvc.h:214-215 | the number of edges from v to w equals the number from w to v |
| Graph.NoSelfJoin | fastvc.h:139-141 | without self-loops no edge joins a vertex to itself |
| Graph.OccNeighbours | fastvc.h:214-215 | `w` occurs in the neighbour row of `v` once per edge joining them |
| Graph.SwapPop | fastvc.h:319-328 | deleting slot k by moving the last entry into it leaves one entry fewer, with the last entry at k and every other slot unchanged |
| Graph.RowFresh | fastvc.h:211-212 | an incident edge does not occur before its own position in the row |
| Graph.IncidentSet | fastvc.h:211-212 | the values of the incident row are the set of edges touching `v` |
| Graph.NeighboursInRange | fastvc.h:214-215 | every neighbour is a vertex 1..vNum |
| Graph.Rows | fastvc.h:186-219 | in a well-formed instance, v_degree, v_edges and v_adj of `v` are the reference rows, and all three lengths agree |
| Cover.CoverSize | fastvc.h:453-457 | reference definition: the number of flagged vertices among 1..n, counted as check_solution counts them; its own contract only bounds it by n |
| Cover.CountOutNeighbours | fastvc.h:399-407 | the neighbours outside the cover in the row of `v` number exactly the edges of `v` whose other endpoint is outside |
| Cover.Pushed | fastvc.h:418-432 | reference definition: the edges remove pushes, in row order, namely those whose neighbour in the same slot is outside the cover; there are exactly as many as neighbours outside |
| Cover.PushedSnoc | fastvc.h:420-428 | one more slot of remove's walk appends that slot's edge to the pushes exactly when its neighbour is outside the cover |
| Cover.Find | fastvc.h:319-328 | the slot `index_in_uncov_stack` records for an edge: a slot holding it, with no earlier slot holding it |
| Cover.Take | fastvc.h:319-328 | reference definition of cover(e) on the stack contents: the slot of `e` receives the top entry and the top slot is dropped, so the stack shrinks by one; an edge not on the stack leaves it as it was |
| Cover.TakeRemoves | fastvc.h:319-328 | on a stack without repeats, cover(e) removes exactly `e`, keeps every other edge, and leaves no repeats |
| Cover.Popped | fastvc.h:393-408 | reference definition: the stack after add's walk, taking off in row order each edge whose neighbour is outside the cover; it shrinks by at most the number of neighbours outside |
| Cover.PoppedSnoc | fastvc.h:396-404 | one more slot of add's walk applies cover(e) to that slot's edge exactly when its neighbour is outside the cover |
| Cover.FlipBoundary | fastvc.h:387-433 | flipping `u` moves the boundary count of `w` by exactly the number of edges joining them: down when `u` joins the cover, up when it leaves |
| Cover.FlipScore | fastvc.h:387-433 | flipping `v` negates its own score and moves every other score by one per joining edge: up when the vertex's flag equals v's new flag, down otherwise |
| Cover.Scores | fastvc.h:361-369 | reference definition: the dscore array the invariant demands, the score of every vertex 0..n; its properties are proved in Cover.FlipScores and Cover.Flip |
| Cover.UncovEdges | fastvc.h:314-328 | reference definition: the set the uncovered-edge stack must hold, the edges with neither endpoint in the cover; its properties are proved in Cover.FlipUncov and the Step lemmas |
| Cover.Adjust | fastvc.h:399-407 | reference definition: the dscore walk of add (b) and remove (!b) over a neighbour row, one step of plus or minus one per listed neighbour; its own contract only keeps the length, and Cover.AdjustAt and Cover.FlipScores state what it computes |
| Cover.AdjustAt | fastvc.h:395-408 | after walking a neighbour row, each entry has moved by its number of occurrences in the row: up when its flag equals the walk's direction, down otherwise |
| Cover.AdjustStep | fastvc.h:399-407 | one more step of the walk changes only the entry of the neighbour it visits, by exactly one |
| Cover.FlipScores | fastvc.h:387-433 | negating the score of `v` and walking its row turns the scores of the cover into the scores of the flipped cover |
| Cover.FlipUncov | fastvc.h:387-433 | adding `v` covers exactly its incident edges; removing it uncovers exactly those incident edges whose other endpoint is outside |
| Cover.Flip | fastvc.h:387-433 | the score and uncovered-set facts for one add or remove, plus: the number of neighbours outside the cover equals v's old gain (add) or loss (remove) |
| Cover.AddStepUncov | fastvc.h:396-404 | at the i-th edge of add's walk the edge leaves the uncovered set exactly when the neighbour is outside the cover, and it is still in the set at that point |
| Cover.RemoveStepUncov | fastvc.h:420-428 | at the i-th edge of remove's walk the edge joins the uncovered set exactly when the neighbour is outside the cover, and it is not yet in the set |
| Cover.BoundaryOutsideCover | fastvc.h:361-369 | when no edge is uncovered, a vertex outside the cover has score 0 |
| Cover.ZeroBoundary | fastvc.h:373-378 | a zero boundary means every edge of `v` has its other endpoint in the cover |
| Cover.CoverSizeFlip | fastvc.h:353-376 | changing one flag changes the cover size by exactly one |
| Cover.CoverSizeNone | fastvc.h:338-340 | with no flag set the cover size is 0 |
| Cover.CoverSizeAgree | fastvc.h:102-105 | the cover size depends only on the flags of 1..n |
| Cover.CoverNotEmpty | fastvc.cpp:26-30 | a cover of a graph with an edge has at least one member |
| Cover.CoverAgree | fastvc.h:102-103 | whether the flags form a cover depends only on the flags of 1..vNum |
| Cover.Members | fastvc.h:247-256 | the pool listing has as many entries as the cover has members, each a member in 1..n |
| Cover.MembersSortedExact | fastvc.h:247-254 | the listing is strictly ascending and names every member |
| Cover.MembersIndexed | fastvc.h:249-250 | an index inverse to the listing finds every member at its slot |
| Cover.Greedy | fastvc.h:341-355 | the greedy cover has one flag per vertex 0..vNum |
| Cover.GreedyCovers | fastvc.h:341-355 | the greedy pass leaves no edge uncovered |
| Cover.Prune | fastvc.h:373-378 | the redundancy pass keeps the length of the flag array |
| Cover.PruneSubset | fastvc.h:373-378 | the redundancy pass only drops vertices |
| Cover.PruneKeepsCover | fastvc.h:373-378 | the redundancy pass keeps a cover a cover |
| Cover.PruneMinimal | fastvc.h:373-378 | after the pass every remaining vertex is the only cover of some edge (score below 0) |
| Cover.PrefixEnd | fastvc.h:270-274 | the scan stops at the first slot from `i` on whose score is 0, or at the end of the pool |
| Cover.SlotScores | fastvc.h:266-276 | reference definition: the values the eviction scan compares, the dscore of the vertex in each pool slot |
| Cover.IsEvictionSlot | fastvc.h:266-279 | reference definition of update_target_size's choice: slot 0 when its score is 0, otherwise the first slot of maximum score among those before the first later score 0 |
| Cover.EvictionSlotUnique | fastvc.h:266-279 | the pool scores fix the eviction slot: no two slots meet IsEvictionSlot |
| Instance.MaxId | fastvc.h:146-147 | the running maximum bounds every id seen so far and is at least 0 |
| Instance.MaxIdAttained | fastvc.h:146-147 | a positive maximum is one of the ids |
| Instance.HasZeroSnoc | fastvc.h:145 | some id is 0 exactly when an earlier pair or the current pair has one |
| Instance.ScanIds | fastvc.h:136-149 | stops at the first self-loop and reports its node; otherwise no pair is a self-loop, and it returns the largest id and whether some id is 0 |
| Instance.Remap | fastvc.h:181-182 | reference definition of the renumbering: id 0 becomes vNum, every other id stays |
| Instance.RemapIds | fastvc.h:181-182 | every id 0 becomes vNum, and every other id is kept |
| Instance.NormalizeIds | fastvc.h:136-149 | rejects exactly the inputs with a self-loop, naming the first; otherwise the vertex count is the largest id, plus 1 if some id is 0, and 0 becomes that count; on non-negative ids the edges are valid |
| Instance.LoadedValid | fastvc.h:145-149 | after renumbering, non-negative ids lie in 1..vNum, with no self-loop |
| Instance.EmptyRows | fastvc.h:194-199 | vertex 0, which no edge touches, has empty rows |
| Instance.CountDegrees | fastvc.h:176-192 | v_degree[v] is the number of edges having `v` as an endpoint |
| Instance.FillOne | fastvc.h:211-218 | writing an edge of `u` at u's cursor extends u's filled row by that edge and its other endpoint, and the cursor was inside the row |
| Instance.FillSkip | fastvc.h:205-219 | an edge not touching `u` leaves u's filled rows as they are |
| Instance.FillStep | fastvc.h:205-219 | one edge written at both endpoints' cursors keeps every row filled up to the next edge |
| Instance.AllocateRows | fastvc.h:194-197 | rows of length v_degree[v] for v = 1..vNum, row 0 empty |
| Instance.WriteEdge | fastvc.h:211-218 | the edge goes at both endpoints' cursors, each neighbour row gets the other endpoint, and both cursors advance; nothing else changes |
| Instance.FillEdge | fastvc.h:205-219 | one iteration of the fill pass keeps every row filled |
| Instance.FillRows | fastvc.h:201-219 | after the fill, v_edges[v] is the incident-edge row of `v` and v_adj[v] its neighbour row |
| Instance.BuildInstance | fastvc.h:176-219 | the adjacency arrays built from an edge array form a well-formed instance |
| FastVC.Pigeonhole | fastvc.h:314-317 | distinct edge ids that leave one edge out number fewer than e_num, so a push never overflows the stack |
| FastVC.Ids | fastvc.h:161-162 | the ids 0..n-1 form a set of n elements |
| FastVC.DistinctBound | fastvc.h:161-162 | a sequence with no repeats is no longer than the set its values come from |
| FastVC.Sampled | fastvc.h:298-301 | reference definition: the pool entries the samples name, draw i taken modulo the pool size |
| FastVC.Better | fastvc.h:303-308 | reference definition of the preference that choose_remove_v and the endpoint choice of fastvc.cpp:52 apply: a higher dscore, or an equal dscore and an older time stamp |
| FastVC.BetterStrictOrder | fastvc.h:303-308 | the preference is a strict order: irreflexive, asymmetric and transitive |
| FastVC.RemovePickUnique | fastvc.h:298-311 | at most one sample is beaten by no sample while beating every earlier one, so choose_remove_v's rule fixes its pick |
| FastVC.Solver.constructor | fastvc.h:160-172 | allocates every array with its size: one entry per vertex 0..vNum, or one per edge |
| FastVC.Solver.Uncover | fastvc.h:314-317 | pushes `e` and records its slot: the stack is the old stack plus `e`, and slot indices stay inverse |
| FastVC.Solver.Cover | fastvc.h:319-328 | deletes `e` by moving the top into e's slot: the stack is SwapPop of the old one at e's slot, and the set loses exactly `e` |
| FastVC.Solver.ListMembers | fastvc.h:247-254 | lists the cover in ascending order with each member's slot in the index, and index 0 for every non-member |
| FastVC.Solver.ResetRemoveCand | fastvc.h:244-257 | the pool is exactly the cover in ascending order, its size is the cover size, and non-members have index 0 |
| FastVC.Solver.PoolDelete | fastvc.h:283-288 | the pool loses exactly `v`, by SwapPop at v's slot, and still mirrors the cover without `v` |
| FastVC.Solver.ChooseAddV | fastvc.cpp:48-55 | the edge is the one in stack slot `edgeDraw` modulo the fill pointer, and that is its only slot (Find names it); it is uncovered; the added vertex is its endpoint with higher dscore, then older time stamp, else v2, and lies outside the cover |
| FastVC.Solver.PoolReplace | fastvc.cpp:59-63 | the new vertex takes over the slot of the removed one, which may be itself; the removed vertex's index entry becomes 0 unless re-added |
| FastVC.Solver.AddInSlotOf | fastvc.cpp:57-63 | adding the vertex in the removed vertex's pool slot restores every invariant, the cover size included; the pool changes only in that slot, and the stack becomes Popped over the added vertex's rows |
| FastVC.Solver.ScanPool | fastvc.h:264-280 | returns the vertex in the slot IsEvictionSlot names: slot 0 if its score is 0, else the first maximum before the first later zero |
| FastVC.Solver.UpdateTargetSize | fastvc.h:259-291 | decrements c_size, removes the vertex of the eviction slot from the cover and from the pool by SwapPop, appends remove's pushes (Pushed) to the stack, and keeps every invariant |
| FastVC.Solver.Stamp | fastvc.cpp:65-68 | both moved vertices get the current step as time stamp, and the step grows by one |
| FastVC.Solver.ChooseRemoveV | fastvc.h:294-312 | returns a sampled pool vertex, hence a cover member, that no sample beats (higher dscore, then older stamp) and that beats every earlier sample |
| FastVC.Solver.UpdateBestSol | fastvc.h:99-112 | copies the flags of 1..vNum, best_c_size and best_step; a cover of size c_size becomes a valid best record; the flags, scores, pool and stack are left as they were |
| FastVC.Solver.CheckSolution | fastvc.h:445-468 | returns true exactly when the best record is a cover and best_c_size is its size |
| FastVC.Solver.ClearFlags | fastvc.h:336-338 | every dscore and time stamp is 0 and every flag is false |
| FastVC.Solver.GreedyPass | fastvc.h:340-355 | the flags are the greedy cover, c_size is its size, and every edge is covered |
| FastVC.Solver.ScorePass | fastvc.h:357-369 | for a cover, each dscore becomes its score, and the stack is empty and equals the empty uncovered set |
| FastVC.Solver.PrunePass | fastvc.h:371-378 | the flags become the pruned cover, the stack stays empty, and every invariant and c_size are kept |
| FastVC.Solver.InitSol | fastvc.h:330-385 | the pruned greedy cover with exact scores, an empty stack, the pool listing the cover in ascending order, a best record that holds the initial cover's flags and size, and zero time stamps |
| FastVC.Solver.AddAcross | fastvc.h:399-407 | across one edge: a neighbour outside the cover loses one and the edge leaves the stack by cover(e) (Take); a neighbour inside gains one; the cover flags are untouched |
| FastVC.Solver.RemoveAcross | fastvc.h:423-431 | across one edge: a neighbour outside the cover gains one and the edge is pushed on top of the stack; a neighbour inside loses one |
| FastVC.Solver.AddEdgeAt | fastvc.h:396-407 | one iteration of add's walk takes dscore, the stack set and the fill pointer from their values after i edges to their values after i+1, and applies cover(e) to the stack exactly when the neighbour is outside |
| FastVC.Solver.RemoveEdgeAt | fastvc.h:420-431 | one iteration of remove's walk takes dscore, the stack set and the fill pointer from their values after i edges to their values after i+1, and pushes the edge exactly when the neighbour is outside |
| FastVC.Solver.AddWalk | fastvc.h:393-408 | dscore is the old array walked over v's neighbour row; the stack loses v's edges and is exactly Popped over v's rows; the fill pointer drops by the neighbours outside the cover |
| FastVC.Solver.Add | fastvc.h:387-409 | flags only `v`, negates its dscore, uncovers nothing and covers exactly v's incident edges, leaves the stack exactly Popped over v's rows, and keeps the score and stack invariants |
| FastVC.Solver.RemoveWalk | fastvc.h:418-432 | dscore is the old array walked over v's neighbour row; the stack gains v's edges left uncovered, exactly the old stack followed by Pushed over v's rows; the fill pointer grows by the neighbours outside the cover |
| FastVC.Solver.Remove | fastvc.h:411-433 | unflags only `v`, negates its dscore, uncovers exactly v's edges whose other endpoint is outside, leaves the old stack followed by Pushed over v's rows, and keeps the score and stack invariants |
| FastVC.Solver.AddRemove | fastvc.h:387-433 | add then remove of the same vertex restores the flags, every dscore, the uncovered set and the fill pointer |
| LocalSearch.StepDraws | fastvc.h:298-301 | reference definition: the samples of repair step t, the 50 rand() values starting at 51(t-1) |
| LocalSearch.RemoveSampled | fastvc.cpp:43-46 | removes choose_remove_v's pick among the samples (no sample beats it, it beats every earlier one); the pool still lists the old cover; the stack becomes the old stack followed by Pushed over the removed vertex's rows |
| LocalSearch.AddDrawn | fastvc.cpp:48-68 | draws the edge in the only stack slot numbered `edgeDraw` modulo the fill pointer, adds its better endpoint into the removed vertex's pool slot, leaves the stack Popped over its rows, stamps both vertices, advances the step, and restores every invariant |
| LocalSearch.RepairStep | fastvc.cpp:43-68 | removes choose_remove_v's pick among the samples `draws` (no sample beats it, it beats every earlier one, on the scores and stamps before the step); the stack it leaves is exactly the old stack followed by remove's pushes in row order (Pushed), and it holds exactly the uncovered edges; the drawn edge is the one in slot edgeDraw modulo its length, and that is its only slot; adds that edge's better endpoint, scored after the removal, into the freed pool slot; the final stack is Popped over the added vertex's rows; stamps both; advances the step by one; keeps c_size and every invariant |
| LocalSearch.DrawnRepairStep | fastvc.cpp:43-68 | a repair step fed from the rand() stream keeps every invariant and c_size, and advances the step by one |
| LocalSearch.Capture | fastvc.cpp:26-32 | records the cover as the best, with its size, and evicts the first maximum of the pool prefix; c_size drops by one; the pool loses the evicted vertex by SwapPop at its slot, so every other slot keeps its vertex except that the last slot's vertex moves into the freed one; the stack then holds exactly the evicted vertex's pushes (Pushed); the step is unchanged |
| LocalSearch.CoverLS | fastvc.cpp:19-70 | every invariant holds and the best record is a cover of size best_c_size; the first capture keeps the initial size and each later one lowers it by one; the loop stops either at a cutoff test or at an empty pool, and only in a repair iteration; no cutoff test at an earlier step divisible by 10 succeeded, so CutoffReached is the first successful test, and at EmptyPool the test of the current step, if any, failed |
| LocalSearch.Solve | fastvc.cpp:85-112 | on a graph with an edge, check_solution always succeeds, and the best cover returned is a cover of the reported size |

## Left out

- File reading and format detection in build_instance (fastvc.h:124-134, 151-156, 177-178): I/O. The edges are a given sequence. The headerless loader's id handling is modelled on a list of integer pairs (`Instance.NormalizeIds`). The `DIMACS` header branch is not modelled.
- Instance.NormalizeIds: the source handles ids in two passes over the file; the model does both in one place over the list of pairs.
- The clock and the cutoff (fastvc.cpp:34-41, fastvc.h:106-110): these are clock reads and floating point. They are replaced by the oracle `timeUp`, and `best_comp_time` is not modelled.
- LocalSearch.CoverLS: requires a step `deadline`, divisible by 10, at which `timeUp` holds. The source assumes the cutoff is eventually reached; the model needs this bound to prove termination.
- `rand()` and `srand` (fastvc.h:298, 301; fastvc.cpp:48, 93): replaced by the stream `rnd`, read in the order the source calls `rand()`.
- `main`'s argument handling, `print_solution`, `free_memory` and all `cout` diagnostics: I/O and manual memory management.
- LocalSearch.CoverLS: an empty pool at a repair step is the outcome `EmptyPool`. The source evaluates `rand() % 0` there, which is undefined behaviour. It happens when the best cover has size 1 (a star or a single edge), because the next capture empties the pool.
- LocalSearch.Solve and LocalSearch.CoverLS: require at least one edge. With no edges, the capture loop reads `remove_cand[0]` of an empty pool and never reaches a cutoff test.
- FastVC.Solver.constructor: does not specify the contents of the fresh arrays. The source leaves them uninitialised until init_sol writes them.
- The integer widths of `int`, `long` and `long long`: counters are unbounded, and wrap-around is not modelled.
- FastVC.Solver.ScanPool: requires every pool entry to be a vertex, which `Valid()` guarantees at its one caller.
- FastVC.Solver.PoolReplace: when the removed vertex is re-added, its index entry is first cleared, then set to its slot again. The model states the final value, not the order.
- LocalSearch.DrawnRepairStep: its own contract states only the invariants, c_size and the step. It calls LocalSearch.RepairStep with the samples StepDraws(rnd, step) and the edge draw rnd(51(step-1) + 50); which vertices and which edge those values pick is stated in RepairStep's contract, not repeated here.
- LocalSearch.CoverLS: states the sizes of the captured covers, not which vertices they hold.
- LocalSearch.CoverLS: does not state that every step below the final one was a repair step. The contract has no trace of the iterations; their effects are stated one call at a time by LocalSearch.Capture and LocalSearch.RepairStep.
