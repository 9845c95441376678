/** The search loop of fastvc.cpp (cover_LS) and the sequence main runs
    it in. The clock and rand() are inputs: `rnd(i)` is the i-th value
    rand() returns, and `timeUp(t)` says whether the cutoff has passed when
    the clock is read at step t. */
module LocalSearch {
  import opened Graph
  import opened Cover
  import opened FastVC
  import Instance

  /** How cover_LS ends: at a cutoff check, or at a repair step whose pool
      is empty, where choose_remove_v would compute rand() % 0. */
  datatype Outcome = CutoffReached | EmptyPool

  /** try_step: the cutoff is tested at every step divisible by it. */
  const TryStep := 10

  /** rand() values a repair step consumes: CandCount samples for
      choose_remove_v, then the draw of the uncovered edge. */
  const DrawsPerStep := CandCount + 1

  /** The draws of repair step `t` (steps count from 1). */
  function StepDraws(rnd: nat -> nat, t: int): (d: seq<nat>)
    requires t >= 1
    ensures |d| == CandCount
    ensures forall j :: 0 <= j < CandCount ==> d[j] == rnd(DrawsPerStep * (t - 1) + j)
  {
    seq(CandCount, j requires 0 <= j < CandCount => rnd(DrawsPerStep * (t - 1) + j))
  }

  /** The first half of a repair step (fastvc.cpp:43-46): remove the pool
      vertex choose_remove_v picks from the samples `draws`; `k` is the
      sample that names it. The pool still lists the cover `c0` of before
      the removal, and the stack has gained remove's pushes at its top. */
  method RemoveSampled(s: Solver, draws: seq<nat>) returns (removeV: int, ghost k: int)
    requires s.Valid() && s.removeCandSize > 0 && |draws| == CandCount
    modifies s.vInC, s.dscore, s.uncovStack, s.indexInUncovStack, s`uncovStackFillPointer
    ensures s.Consistent() && s.Pool(old(s.vInC[..])) && s.cSize == CoverSize(old(s.vInC[..]), s.vNum) == s.removeCandSize
    ensures 1 <= removeV <= s.vNum && old(s.vInC[removeV])
    ensures var smp, d, t := Sampled(s.removeCand[..], draws, s.removeCandSize), old(s.dscore[..]), s.timeStamp[..];
            && 0 <= k < |smp| && removeV == smp[k]
            && (forall j :: 0 <= j < |smp| ==> !Better(d, t, smp[j], removeV))
            && (forall j :: 0 <= j < k ==> Better(d, t, removeV, smp[j]))
    ensures s.vInC[..] == old(s.vInC[..])[removeV := false]
    ensures |s.g.vEdges[removeV]| == |s.g.vAdj[removeV]|
    ensures s.UncovStack() == old(s.UncovStack()) + Pushed(s.g.vEdges[removeV], s.g.vAdj[removeV], s.vInC[..])
  {
    removeV, k := s.ChooseRemoveV(draws);
    s.Remove(removeV);
  }

  /** The second half of a repair step (fastvc.cpp:48-68), after `u` left
      the cover `c0`: draw the uncovered edge `e` in slot `edgeDraw` modulo
      the fill pointer, add its better endpoint into the pool slot of `u`,
      stamp both vertices and advance the step. */
  method AddDrawn(s: Solver, u: int, edgeDraw: nat, ghost c0: seq<bool>) returns (addV: int, ghost e: int)
    requires s.Consistent() && s.Pool(c0) && 1 <= u <= s.vNum && c0[u] && s.vInC[..] == c0[u := false]
    requires s.cSize == CoverSize(c0, s.vNum) == s.removeCandSize && s.uncovStackFillPointer > 0
    modifies s`step, s.vInC, s.dscore, s.timeStamp, s.uncovStack, s.indexInUncovStack
    modifies s`uncovStackFillPointer, s.removeCand, s.indexInRemoveCand
    ensures s.Valid() && s.cSize == old(s.cSize) && s.step == old(s.step) + 1
    ensures var st := old(s.UncovStack());
            && e == st[edgeDraw % |st|] && Find(st, e) == edgeDraw % |st|
            && 0 <= e < s.eNum && Uncovered(s.g.edges, old(s.vInC[..]), e)
            && var v1, v2 := s.g.edges[e].v1, s.g.edges[e].v2;
               addV == if Better(old(s.dscore[..]), old(s.timeStamp[..]), v1, v2) then v1 else v2
    ensures |s.g.vEdges[addV]| == |s.g.vAdj[addV]|
    ensures s.UncovStack() == Popped(old(s.UncovStack()), s.g.vEdges[addV], s.g.vAdj[addV], s.vInC[..])
    ensures s.vInC[..] == old(s.vInC[..])[addV := true]
    ensures s.timeStamp[..] == old(s.timeStamp[..])[u := old(s.step)][addV := old(s.step)]
    ensures var k := old(s.indexInRemoveCand[u]);
            0 <= k < s.removeCandSize
            && s.removeCand[..s.removeCandSize] == old(s.removeCand[..s.removeCandSize])[k := addV]
  {
    addV, e := s.ChooseAddV(edgeDraw);
    s.AddInSlotOf(u, addV, c0);
    s.Stamp(u, addV);
  }

  /** One repair step of cover_LS (fastvc.cpp:43-68): remove the pool
      vertex choose_remove_v picks from the samples `draws`, draw the
      uncovered edge in slot `edgeDraw` modulo the fill pointer of the stack
      as the removal left it (`stack`), add its better endpoint in the freed
      pool slot, stamp both vertices and advance the step. `k` is the sample
      that names `removeV`; `stack` is the old stack followed by remove's
      pushes in row order. The choice of `addV` is stated on the scores of
      the cover after the removal, which a reference definition determines. */
  method RepairStep(s: Solver, draws: seq<nat>, edgeDraw: nat)
      returns (removeV: int, addV: int, ghost k: int, ghost stack: seq<int>, ghost e: int)
    requires s.Valid() && s.uncovStackFillPointer > 0 && s.removeCandSize > 0 && |draws| == CandCount
    modifies s`step, s.vInC, s.dscore, s.timeStamp, s.uncovStack, s.indexInUncovStack
    modifies s`uncovStackFillPointer, s.removeCand, s.indexInRemoveCand
    ensures s.Valid() && s.cSize == old(s.cSize) && s.step == old(s.step) + 1
    ensures 1 <= removeV <= s.vNum && old(s.vInC[removeV])
    ensures var smp, d, t := Sampled(old(s.removeCand[..]), draws, old(s.removeCandSize)), old(s.dscore[..]), old(s.timeStamp[..]);
            && 0 <= k < |smp| && removeV == smp[k]
            && (forall j :: 0 <= j < |smp| ==> !Better(d, t, smp[j], removeV))
            && (forall j :: 0 <= j < k ==> Better(d, t, removeV, smp[j]))
    ensures var c := old(s.vInC[..])[removeV := false];
            && |s.g.vEdges[removeV]| == |s.g.vAdj[removeV]|
            && stack == old(s.UncovStack()) + Pushed(s.g.vEdges[removeV], s.g.vAdj[removeV], c)
            && |stack| > 0 && SetOf(stack) == UncovEdges(s.g.edges, c)
            && e == stack[edgeDraw % |stack|] && Find(stack, e) == edgeDraw % |stack|
            && 0 <= e < s.eNum && Uncovered(s.g.edges, c, e)
            && var v1, v2, d := s.g.edges[e].v1, s.g.edges[e].v2, Scores(s.g.edges, c, s.vNum);
               addV == if Better(d, old(s.timeStamp[..]), v1, v2) then v1 else v2
    ensures |s.g.vEdges[addV]| == |s.g.vAdj[addV]|
    ensures s.UncovStack() == Popped(stack, s.g.vEdges[addV], s.g.vAdj[addV], s.vInC[..])
    ensures s.vInC[..] == old(s.vInC[..])[removeV := false][addV := true]
    ensures s.timeStamp[..] == old(s.timeStamp[..])[removeV := old(s.step)][addV := old(s.step)]
    ensures var k := old(s.indexInRemoveCand[removeV]);
            0 <= k < s.removeCandSize
            && s.removeCand[..s.removeCandSize] == old(s.removeCand[..s.removeCandSize])[k := addV]
  {
    ghost var c0 := s.vInC[..];
    removeV, k := RemoveSampled(s, draws);
    stack := s.UncovStack();
    addV, e := AddDrawn(s, removeV, edgeDraw, c0);
  }

  /** A repair step fed with its share of the rand() stream: the samples
      first, then the edge draw. */
  method DrawnRepairStep(s: Solver, rnd: nat -> nat)
    requires s.Valid() && s.uncovStackFillPointer > 0 && s.removeCandSize > 0 && s.step >= 1
    modifies s`step, s.vInC, s.dscore, s.timeStamp, s.uncovStack, s.indexInUncovStack
    modifies s`uncovStackFillPointer, s.removeCand, s.indexInRemoveCand
    ensures s.Valid() && s.cSize == old(s.cSize) && s.step == old(s.step) + 1
  {
    var base: nat := DrawsPerStep * (s.step - 1);
    var removeV, addV, k, stack, e := RepairStep(s, StepDraws(rnd, s.step), rnd(base + CandCount));
  }

  /** The capture branch of cover_LS (fastvc.cpp:26-32): with no
      uncovered edge left the cover is recorded as the best, and the target
      shrinks by one. */
  method Capture(s: Solver) returns (ghost slot: int)
    requires s.Valid() && s.eNum > 0 && s.uncovStackFillPointer == 0
    modifies s`cSize, s`bestCSize, s`bestStep, s`removeCandSize, s`uncovStackFillPointer
    modifies s.vInC, s.dscore, s.uncovStack, s.indexInUncovStack
    modifies s.removeCand, s.indexInRemoveCand, s.bestVInC
    ensures s.Valid() && s.BestOk()
    ensures s.bestCSize == old(s.cSize) >= 1 && s.cSize == old(s.cSize) - 1 && s.bestStep == s.step
    ensures forall v :: 1 <= v <= s.vNum ==> s.bestVInC[v] == old(s.vInC[v])
    ensures IsEvictionSlot(SlotScores(old(s.removeCand[..s.removeCandSize]), old(s.dscore[..])), slot)
    ensures s.vInC[..] == old(s.vInC[..])[old(s.removeCand[slot]) := false]
    ensures 0 <= slot < old(s.removeCandSize)
            && s.removeCand[..s.removeCandSize] == SwapPop(old(s.removeCand[..s.removeCandSize]), slot)
    ensures var u := old(s.removeCand[slot]);
            && |s.g.vEdges[u]| == |s.g.vAdj[u]|
            && s.UncovStack() == old(s.UncovStack()) + Pushed(s.g.vEdges[u], s.g.vAdj[u], s.vInC[..])
  {
    assert s.UncovStack() == [] && s.OnStack() == {};
    NoUncoveredIsCover(s.g.edges, s.vInC[..]);
    CoverNotEmpty(s.vNum, s.g.edges, s.vInC[..]);
    s.UpdateBestSol();
    assert s.Valid();
    slot := s.UpdateTargetSize();
  }

  /** cover_LS (fastvc.cpp:19-70). While the stack is empty the current
      cover is recorded as the best and the target shrinks by one; otherwise
      a repair step runs, preceded at every TryStep-th step by the cutoff
      test. `captures` counts the captures: the first records a cover of
      the size the loop starts with and each later one a cover one vertex
      smaller, so the best size drops by one per capture after the first.
      The cutoff is assumed to pass by step `deadline`, which bounds the
      loop. */
  method CoverLS(s: Solver, rnd: nat -> nat, timeUp: int -> bool, ghost deadline: int)
      returns (outcome: Outcome, ghost captures: nat)
    requires s.Valid() && s.BestOk() && s.eNum > 0 && s.cSize == s.bestCSize
    requires deadline >= 1 && deadline % TryStep == 0 && timeUp(deadline)
    modifies s`step, s`cSize, s`bestCSize, s`bestStep, s`removeCandSize, s`uncovStackFillPointer
    modifies s.vInC, s.dscore, s.timeStamp, s.uncovStack, s.indexInUncovStack
    modifies s.removeCand, s.indexInRemoveCand, s.bestVInC
    ensures s.Valid() && s.BestOk() && s.step >= 1
    ensures forall t :: 1 <= t < s.step && t % TryStep == 0 ==> !timeUp(t)
    ensures outcome == CutoffReached ==> s.step % TryStep == 0 && timeUp(s.step) && s.uncovStackFillPointer > 0
    ensures outcome == EmptyPool ==> s.cSize == 0 && s.bestCSize == 1 && s.uncovStackFillPointer > 0
    ensures outcome == EmptyPool && s.step % TryStep == 0 ==> !timeUp(s.step)
    ensures captures == 0 ==> s.bestCSize == old(s.bestCSize) && s.cSize == old(s.cSize)
    ensures captures > 0 ==> s.bestCSize == old(s.cSize) - captures + 1 && s.cSize == s.bestCSize - 1
  {
    ghost var size0 := s.cSize;
    CoverNotEmpty(s.vNum, s.g.edges, s.bestVInC[..]);
    s.step := 1;
    captures := 0;
    while true
      invariant s.Valid() && s.BestOk() && 1 <= s.bestCSize
      invariant 1 <= s.step <= deadline
      invariant forall t :: 1 <= t < s.step && t % TryStep == 0 ==> !timeUp(t)
      invariant s.cSize == size0 - captures
      invariant s.bestCSize == if captures == 0 then size0 else size0 - captures + 1
      decreases deadline - s.step, s.cSize
    {
      if s.uncovStackFillPointer == 0 {
        ghost var slot := Capture(s);
        captures := captures + 1;
        continue;
      }
      if s.step % TryStep == 0 && timeUp(s.step) {
        return CutoffReached, captures;
      }
      if s.removeCandSize == 0 {
        return EmptyPool, captures;
      }
      assert s.step < deadline;
      ghost var t0 := s.step;
      assert forall t :: 1 <= t <= t0 && t % TryStep == 0 ==> !timeUp(t);
      DrawnRepairStep(s, rnd);
    }
  }

  /** The solver core of main (fastvc.cpp:85-112, without the I/O): build
      the instance, construct the initial solution, search, and check the
      best cover found. On a graph with at least one edge the check always
      passes, whichever way the search ends. When it ends with EmptyPool
      the source never reaches check_solution: its next choose_remove_v
      evaluates rand() % 0 (fastvc.h:298). The model stops the search there
      and checks the best cover recorded so far. */
  method Solve(vNum: nat, edges: seq<Edge>, rnd: nat -> nat, timeUp: int -> bool, ghost deadline: int)
      returns (ok: bool, outcome: Outcome, bestSize: int, best: seq<bool>)
    requires ValidEdges(vNum, edges) && |edges| > 0
    requires deadline >= 1 && deadline % TryStep == 0 && timeUp(deadline)
    ensures ok
    ensures IsCover(edges, best) && bestSize == CoverSize(best, vNum) && |best| == vNum + 1
  {
    var g := Instance.BuildInstance(vNum, edges);
    var s := new Solver(g);
    s.InitSol();
    ghost var captures;
    outcome, captures := CoverLS(s, rnd, timeUp, deadline);
    ok := s.CheckSolution();
    bestSize, best := s.bestCSize, s.bestVInC[..];
  }
}
