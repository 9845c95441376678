/** The solver state of fastvc.h: the candidate cover with its incremental
    scores, the uncovered-edge stack, the removal-candidate pool and the best
    cover found, all held in arrays that the operations update in place. */
module FastVC {
  import opened Graph
  import opened Cover

  /** Number of pool samples drawn by choose_remove_v (cand_count). */
  const CandCount := 50

  /** A sequence in which no value occurs twice has at most as many
      positions as the set its values are drawn from has members. */
  lemma {:induction false} DistinctBound(s: seq<int>, t: set<int>)
    requires forall i, j :: 0 <= i < j < |s| ==> s[i] != s[j]
    requires forall i :: 0 <= i < |s| ==> s[i] in t
    ensures |s| <= |t|
  {
    if |s| > 0 {
      var last := s[|s| - 1];
      DistinctBound(s[..|s| - 1], t - {last});
    }
  }

  /** The ids 0..n-1. */
  function Ids(n: nat): (t: set<int>)
    ensures forall x :: x in t <==> 0 <= x < n
    ensures |t| == n
  {
    if n == 0 then {} else Ids(n - 1) + {n - 1}
  }

  /** Pigeonhole: distinct ids 0..n-1 that leave out some id `e` in that
      range number fewer than n. */
  lemma Pigeonhole(s: seq<int>, n: nat, e: int)
    requires forall i, j :: 0 <= i < j < |s| ==> s[i] != s[j]
    requires forall i :: 0 <= i < |s| ==> 0 <= s[i] < n && s[i] != e
    requires 0 <= e < n
    ensures |s| < n
  {
    DistinctBound(s, Ids(n) - {e});
  }

  /** Vertex `u` is preferred to `w`: a higher dscore, or an equal dscore and
      an older time stamp. */
  predicate Better(ds: seq<int>, ts: seq<int>, u: int, w: int)
    requires 0 <= u < |ds| && 0 <= w < |ds| && |ts| == |ds|
  {
    ds[u] > ds[w] || (ds[u] == ds[w] && ts[u] < ts[w])
  }

  /** Better is a strict order: no vertex is preferred to itself, and
      preference is asymmetric and transitive. */
  lemma BetterStrictOrder(ds: seq<int>, ts: seq<int>, u: int, w: int, x: int)
    requires 0 <= u < |ds| && 0 <= w < |ds| && 0 <= x < |ds| && |ts| == |ds|
    ensures !Better(ds, ts, u, u)
    ensures Better(ds, ts, u, w) ==> !Better(ds, ts, w, u)
    ensures Better(ds, ts, u, w) && Better(ds, ts, w, x) ==> Better(ds, ts, u, x)
  {
  }

  /** At most one sample meets choose_remove_v's rule (no sample beats it,
      and it beats every earlier one), so the rule fixes the pick. */
  lemma RemovePickUnique(ds: seq<int>, ts: seq<int>, s: seq<int>, k1: int, k2: int)
    requires |ts| == |ds| && forall j :: 0 <= j < |s| ==> 0 <= s[j] < |ds|
    requires 0 <= k1 < |s| && 0 <= k2 < |s|
    requires forall j :: 0 <= j < |s| ==> !Better(ds, ts, s[j], s[k1]) && !Better(ds, ts, s[j], s[k2])
    requires forall j :: 0 <= j < k1 ==> Better(ds, ts, s[k1], s[j])
    requires forall j :: 0 <= j < k2 ==> Better(ds, ts, s[k2], s[j])
    ensures k1 == k2
  {
    var u, w := s[k1], s[k2];
    assert !Better(ds, ts, w, u) && !Better(ds, ts, u, w);
  }

  /** The pool vertices named by raw random draws, each taken modulo the
      pool size. */
  function Sampled(cand: seq<int>, draws: seq<nat>, size: int): (s: seq<int>)
    requires 0 < size <= |cand|
    ensures |s| == |draws|
    ensures forall i :: 0 <= i < |draws| ==> s[i] == cand[draws[i] % size]
  {
    seq(|draws|, i requires 0 <= i < |draws| => cand[draws[i] % size])
  }

  class Solver {
    /** The instance (edge, v_degree, v_edges, v_adj, v_num, e_num). */
    const g: Graph
    const vNum: nat
    const eNum: nat

    /** v_in_c, dscore, time_stamp: one entry per vertex 0..vNum. */
    const vInC: array<bool>
    const dscore: array<int>
    const timeStamp: array<int>
    /** The pool: remove_cand[0..removeCandSize) and its inverse index. */
    const removeCand: array<int>
    const indexInRemoveCand: array<int>
    /** The uncovered-edge stack and its inverse index, one entry per edge. */
    const uncovStack: array<int>
    const indexInUncovStack: array<int>
    const bestVInC: array<bool>

    var removeCandSize: int
    var uncovStackFillPointer: int
    var cSize: int
    var bestCSize: int
    var bestStep: int
    var step: int

    /** Sizes and separation of the arrays, fixed at allocation. */
    ghost predicate Shape() {
      && WellFormed(g) && vNum == g.vNum && eNum == |g.edges|
      && vInC.Length == vNum + 1 && bestVInC.Length == vNum + 1
      && dscore.Length == vNum + 1 && timeStamp.Length == vNum + 1
      && removeCand.Length == vNum + 1 && indexInRemoveCand.Length == vNum + 1
      && uncovStack.Length == eNum && indexInUncovStack.Length == eNum
      && vInC != bestVInC
      && dscore != timeStamp && dscore != removeCand && dscore != indexInRemoveCand
      && dscore != uncovStack && dscore != indexInUncovStack
      && timeStamp != removeCand && timeStamp != indexInRemoveCand
      && timeStamp != uncovStack && timeStamp != indexInUncovStack
      && removeCand != indexInRemoveCand && removeCand != uncovStack && removeCand != indexInUncovStack
      && indexInRemoveCand != uncovStack && indexInRemoveCand != indexInUncovStack
      && uncovStack != indexInUncovStack
    }

    /** The stack slots below the fill pointer hold edge ids whose index
        entry points back at the slot. */
    ghost predicate StackSlots()
      requires Shape()
      reads this`uncovStackFillPointer, uncovStack, indexInUncovStack
    {
      && 0 <= uncovStackFillPointer <= eNum
      && forall i :: 0 <= i < uncovStackFillPointer ==>
           0 <= uncovStack[i] < eNum && indexInUncovStack[uncovStack[i]] == i
    }

    /** The live part of the stack. */
    ghost function UncovStack(): seq<int>
      requires Shape() && 0 <= uncovStackFillPointer <= eNum
      reads this`uncovStackFillPointer, uncovStack
    {
      uncovStack[..uncovStackFillPointer]
    }

    /** The edges on the stack. */
    ghost function OnStack(): set<int>
      requires Shape() && 0 <= uncovStackFillPointer <= eNum
      reads this`uncovStackFillPointer, uncovStack
    {
      SetOf(UncovStack())
    }

    /** The stack holds exactly the edges the current cover leaves
        uncovered. */
    ghost predicate StackMirrors()
      requires Shape() && StackSlots()
      reads this`uncovStackFillPointer, uncovStack, indexInUncovStack, vInC
    {
      OnStack() == UncovEdges(g.edges, vInC[..])
    }

    /** Every dscore entry is the score of its vertex under the current
        cover. */
    ghost predicate ScoreOk()
      requires Shape()
      reads vInC, dscore
    {
      dscore[..] == Scores(g.edges, vInC[..], vNum)
    }

    /** The pool lists exactly the vertices flagged in `c`, each once, with
        the inverse index pointing at its slot. */
    ghost predicate Pool(c: seq<bool>)
      requires Shape()
      reads this`removeCandSize, removeCand, indexInRemoveCand
    {
      && |c| == vNum + 1 && 0 <= removeCandSize <= vNum
      && (forall i :: 0 <= i < removeCandSize ==>
            1 <= removeCand[i] <= vNum && c[removeCand[i]] && indexInRemoveCand[removeCand[i]] == i)
      && (forall v :: 1 <= v <= vNum && c[v] ==>
            0 <= indexInRemoveCand[v] < removeCandSize && removeCand[indexInRemoveCand[v]] == v)
    }

    /** The pool mirrors the current cover. */
    ghost predicate PoolOk()
      requires Shape()
      reads this`removeCandSize, removeCand, indexInRemoveCand, vInC
    {
      Pool(vInC[..])
    }

    /** c_size and remove_cand_size both count the cover. */
    ghost predicate SizeOk()
      requires Shape()
      reads this`cSize, this`removeCandSize, vInC
    {
      cSize == CoverSize(vInC[..], vNum) && removeCandSize == cSize
    }

    /** What add and remove keep: the stack and the scores agree with the
        cover. */
    ghost predicate Consistent()
      reads this`uncovStackFillPointer, vInC, dscore, uncovStack, indexInUncovStack
    {
      Shape() && StackSlots() && StackMirrors() && ScoreOk()
    }

    /** The full solver invariant between search steps. */
    ghost predicate Valid()
      reads this`uncovStackFillPointer, this`removeCandSize, this`cSize
      reads vInC, dscore, uncovStack, indexInUncovStack, removeCand, indexInRemoveCand
    {
      Consistent() && PoolOk() && SizeOk()
    }

    /** The best cover recorded is a cover and best_c_size is its size. */
    ghost predicate BestOk()
      requires Shape()
      reads this`bestCSize, bestVInC
    {
      IsCover(g.edges, bestVInC[..]) && bestCSize == CoverSize(bestVInC[..], vNum)
    }

    /** The allocations of build_instance (fastvc.h:160-172). The contents
        are not specified until init_sol fills them; step starts at 0 as a
        global does. */
    constructor (g: Graph)
      requires WellFormed(g)
      ensures Shape() && this.g == g && step == 0
      ensures fresh(vInC) && fresh(dscore) && fresh(timeStamp) && fresh(removeCand) && fresh(indexInRemoveCand)
      ensures fresh(uncovStack) && fresh(indexInUncovStack) && fresh(bestVInC)
    {
      this.g := g;
      vNum := g.vNum;
      eNum := |g.edges|;
      vInC := new bool[g.vNum + 1];
      dscore := new int[g.vNum + 1];
      timeStamp := new int[g.vNum + 1];
      removeCand := new int[g.vNum + 1];
      indexInRemoveCand := new int[g.vNum + 1];
      uncovStack := new int[|g.edges|];
      indexInUncovStack := new int[|g.edges|];
      bestVInC := new bool[g.vNum + 1];
      step := 0;
    }

    /** uncover (fastvc.h:314-317): push `e` and record its slot. */
    method Uncover(e: int)
      requires Shape() && StackSlots() && 0 <= e < eNum && e !in OnStack()
      modifies uncovStack, indexInUncovStack, this`uncovStackFillPointer
      ensures StackSlots()
      ensures uncovStackFillPointer == old(uncovStackFillPointer) + 1
      ensures UncovStack() == old(UncovStack()) + [e]
      ensures OnStack() == old(OnStack()) + {e}
    {
      Pigeonhole(uncovStack[..uncovStackFillPointer], eNum, e);
      indexInUncovStack[e] := uncovStackFillPointer;
      uncovStack[uncovStackFillPointer] := e;
      uncovStackFillPointer := uncovStackFillPointer + 1;
    }

    /** cover (fastvc.h:319-328): pop the top edge into the slot of `e`. */
    method Cover(e: int)
      requires Shape() && StackSlots() && 0 <= e < eNum && e in OnStack()
      modifies uncovStack, indexInUncovStack, this`uncovStackFillPointer
      ensures StackSlots()
      ensures uncovStackFillPointer == old(uncovStackFillPointer) - 1
      ensures var s, k := old(UncovStack()), old(indexInUncovStack[e]);
              0 <= k < |s| && s[k] == e && UncovStack() == SwapPop(s, k)
      ensures OnStack() == old(OnStack()) - {e}
    {
      uncovStackFillPointer := uncovStackFillPointer - 1;
      var lastUncovEdge := uncovStack[uncovStackFillPointer];
      var index := indexInUncovStack[e];
      uncovStack[index] := lastUncovEdge;
      indexInUncovStack[lastUncovEdge] := index;
    }

    /** The loop of reset_remove_cand (fastvc.h:247-254): the members in
        ascending order with their slots, and slot 0 for the rest. */
    method ListMembers() returns (j: int, ghost m: seq<int>)
      requires Shape()
      modifies removeCand, indexInRemoveCand
      ensures m == Members(vInC[..], vNum) && j == |m|
      ensures forall i :: 0 <= i < j ==> removeCand[i] == m[i] && indexInRemoveCand[m[i]] == i
      ensures forall u :: 1 <= u <= vNum && !vInC[u] ==> indexInRemoveCand[u] == 0
    {
      ghost var c := vInC[..];
      m := [];
      j := 0;
      var v := 1;
      while v <= vNum
        invariant 1 <= v <= vNum + 1
        invariant m == Members(c, v - 1) && j == |m| <= v - 1
        invariant forall i :: 0 <= i < j ==> removeCand[i] == m[i] && indexInRemoveCand[m[i]] == i
        invariant forall u :: 1 <= u < v && !c[u] ==> indexInRemoveCand[u] == 0
      {
        if vInC[v] {
          removeCand[j] := v;
          indexInRemoveCand[v] := j;
          j := j + 1;
          m := m + [v];
        } else {
          indexInRemoveCand[v] := 0;
        }
        assert m == Members(c, v);
        v := v + 1;
      }
    }

    /** reset_remove_cand (fastvc.h:244-257): list the cover in ascending
        order; a vertex outside the cover gets index 0. */
    method ResetRemoveCand()
      requires Shape()
      modifies removeCand, indexInRemoveCand, this`removeCandSize
      ensures PoolOk()
      ensures removeCandSize == CoverSize(vInC[..], vNum)
      ensures removeCand[..removeCandSize] == Members(vInC[..], vNum)
      ensures forall v :: 1 <= v <= vNum && !vInC[v] ==> indexInRemoveCand[v] == 0
    {
      var j;
      ghost var m;
      j, m := ListMembers();
      assert removeCand[..j] == m;
      removeCandSize := j;
      MembersIndexed(removeCand[..j], indexInRemoveCand[..], vInC[..], vNum);
    }

    /** The pool deletion of update_target_size (fastvc.h:283-288): the last
        pool entry moves into the slot of `v`. `c` is the cover the pool
        listed before `v` left it. */
    method PoolDelete(v: int, ghost c: seq<bool>)
      requires Shape() && Pool(c) && 1 <= v <= vNum && c[v]
      modifies removeCand, indexInRemoveCand, this`removeCandSize
      ensures Pool(c[v := false])
      ensures removeCandSize == old(removeCandSize) - 1
      ensures var s, k := old(removeCand[..removeCandSize]), old(indexInRemoveCand[v]);
              0 <= k < |s| && s[k] == v && removeCand[..removeCandSize] == SwapPop(s, k)
    {
      removeCandSize := removeCandSize - 1;
      var lastRemoveCandV := removeCand[removeCandSize];
      var index := indexInRemoveCand[v];
      removeCand[index] := lastRemoveCandV;
      indexInRemoveCand[lastRemoveCandV] := index;
    }

    /** The edge draw and endpoint choice of a repair step
        (fastvc.cpp:48-55): the uncovered edge in slot `edgeDraw` modulo the
        fill pointer, and its endpoint with the higher dscore, the older time
        stamp on a tie, and otherwise v2. */
    method ChooseAddV(edgeDraw: nat) returns (addV: int, e: int)
      requires Consistent() && uncovStackFillPointer > 0
      ensures e == UncovStack()[edgeDraw % uncovStackFillPointer]
      ensures Find(UncovStack(), e) == edgeDraw % uncovStackFillPointer
      ensures 0 <= e < eNum && Uncovered(g.edges, vInC[..], e)
      ensures var v1, v2 := g.edges[e].v1, g.edges[e].v2;
              addV == if Better(dscore[..], timeStamp[..], v1, v2) then v1 else v2
      ensures 1 <= addV <= vNum && !vInC[addV]
    {
      e := uncovStack[edgeDraw % uncovStackFillPointer];
      assert e in OnStack();
      assert Find(UncovStack(), e) == indexInUncovStack[e];
      var v1, v2 := g.edges[e].v1, g.edges[e].v2;
      if dscore[v1] > dscore[v2] || (dscore[v1] == dscore[v2] && timeStamp[v1] < timeStamp[v2]) {
        addV := v1;
      } else {
        addV := v2;
      }
    }

    /** The pool update of a repair step (fastvc.cpp:59-63): `w` takes over
        the slot of `u` (possibly `u` itself), and `u`'s index entry is
        cleared before `w`'s is set. `c` is the cover the pool listed
        before the step. */
    method PoolReplace(u: int, w: int, ghost c: seq<bool>)
      requires Shape() && Pool(c) && 1 <= u <= vNum && c[u] && 1 <= w <= vNum && (w == u || !c[w])
      modifies removeCand, indexInRemoveCand
      ensures Pool(c[u := false][w := true])
      ensures var k := old(indexInRemoveCand[u]);
              0 <= k < removeCandSize && removeCand[..removeCandSize] == old(removeCand[..removeCandSize])[k := w]
      ensures u != w ==> indexInRemoveCand[u] == 0
    {
      var index := indexInRemoveCand[u];
      indexInRemoveCand[u] := 0;
      removeCand[index] := w;
      indexInRemoveCand[w] := index;
    }

    /** The second half of a repair step (fastvc.cpp:57-63): add `w` and
        give it the pool slot of `u`, which the step has just removed from
        the cover `c`. The pool again mirrors the cover and keeps its size. */
    method AddInSlotOf(u: int, w: int, ghost c: seq<bool>)
      requires Consistent() && Pool(c) && 1 <= u <= vNum && c[u] && vInC[..] == c[u := false]
      requires cSize == CoverSize(c, vNum) == removeCandSize
      requires 1 <= w <= vNum && !vInC[w]
      modifies vInC, dscore, uncovStack, indexInUncovStack, this`uncovStackFillPointer
      modifies removeCand, indexInRemoveCand
      ensures Valid()
      ensures vInC[..] == old(vInC[..])[w := true]
      ensures var k := old(indexInRemoveCand[u]);
              0 <= k < removeCandSize && removeCand[..removeCandSize] == old(removeCand[..removeCandSize])[k := w]
      ensures |g.vEdges[w]| == |g.vAdj[w]|
      ensures UncovStack() == Popped(old(UncovStack()), g.vEdges[w], g.vAdj[w], vInC[..])
    {
      ghost var c1 := vInC[..];
      Add(w);
      PoolReplace(u, w, c);
      if w == u {
        assert c[u := false][w := true] == c;
      } else {
        CoverSizeFlip(c, u, false, vNum);
        CoverSizeFlip(c1, w, true, vNum);
      }
      assert vInC[..] == c[u := false][w := true];
    }

    /** The scan of update_target_size (fastvc.h:264-280): the first pool
        slot holding the largest score among the slots before the first
        zero score (slot 0 alone when its score is zero). */
    method ScanPool() returns (bestV: int, ghost k: int)
      requires Shape() && 0 < removeCandSize <= removeCand.Length
      requires forall j :: 0 <= j < removeCandSize ==> 1 <= removeCand[j] <= vNum
      ensures IsEvictionSlot(SlotScores(removeCand[..removeCandSize], dscore[..]), k)
      ensures bestV == removeCand[k]
    {
      ghost var sc := SlotScores(removeCand[..removeCandSize], dscore[..]);
      bestV := removeCand[0];
      k := 0;
      if dscore[bestV] != 0 {
        var i := 1;
        while i < removeCandSize
          invariant 1 <= i <= removeCandSize
          invariant 0 <= k < i && bestV == removeCand[k]
          invariant forall j :: 0 <= j < i ==> sc[j] <= sc[k]
          invariant forall j :: 0 <= j < k ==> sc[j] < sc[k]
          invariant forall j :: 1 <= j < i ==> sc[j] != 0
        {
          var v := removeCand[i];
          if dscore[v] == 0 {
            break;
          }
          if dscore[v] > dscore[bestV] {
            bestV := v;
            k := i;
          }
          i := i + 1;
        }
        assert i == |sc| || sc[i] == 0;
      }
    }

    /** update_target_size (fastvc.h:259-291): shrink the target by one and
        evict the pool vertex of slot `k`, the slot IsEvictionSlot names for
        the pool's scores. */
    method UpdateTargetSize() returns (ghost k: int)
      requires Valid() && removeCandSize > 0
      modifies this`cSize, vInC, dscore, uncovStack, indexInUncovStack, this`uncovStackFillPointer
      modifies removeCand, indexInRemoveCand, this`removeCandSize
      ensures Valid()
      ensures cSize == old(cSize) - 1
      ensures IsEvictionSlot(SlotScores(old(removeCand[..removeCandSize]), old(dscore[..])), k)
      ensures vInC[..] == old(vInC[..])[old(removeCand[k]) := false]
      ensures removeCand[..removeCandSize] == SwapPop(old(removeCand[..removeCandSize]), k)
      ensures var u := old(removeCand[k]);
              && |g.vEdges[u]| == |g.vAdj[u]|
              && UncovStack() == old(UncovStack()) + Pushed(g.vEdges[u], g.vAdj[u], vInC[..])
    {
      cSize := cSize - 1;
      var bestRemoveV;
      bestRemoveV, k := ScanPool();
      ghost var c0 := vInC[..];
      Remove(bestRemoveV);
      PoolDelete(bestRemoveV, c0);
      CoverSizeFlip(c0, bestRemoveV, false, vNum);
    }

    /** The end of a repair step (fastvc.cpp:65-68): both moved vertices
        take the current step as their time stamp, and the step advances. */
    method Stamp(removeV: int, addV: int)
      requires Shape() && 1 <= removeV <= vNum && 1 <= addV <= vNum
      modifies timeStamp, this`step
      ensures timeStamp[..] == old(timeStamp[..])[removeV := old(step)][addV := old(step)]
      ensures step == old(step) + 1
    {
      timeStamp[removeV] := step;
      timeStamp[addV] := step;
      step := step + 1;
    }

    /** choose_remove_v (fastvc.h:294-312), with the CandCount random
        values as `draws`: the sampled pool vertex of sample `k` that no
        sample beats, and that beats every earlier sample. */
    method ChooseRemoveV(draws: seq<nat>) returns (bestV: int, ghost k: int)
      requires Shape() && PoolOk() && removeCandSize > 0 && |draws| == CandCount
      ensures var s := Sampled(removeCand[..], draws, removeCandSize);
              && 0 <= k < |s| && bestV == s[k]
              && 1 <= bestV <= vNum && vInC[bestV]
              && (forall j :: 0 <= j < |s| ==> !Better(dscore[..], timeStamp[..], s[j], bestV))
              && (forall j :: 0 <= j < k ==> Better(dscore[..], timeStamp[..], bestV, s[j]))
    {
      ghost var s := Sampled(removeCand[..], draws, removeCandSize);
      ghost var d, t := dscore[..], timeStamp[..];
      bestV := removeCand[draws[0] % removeCandSize];
      k := 0;
      var i := 1;
      while i < CandCount
        invariant 1 <= i <= CandCount
        invariant 0 <= k < i && bestV == s[k]
        invariant forall j :: 0 <= j < i ==> 1 <= s[j] <= vNum
        invariant forall j :: 0 <= j < i ==> !Better(d, t, s[j], bestV)
        invariant forall j :: 0 <= j < k ==> Better(d, t, bestV, s[j])
      {
        var v := removeCand[draws[i] % removeCandSize];
        if dscore[v] < dscore[bestV] {
        } else if dscore[v] > dscore[bestV] {
          bestV := v;
          k := i;
        } else if timeStamp[v] < timeStamp[bestV] {
          bestV := v;
          k := i;
        }
        i := i + 1;
      }
    }

    /** update_best_sol (fastvc.h:99-112, the copy part): record the current
        cover, its size and the step. */
    method UpdateBestSol()
      requires Shape()
      modifies bestVInC, this`bestCSize, this`bestStep
      ensures forall v :: 1 <= v <= vNum ==> bestVInC[v] == vInC[v]
      ensures bestVInC[0] == old(bestVInC[0])
      ensures bestCSize == cSize && bestStep == step
      ensures IsCover(g.edges, vInC[..]) && cSize == CoverSize(vInC[..], vNum) ==> BestOk()
      ensures vInC[..] == old(vInC[..]) && dscore[..] == old(dscore[..])
      ensures removeCand[..] == old(removeCand[..]) && uncovStack[..] == old(uncovStack[..])
    {
      var i := 1;
      while i <= vNum
        invariant 1 <= i <= vNum + 1
        invariant forall v :: 1 <= v < i ==> bestVInC[v] == vInC[v]
        invariant bestVInC[0] == old(bestVInC[0])
      {
        bestVInC[i] := vInC[i];
        i := i + 1;
      }
      bestCSize := cSize;
      bestStep := step;
      CoverAgree(vNum, g.edges, vInC[..], bestVInC[..]);
      CoverSizeAgree(vInC[..], bestVInC[..], vNum);
    }

    /** check_solution (fastvc.h:445-468): the recorded best cover leaves no
        edge uncovered and has best_c_size members. */
    method CheckSolution() returns (ok: bool)
      requires Shape()
      ensures ok <==> BestOk()
    {
      var e := 0;
      while e < eNum
        invariant 0 <= e <= eNum
        invariant forall f :: 0 <= f < e ==> !Uncovered(g.edges, bestVInC[..], f)
      {
        if !bestVInC[g.edges[e].v1] && !bestVInC[g.edges[e].v2] {
          assert Uncovered(g.edges, bestVInC[..], e);
          return false;
        }
        e := e + 1;
      }
      var verifiedVcSize := 0;
      var i := 1;
      while i <= vNum
        invariant 1 <= i <= vNum + 1
        invariant verifiedVcSize == CoverSize(bestVInC[..], i - 1)
      {
        if bestVInC[i] {
          verifiedVcSize := verifiedVcSize + 1;
        }
        i := i + 1;
      }
      ok := bestCSize == verifiedVcSize;
    }

    /** The three memsets of init_sol (fastvc.h:336-338). */
    method ClearFlags()
      requires Shape()
      modifies dscore, timeStamp, vInC
      ensures forall v :: 0 <= v <= vNum ==> dscore[v] == 0 && timeStamp[v] == 0 && !vInC[v]
    {
      forall v | 0 <= v < dscore.Length {
        dscore[v] := 0;
      }
      forall v | 0 <= v < timeStamp.Length {
        timeStamp[v] := 0;
      }
      forall v | 0 <= v < vInC.Length {
        vInC[v] := false;
      }
    }

    /** The greedy pass of init_sol (fastvc.h:340-355): every edge found
        uncovered gets its endpoint of higher degree. */
    method GreedyPass()
      requires Shape() && forall v :: 0 <= v <= vNum ==> !vInC[v]
      modifies vInC, this`cSize
      ensures vInC[..] == Greedy(g, eNum)
      ensures cSize == CoverSize(vInC[..], vNum)
      ensures IsCover(g.edges, vInC[..])
    {
      cSize := 0;
      assert vInC[..] == Greedy(g, 0);
      CoverSizeNone(vInC[..], vNum);
      var e := 0;
      while e < eNum
        invariant 0 <= e <= eNum
        invariant vInC[..] == Greedy(g, e)
        invariant cSize == CoverSize(vInC[..], vNum)
      {
        var v1, v2 := g.edges[e].v1, g.edges[e].v2;
        ghost var c := vInC[..];
        if !vInC[v1] && !vInC[v2] {
          if g.degree[v1] > g.degree[v2] {
            vInC[v1] := true;
            assert vInC[..] == c[v1 := true];
            CoverSizeFlip(c, v1, true, vNum);
          } else {
            vInC[v2] := true;
            assert vInC[..] == c[v2 := true];
            CoverSizeFlip(c, v2, true, vNum);
          }
          cSize := cSize + 1;
        }
        assert vInC[..] == Greedy(g, e + 1);
        e := e + 1;
      }
      GreedyCovers(g, eNum);
    }

    /** The stack reset and the bulk dscore pass of init_sol (fastvc.h:357-369):
        for a cover, each member loses one per edge only it covers. */
    method ScorePass()
      requires Shape() && IsCover(g.edges, vInC[..])
      requires forall v :: 0 <= v <= vNum ==> dscore[v] == 0
      modifies dscore, this`uncovStackFillPointer
      ensures Consistent() && uncovStackFillPointer == 0
    {
      uncovStackFillPointer := 0;
      ghost var c := vInC[..];
      var e := 0;
      while e < eNum
        invariant 0 <= e <= eNum && uncovStackFillPointer == 0
        invariant forall w :: 0 <= w <= vNum ==>
                    dscore[w] == if InC(c, w) then -(Boundary(g.edges, c, w, e) as int) else 0
      {
        var v1, v2 := g.edges[e].v1, g.edges[e].v2;
        if vInC[v1] && !vInC[v2] {
          dscore[v1] := dscore[v1] - 1;
        } else if vInC[v2] && !vInC[v1] {
          dscore[v2] := dscore[v2] - 1;
        }
        e := e + 1;
      }
      forall w | 0 <= w <= vNum && !InC(c, w)
        ensures Boundary(g.edges, c, w, eNum) == 0
      {
        BoundaryOutsideCover(g.edges, c, w, eNum);
      }
      assert dscore[..] == Scores(g.edges, c, vNum);
      assert UncovStack() == [];
    }

    /** The redundancy pass of init_sol (fastvc.h:371-378): a cover vertex
        whose dscore is 0 at its turn is removed. */
    method PrunePass()
      requires Consistent() && uncovStackFillPointer == 0 && cSize == CoverSize(vInC[..], vNum)
      modifies vInC, dscore, uncovStack, indexInUncovStack, this`uncovStackFillPointer, this`cSize
      ensures Consistent() && uncovStackFillPointer == 0
      ensures vInC[..] == Prune(g.edges, old(vInC[..]), vNum)
      ensures cSize == CoverSize(vInC[..], vNum)
    {
      ghost var c0 := vInC[..];
      var v := 1;
      while v <= vNum
        invariant 1 <= v <= vNum + 1
        invariant Consistent() && uncovStackFillPointer == 0
        invariant vInC[..] == Prune(g.edges, c0, v - 1)
        invariant cSize == CoverSize(vInC[..], vNum)
      {
        ghost var p := vInC[..];
        assert dscore[v] == Score(g.edges, p, v);
        if vInC[v] && dscore[v] == 0 {
          Remove(v);
          CoverSizeFlip(p, v, false, vNum);
          cSize := cSize - 1;
        }
        v := v + 1;
      }
    }

    /** init_sol (fastvc.h:330-385): a greedy cover, its scores, the
        redundancy pass, the first best cover and the pool. */
    method InitSol()
      requires Shape()
      modifies this`cSize, this`uncovStackFillPointer, this`removeCandSize, this`bestCSize, this`bestStep
      modifies vInC, dscore, timeStamp, uncovStack, indexInUncovStack, removeCand, indexInRemoveCand, bestVInC
      ensures Valid() && BestOk() && uncovStackFillPointer == 0
      ensures vInC[..] == Prune(g.edges, Greedy(g, eNum), vNum)
      ensures removeCand[..removeCandSize] == Members(vInC[..], vNum)
      ensures bestCSize == cSize && bestStep == step
      ensures forall v :: 1 <= v <= vNum ==> bestVInC[v] == vInC[v]
      ensures forall v :: 0 <= v <= vNum ==> timeStamp[v] == 0
    {
      ClearFlags();
      GreedyPass();
      ScorePass();
      PrunePass();
      assert UncovStack() == [];
      UpdateBestSol();
      ResetRemoveCand();
    }

    /** One edge of add's walk: `e` joins the newly added vertex to `n`.
        A neighbour outside the cover loses one gain and `e` leaves the
        stack; a neighbour inside loses one loss. */
    method AddAcross(e: int, n: int)
      requires Shape() && StackSlots() && 0 <= e < eNum && 1 <= n <= vNum
      requires !vInC[n] ==> e in OnStack()
      modifies dscore, uncovStack, indexInUncovStack, this`uncovStackFillPointer
      ensures StackSlots()
      ensures dscore[..] == old(dscore[..][n := dscore[n] + (if vInC[n] then 1 else -1)])
      ensures OnStack() == if vInC[n] then old(OnStack()) else old(OnStack()) - {e}
      ensures uncovStackFillPointer == old(uncovStackFillPointer) - (if vInC[n] then 0 else 1)
      ensures UncovStack() == if vInC[n] then old(UncovStack()) else Take(old(UncovStack()), e)
      ensures vInC[..] == old(vInC[..])
    {
      if !vInC[n] {
        dscore[n] := dscore[n] - 1;
        assert Find(UncovStack(), e) == indexInUncovStack[e];
        Cover(e);
      } else {
        dscore[n] := dscore[n] + 1;
      }
    }

    /** One edge of remove's walk: `e` joins the removed vertex to `n`. A
        neighbour outside the cover gains one and `e` goes onto the stack;
        a neighbour inside gains one loss. */
    method RemoveAcross(e: int, n: int)
      requires Shape() && StackSlots() && 0 <= e < eNum && 1 <= n <= vNum
      requires !vInC[n] ==> e !in OnStack()
      modifies dscore, uncovStack, indexInUncovStack, this`uncovStackFillPointer
      ensures StackSlots()
      ensures dscore[..] == old(dscore[..][n := dscore[n] + (if vInC[n] then -1 else 1)])
      ensures OnStack() == if vInC[n] then old(OnStack()) else old(OnStack()) + {e}
      ensures uncovStackFillPointer == old(uncovStackFillPointer) + (if vInC[n] then 0 else 1)
      ensures UncovStack() == old(UncovStack()) + (if vInC[n] then [] else [e])
    {
      if !vInC[n] {
        dscore[n] := dscore[n] + 1;
        Uncover(e);
      } else {
        dscore[n] := dscore[n] - 1;
      }
    }

    /** One iteration of add's edge walk (fastvc.h:396-407) over the `i`-th
        edge of `v`: a neighbour outside the cover loses one gain and the
        edge leaves the stack; a neighbour inside loses one loss. `d1`,
        `u0` and `fp0` are dscore, the stack and its size where the walk
        began. */
    method AddEdgeAt(v: int, i: int, ghost d1: seq<int>, ghost u0: set<int>, ghost fp0: int)
      requires Shape() && StackSlots() && 1 <= v <= vNum && vInC[v]
      requires 0 <= i < |g.vEdges[v]| == |g.vAdj[v]|
      requires u0 == UncovEdges(g.edges, vInC[..][v := false])
      requires dscore[..] == Adjust(d1, g.vAdj[v][..i], vInC[..], true)
      requires OnStack() == u0 - SetOf(g.vEdges[v][..i])
      requires uncovStackFillPointer == fp0 - CountOut(g.vAdj[v][..i], vInC[..])
      modifies dscore, uncovStack, indexInUncovStack, this`uncovStackFillPointer
      ensures StackSlots()
      ensures dscore[..] == Adjust(d1, g.vAdj[v][..i + 1], vInC[..], true)
      ensures OnStack() == u0 - SetOf(g.vEdges[v][..i + 1])
      ensures uncovStackFillPointer == fp0 - CountOut(g.vAdj[v][..i + 1], vInC[..])
      ensures UncovStack() == if InC(vInC[..], g.vAdj[v][i]) then old(UncovStack()) else Take(old(UncovStack()), g.vEdges[v][i])
    {
      ghost var c1 := vInC[..];
      var e := g.vEdges[v][i];
      var n := g.vAdj[v][i];
      AddStepUncov(g, c1, v, i, u0);
      ghost var p := dscore[..];
      ghost var r := dscore[..][n := dscore[n] + (if vInC[n] then 1 else -1)];
      AdjustStep(d1, g.vAdj[v], i, c1, true, p);
      CountOutSnoc(g.vAdj[v], i, c1);
      assert InC(c1, n) == vInC[n];
      assert Adjust(d1, g.vAdj[v][..i + 1], c1, true) == r;
      AddAcross(e, n);
      assert dscore[..] == r;
    }

    /** One iteration of remove's edge walk (fastvc.h:420-431) over the
        `i`-th edge of `v`: a neighbour outside the cover gains one and the
        edge goes onto the stack; a neighbour inside gains one loss. `d1`,
        `u0` and `fp0` are dscore, the stack and its size where the walk
        began. */
    method RemoveEdgeAt(v: int, i: int, ghost d1: seq<int>, ghost u0: set<int>, ghost u1: set<int>, ghost fp0: int)
      requires Shape() && StackSlots() && 1 <= v <= vNum && !vInC[v]
      requires 0 <= i < |g.vEdges[v]| == |g.vAdj[v]|
      requires u0 == UncovEdges(g.edges, vInC[..][v := true]) && u1 == UncovEdges(g.edges, vInC[..])
      requires dscore[..] == Adjust(d1, g.vAdj[v][..i], vInC[..], false)
      requires OnStack() == u0 + (SetOf(g.vEdges[v][..i]) * u1)
      requires uncovStackFillPointer == fp0 + CountOut(g.vAdj[v][..i], vInC[..])
      modifies dscore, uncovStack, indexInUncovStack, this`uncovStackFillPointer
      ensures StackSlots()
      ensures dscore[..] == Adjust(d1, g.vAdj[v][..i + 1], vInC[..], false)
      ensures OnStack() == u0 + (SetOf(g.vEdges[v][..i + 1]) * u1)
      ensures uncovStackFillPointer == fp0 + CountOut(g.vAdj[v][..i + 1], vInC[..])
      ensures UncovStack() == old(UncovStack()) + (if InC(vInC[..], g.vAdj[v][i]) then [] else [g.vEdges[v][i]])
    {
      ghost var c1 := vInC[..];
      var e := g.vEdges[v][i];
      var n := g.vAdj[v][i];
      RemoveStepUncov(g, c1, v, i, u0);
      ghost var p := dscore[..];
      ghost var r := dscore[..][n := dscore[n] + (if vInC[n] then -1 else 1)];
      AdjustStep(d1, g.vAdj[v], i, c1, false, p);
      CountOutSnoc(g.vAdj[v], i, c1);
      assert InC(c1, n) == vInC[n];
      assert Adjust(d1, g.vAdj[v][..i + 1], c1, false) == r;
      RemoveAcross(e, n);
    }

    /** The edge walk of add (fastvc.h:393-408), entered with `v` already
        flagged: each neighbour's dscore moves by one step of the walk, and
        an edge whose other endpoint is outside the cover leaves the stack. */
    method AddWalk(v: int)
      requires Shape() && StackSlots() && 1 <= v <= vNum && vInC[v]
      requires OnStack() == UncovEdges(g.edges, vInC[..][v := false])
      modifies dscore, uncovStack, indexInUncovStack, this`uncovStackFillPointer
      ensures StackSlots()
      ensures dscore[..] == Adjust(old(dscore[..]), g.vAdj[v], vInC[..], true)
      ensures OnStack() == old(OnStack()) - SetOf(g.vEdges[v])
      ensures uncovStackFillPointer == old(uncovStackFillPointer) - CountOut(g.vAdj[v], vInC[..])
      ensures |g.vEdges[v]| == |g.vAdj[v]|
      ensures UncovStack() == Popped(old(UncovStack()), g.vEdges[v], g.vAdj[v], vInC[..])
    {
      ghost var c1, d1, fp0, u0, s0 := vInC[..], dscore[..], uncovStackFillPointer, OnStack(), UncovStack();
      ghost var c0 := c1[v := false];
      ghost var row, nbrs := g.vEdges[v], g.vAdj[v];
      Rows(g, v);
      NeighboursInRange(vNum, g.edges, v, eNum);
      var edgeCount := g.degree[v];
      var i := 0;
      while i < edgeCount
        invariant 0 <= i <= edgeCount
        invariant StackSlots()
        invariant dscore[..] == Adjust(d1, nbrs[..i], c1, true)
        invariant OnStack() == u0 - SetOf(row[..i])
        invariant uncovStackFillPointer == fp0 - CountOut(nbrs[..i], c1)
        invariant UncovStack() == Popped(s0, row[..i], nbrs[..i], c1)
      {
        ghost var st := UncovStack();
        AddEdgeAt(v, i, d1, u0, fp0);
        PoppedSnoc(s0, st, UncovStack(), row, nbrs, i, c1);
        i := i + 1;
      }
      assert nbrs[..i] == nbrs && row[..i] == row;
    }

    /** add (fastvc.h:387-409): put `v` into the cover, negate its dscore,
        and walk its edges: a neighbour outside the cover loses one gain and
        the edge leaves the stack; a neighbour inside loses one loss. */
    method Add(v: int)
      requires Consistent() && 1 <= v <= vNum && !vInC[v]
      modifies vInC, dscore, uncovStack, indexInUncovStack, this`uncovStackFillPointer
      ensures Consistent()
      ensures vInC[..] == old(vInC[..])[v := true] && dscore[v] == -old(dscore[v])
      ensures uncovStackFillPointer == old(uncovStackFillPointer) - old(dscore[v])
      ensures OnStack() == old(OnStack()) - SetOf(g.vEdges[v])
      ensures |g.vEdges[v]| == |g.vAdj[v]|
      ensures UncovStack() == Popped(old(UncovStack()), g.vEdges[v], g.vAdj[v], vInC[..])
    {
      ghost var c0 := vInC[..];
      vInC[v] := true;
      dscore[v] := -dscore[v];
      assert vInC[..][v := false] == c0;
      AddWalk(v);
      Flip(g, c0, v, true);
    }

    /** The edge walk of remove (fastvc.h:418-432), entered with `v` already
        unflagged: each neighbour's dscore moves by one step of the walk, and
        an edge whose other endpoint is outside the cover goes onto the
        stack. */
    method RemoveWalk(v: int)
      requires Shape() && StackSlots() && 1 <= v <= vNum && !vInC[v]
      requires OnStack() == UncovEdges(g.edges, vInC[..][v := true])
      modifies dscore, uncovStack, indexInUncovStack, this`uncovStackFillPointer
      ensures StackSlots()
      ensures dscore[..] == Adjust(old(dscore[..]), g.vAdj[v], vInC[..], false)
      ensures OnStack() == old(OnStack()) + (SetOf(g.vEdges[v]) * UncovEdges(g.edges, vInC[..]))
      ensures uncovStackFillPointer == old(uncovStackFillPointer) + CountOut(g.vAdj[v], vInC[..])
      ensures |g.vEdges[v]| == |g.vAdj[v]|
      ensures UncovStack() == old(UncovStack()) + Pushed(g.vEdges[v], g.vAdj[v], vInC[..])
    {
      ghost var c1, d1, fp0, u0, s0 := vInC[..], dscore[..], uncovStackFillPointer, OnStack(), UncovStack();
      ghost var c0 := c1[v := true];
      assert c0[v := false] == c1;
      ghost var row, nbrs, u1 := g.vEdges[v], g.vAdj[v], UncovEdges(g.edges, c1);
      Rows(g, v);
      NeighboursInRange(vNum, g.edges, v, eNum);
      var edgeCount := g.degree[v];
      var i := 0;
      while i < edgeCount
        invariant 0 <= i <= edgeCount
        invariant StackSlots()
        invariant dscore[..] == Adjust(d1, nbrs[..i], c1, false)
        invariant OnStack() == u0 + (SetOf(row[..i]) * u1)
        invariant uncovStackFillPointer == fp0 + CountOut(nbrs[..i], c1)
        invariant UncovStack() == s0 + Pushed(row[..i], nbrs[..i], c1)
      {
        ghost var st := UncovStack();
        RemoveEdgeAt(v, i, d1, u0, u1, fp0);
        PushedSnoc(s0, st, UncovStack(), row, nbrs, i, c1);
        i := i + 1;
      }
      assert nbrs[..i] == nbrs && row[..i] == row;
    }

    /** remove (fastvc.h:411-433): take `v` out of the cover, negate its
        dscore, and walk its edges: a neighbour outside the cover gains one
        and the edge goes onto the stack; a neighbour inside gains one loss. */
    method Remove(v: int)
      requires Consistent() && 1 <= v <= vNum && vInC[v]
      modifies vInC, dscore, uncovStack, indexInUncovStack, this`uncovStackFillPointer
      ensures Consistent()
      ensures vInC[..] == old(vInC[..])[v := false] && dscore[v] == -old(dscore[v])
      ensures uncovStackFillPointer == old(uncovStackFillPointer) - old(dscore[v])
      ensures OnStack() == old(OnStack()) + (SetOf(g.vEdges[v]) * UncovEdges(g.edges, vInC[..]))
      ensures |g.vEdges[v]| == |g.vAdj[v]|
      ensures UncovStack() == old(UncovStack()) + Pushed(g.vEdges[v], g.vAdj[v], vInC[..])
    {
      ghost var c0 := vInC[..];
      vInC[v] := false;
      dscore[v] := -dscore[v];
      assert vInC[..][v := true] == c0;
      RemoveWalk(v);
      Flip(g, c0, v, false);
    }

    /** add followed by remove of the same vertex restores the cover, every
        dscore and the set of uncovered edges; only the slot order of the
        stack may differ. */
    method AddRemove(v: int)
      requires Consistent() && 1 <= v <= vNum && !vInC[v]
      modifies vInC, dscore, uncovStack, indexInUncovStack, this`uncovStackFillPointer
      ensures Consistent()
      ensures vInC[..] == old(vInC[..]) && dscore[..] == old(dscore[..])
      ensures OnStack() == old(OnStack()) && uncovStackFillPointer == old(uncovStackFillPointer)
    {
      ghost var c0 := vInC[..];
      Add(v);
      Remove(v);
      assert vInC[..] == c0;
    }
  }
}
