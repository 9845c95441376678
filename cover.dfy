/** Membership-level reference definitions: what the solver's incremental
    arrays must agree with. A candidate cover is a sequence of flags indexed
    by vertex. */
module Cover {
  import opened Graph

  /** `x` is a vertex index of `c` whose flag is set. */
  predicate InC(c: seq<bool>, x: int) {
    0 <= x < |c| && c[x]
  }

  /** Edge `e` has neither endpoint in the cover. */
  predicate Uncovered(edges: seq<Edge>, c: seq<bool>, e: int)
    requires 0 <= e < |edges|
  {
    !InC(c, edges[e].v1) && !InC(c, edges[e].v2)
  }

  predicate IsCover(edges: seq<Edge>, c: seq<bool>) {
    forall e :: 0 <= e < |edges| ==> !Uncovered(edges, c, e)
  }

  /** Edges among the first `n` at `v` whose other endpoint is outside the
      cover: for `v` outside the cover these are its uncovered edges, for
      `v` inside they are the edges only `v` covers. */
  function Boundary(edges: seq<Edge>, c: seq<bool>, v: int, n: nat): nat
    requires n <= |edges|
  {
    if n == 0 then 0
    else Boundary(edges, c, v, n - 1)
         + (if IsEndpoint(edges[n - 1], v) && !InC(c, Other(edges[n - 1], v)) then 1 else 0)
  }

  /** The dscore a vertex must have: the gain of adding it (outside the
      cover), minus the loss of removing it (inside). */
  function Score(edges: seq<Edge>, c: seq<bool>, v: int): int {
    var b: int := Boundary(edges, c, v, |edges|);
    if InC(c, v) then -b else b
  }

  /** Number of vertices 1..n in the cover. */
  function CoverSize(c: seq<bool>, n: nat): (k: nat)
    ensures k <= n
  {
    if n == 0 then 0 else CoverSize(c, n - 1) + (if InC(c, n) then 1 else 0)
  }

  /** Number of entries of `s` outside the cover. */
  function CountOut(s: seq<int>, c: seq<bool>): nat {
    if s == [] then 0 else CountOut(s[..|s| - 1], c) + (if InC(c, s[|s| - 1]) then 0 else 1)
  }

  lemma CountOutSnoc(s: seq<int>, i: nat, c: seq<bool>)
    requires i < |s|
    ensures CountOut(s[..i + 1], c) == CountOut(s[..i], c) + (if InC(c, s[i]) then 0 else 1)
  {
    assert s[..i + 1][..i] == s[..i];
  }

  /** The edges remove pushes onto the stack, in push order: each entry of
      the edge row whose neighbour, in the same slot of the neighbour row,
      is outside the cover. There are as many as neighbours outside. */
  function Pushed(row: seq<int>, nbrs: seq<int>, c: seq<bool>): (p: seq<int>)
    requires |row| == |nbrs|
    ensures |p| == CountOut(nbrs, c)
  {
    if row == [] then []
    else Pushed(row[..|row| - 1], nbrs[..|nbrs| - 1], c)
         + (if InC(c, nbrs[|nbrs| - 1]) then [] else [row[|row| - 1]])
  }

  /** One more slot of remove's walk: a stack holding `s0` and the pushes
      of the first `i` slots, extended by the push of slot `i`, holds `s0`
      and the pushes of the first `i + 1` slots. */
  lemma PushedSnoc(s0: seq<int>, st: seq<int>, st': seq<int>, row: seq<int>, nbrs: seq<int>, i: nat, c: seq<bool>)
    requires |row| == |nbrs| && i < |row|
    requires st == s0 + Pushed(row[..i], nbrs[..i], c)
    requires st' == st + (if InC(c, nbrs[i]) then [] else [row[i]])
    ensures st' == s0 + Pushed(row[..i + 1], nbrs[..i + 1], c)
  {
    assert row[..i + 1][..i] == row[..i];
    assert nbrs[..i + 1][..i] == nbrs[..i];
  }

  /** The first slot of `s` that holds `x`. */
  function Find(s: seq<int>, x: int): (k: int)
    requires x in s
    ensures 0 <= k < |s| && s[k] == x && x !in s[..k]
  {
    if s[0] == x then 0
    else
      var k := 1 + Find(s[1..], x);
      assert s[..k] == [s[0]] + s[1..][..k - 1];
      k
  }

  /** cover(e) on the stack contents: the slot of `x` receives the top
      entry and the top slot is dropped. */
  function Take(s: seq<int>, x: int): (t: seq<int>)
    ensures x in s ==> |t| == |s| - 1
    ensures x !in s ==> t == s
  {
    if x in s then SwapPop(s, Find(s, x)) else s
  }

  /** On a stack without repeats, Take removes exactly `x` and keeps every
      other entry once. */
  lemma TakeRemoves(s: seq<int>, x: int)
    requires x in s && forall i, j :: 0 <= i < j < |s| ==> s[i] != s[j]
    ensures |Take(s, x)| == |s| - 1
    ensures SetOf(Take(s, x)) == SetOf(s) - {x}
    ensures forall i, j :: 0 <= i < j < |Take(s, x)| ==> Take(s, x)[i] != Take(s, x)[j]
  {
    var k, t := Find(s, x), Take(s, x);
    forall y | y in SetOf(s) - {x} ensures y in t {
      var j :| 0 <= j < |s| && s[j] == y;
      if j == |s| - 1 { assert t[k] == y; } else { assert t[j] == y; }
    }
  }

  /** The stack after add's walk: each entry of the edge row whose
      neighbour, in the same slot of the neighbour row, is outside the
      cover is taken off the stack `st`, in row order. */
  function Popped(st: seq<int>, row: seq<int>, nbrs: seq<int>, c: seq<bool>): (p: seq<int>)
    requires |row| == |nbrs|
    ensures |st| - CountOut(nbrs, c) <= |p| <= |st|
  {
    if row == [] then st
    else
      var p := Popped(st, row[..|row| - 1], nbrs[..|nbrs| - 1], c);
      if InC(c, nbrs[|nbrs| - 1]) then p else Take(p, row[|row| - 1])
  }

  /** One more slot of add's walk, in the form of PushedSnoc. */
  lemma PoppedSnoc(s0: seq<int>, st: seq<int>, st': seq<int>, row: seq<int>, nbrs: seq<int>, i: nat, c: seq<bool>)
    requires |row| == |nbrs| && i < |row|
    requires st == Popped(s0, row[..i], nbrs[..i], c)
    requires st' == if InC(c, nbrs[i]) then st else Take(st, row[i])
    ensures st' == Popped(s0, row[..i + 1], nbrs[..i + 1], c)
  {
    assert row[..i + 1][..i] == row[..i];
    assert nbrs[..i + 1][..i] == nbrs[..i];
  }

  /** Counting the neighbour row outside the cover gives the boundary. */
  lemma {:induction false} CountOutNeighbours(edges: seq<Edge>, c: seq<bool>, v: int, n: nat)
    requires n <= |edges|
    ensures CountOut(Neighbours(edges, v, n), c) == Boundary(edges, c, v, n)
  {
    if n > 0 {
      CountOutNeighbours(edges, c, v, n - 1);
      var s := Neighbours(edges, v, n);
      if IsEndpoint(edges[n - 1], v) {
        assert s == Neighbours(edges, v, n - 1) + [Other(edges[n - 1], v)];
        assert s[..|s| - 1] == Neighbours(edges, v, n - 1);
      } else {
        assert s == Neighbours(edges, v, n - 1);
      }
    }
  }

  /** Changing the flag of `u` changes the boundary of `w` by exactly the
      number of edges joining `w` to `u`. */
  lemma {:induction false} FlipBoundary(edges: seq<Edge>, c: seq<bool>, u: int, b: bool, w: int, n: nat)
    requires 0 <= u < |c| && c[u] != b && n <= |edges|
    ensures b ==> Boundary(edges, c[u := b], w, n) + Joining(edges, w, u, n) == Boundary(edges, c, w, n)
    ensures !b ==> Boundary(edges, c[u := b], w, n) == Boundary(edges, c, w, n) + Joining(edges, w, u, n)
  {
    if n > 0 {
      FlipBoundary(edges, c, u, b, w, n - 1);
    }
  }

  /** Flipping the flag of `v` negates its own score and moves the score
      of every other vertex `w` by the number of edges joining it to `v`:
      up when `w` now agrees with `v`'s new flag, down otherwise. */
  lemma FlipScore(g: Graph, c: seq<bool>, v: int, b: bool, w: int)
    requires WellFormed(g) && |c| == g.vNum + 1 && 1 <= v <= g.vNum && c[v] != b
    ensures w == v ==> Score(g.edges, c[v := b], w) == -Score(g.edges, c, w)
    ensures w != v ==>
              var j: int := Joining(g.edges, w, v, |g.edges|);
              Score(g.edges, c[v := b], w) == Score(g.edges, c, w) + (if InC(c, w) == b then j else -j)
  {
    FlipBoundary(g.edges, c, v, b, w, |g.edges|);
    NoSelfJoin(g.vNum, g.edges, v, |g.edges|);
  }

  /** Reference value of the whole dscore array: the score of every vertex
      0..n. */
  function Scores(edges: seq<Edge>, c: seq<bool>, n: nat): (r: seq<int>)
    ensures |r| == n + 1 && forall w :: 0 <= w <= n ==> r[w] == Score(edges, c, w)
  {
    seq(n + 1, w => Score(edges, c, w))
  }

  /** Reference value of the set the uncovered-edge stack holds. */
  function UncovEdges(edges: seq<Edge>, c: seq<bool>): (u: set<int>)
    ensures forall e :: e in u <==> 0 <= e < |edges| && Uncovered(edges, c, e)
  {
    set e | 0 <= e < |edges| && Uncovered(edges, c, e)
  }

  /** The neighbour walk of add and remove over the row `s`: each listed
      vertex gains one when its flag equals `b` and loses one otherwise. */
  function Adjust(d: seq<int>, s: seq<int>, c: seq<bool>, b: bool): (r: seq<int>)
    ensures |r| == |d|
  {
    if s == [] then d
    else
      var p := Adjust(d, s[..|s| - 1], c, b);
      var n := s[|s| - 1];
      if 0 <= n < |p| then p[n := p[n] + (if InC(c, n) == b then 1 else -1)] else p
  }

  /** After the walk, each entry has moved by its number of occurrences in
      the row, in the direction its flag dictates. */
  lemma {:induction false} AdjustAt(d: seq<int>, s: seq<int>, c: seq<bool>, b: bool, w: int)
    requires 0 <= w < |d|
    ensures var o: int := Occ(s, w);
            Adjust(d, s, c, b)[w] == d[w] + (if InC(c, w) == b then o else -o)
  {
    if s != [] {
      AdjustAt(d, s[..|s| - 1], c, b, w);
    }
  }

  /** One more step of the walk changes only the entry it names. */
  lemma AdjustStep(d: seq<int>, s: seq<int>, i: nat, c: seq<bool>, b: bool, p: seq<int>)
    requires i < |s| && p == Adjust(d, s[..i], c, b) && 0 <= s[i] < |p|
    ensures Adjust(d, s[..i + 1], c, b) == p[s[i] := p[s[i]] + (if InC(c, s[i]) == b then 1 else -1)]
  {
    assert s[..i + 1][..i] == s[..i];
  }

  /** The dscore invariant survives add (b) and remove (!b): negating the
      entry of `v` and walking its neighbour row turns the scores of `c`
      into the scores of `c` with `v` flipped. */
  lemma FlipScores(g: Graph, c: seq<bool>, v: int, b: bool)
    requires WellFormed(g) && |c| == g.vNum + 1 && 1 <= v <= g.vNum && c[v] != b
    ensures var d := Scores(g.edges, c, g.vNum);
            Adjust(d[v := -d[v]], g.vAdj[v], c[v := b], b) == Scores(g.edges, c[v := b], g.vNum)
  {
    Rows(g, v);
    var d := Scores(g.edges, c, g.vNum);
    var c' := c[v := b];
    var r := Adjust(d[v := -d[v]], g.vAdj[v], c', b);
    forall w | 0 <= w <= g.vNum
      ensures r[w] == Score(g.edges, c', w)
    {
      AdjustAt(d[v := -d[v]], g.vAdj[v], c', b, w);
      OccNeighbours(g.edges, v, w, |g.edges|);
      JoiningSymmetric(g.edges, v, w, |g.edges|);
      NoSelfJoin(g.vNum, g.edges, v, |g.edges|);
      FlipScore(g, c, v, b, w);
    }
  }

  /** Adding `v` covers exactly its incident edges; removing it uncovers
      exactly those incident edges whose other endpoint is outside. */
  lemma FlipUncov(g: Graph, c: seq<bool>, v: int, b: bool)
    requires WellFormed(g) && |c| == g.vNum + 1 && 1 <= v <= g.vNum && c[v] != b
    ensures b ==> UncovEdges(g.edges, c[v := b]) == UncovEdges(g.edges, c) - SetOf(g.vEdges[v])
    ensures !b ==> UncovEdges(g.edges, c[v := b])
                   == UncovEdges(g.edges, c) + (SetOf(g.vEdges[v]) * UncovEdges(g.edges, c[v := b]))
  {
    Rows(g, v);
    IncidentSet(g.edges, v);
  }

  /** Everything add (b) and remove (!b) rely on: negating the entry of
      `v` and walking its neighbour row turns the scores of `c` into those
      of `c` with `v` flipped; the row has as many neighbours outside the
      cover as `v` had gain (add) or loss (remove); and the uncovered set
      changes as FlipUncov says. */
  lemma Flip(g: Graph, c: seq<bool>, v: int, b: bool)
    requires WellFormed(g) && |c| == g.vNum + 1 && 1 <= v <= g.vNum && c[v] != b
    ensures var d, c' := Scores(g.edges, c, g.vNum), c[v := b];
            && Adjust(d[v := -d[v]], g.vAdj[v], c', b) == Scores(g.edges, c', g.vNum)
            && Scores(g.edges, c', g.vNum)[v] == -d[v]
            && CountOut(g.vAdj[v], c') == (if b then d[v] else -d[v])
    ensures b ==> UncovEdges(g.edges, c[v := b]) == UncovEdges(g.edges, c) - SetOf(g.vEdges[v])
    ensures !b ==> UncovEdges(g.edges, c[v := b])
                   == UncovEdges(g.edges, c) + (SetOf(g.vEdges[v]) * UncovEdges(g.edges, c[v := b]))
  {
    Rows(g, v);
    CountOutNeighbours(g.edges, c[v := b], v, |g.edges|);
    FlipScore(g, c, v, b, v);
    FlipScores(g, c, v, b);
    FlipUncov(g, c, v, b);
  }

  /** One step of add's edge walk on the uncovered set, with `v` already
      in `c` and `u0` the set before it joined: the `i`-th edge of `v`
      leaves the set exactly when its other endpoint is outside. */
  lemma AddStepUncov(g: Graph, c: seq<bool>, v: int, i: nat, u0: set<int>)
    requires WellFormed(g) && |c| == g.vNum + 1 && 1 <= v <= g.vNum && c[v]
    requires i < |g.vEdges[v]| && i < |g.vAdj[v]|
    requires u0 == UncovEdges(g.edges, c[v := false])
    ensures var row, n := g.vEdges[v], g.vAdj[v][i];
            var u := u0 - SetOf(row[..i]);
            && 0 <= row[i] < |g.edges| && 1 <= n <= g.vNum && n != v
            && (!InC(c, n) ==> row[i] in u)
            && u0 - SetOf(row[..i + 1]) == if InC(c, n) then u else u - {row[i]}
  {
    Rows(g, v);
    RowsAt(g.edges, v, |g.edges|, i);
    RowFresh(g.edges, v, |g.edges|, i);
    SetOfSnoc(g.vEdges[v], i);
    var n := g.vAdj[v][i];
    assert InC(c, n) == InC(c[v := false], n);
  }

  /** One step of remove's edge walk on the uncovered set, with `v`
      already out of `c` and `u0` the set before it left: the `i`-th edge
      of `v` joins the set exactly when its other endpoint is outside. */
  lemma RemoveStepUncov(g: Graph, c: seq<bool>, v: int, i: nat, u0: set<int>)
    requires WellFormed(g) && |c| == g.vNum + 1 && 1 <= v <= g.vNum && !c[v]
    requires i < |g.vEdges[v]| && i < |g.vAdj[v]|
    requires u0 == UncovEdges(g.edges, c[v := true])
    ensures var row, n := g.vEdges[v], g.vAdj[v][i];
            var u := u0 + (SetOf(row[..i]) * UncovEdges(g.edges, c));
            && 0 <= row[i] < |g.edges| && 1 <= n <= g.vNum && n != v
            && (!InC(c, n) ==> row[i] !in u)
            && u0 + (SetOf(row[..i + 1]) * UncovEdges(g.edges, c)) == if InC(c, n) then u else u + {row[i]}
  {
    Rows(g, v);
    RowsAt(g.edges, v, |g.edges|, i);
    RowFresh(g.edges, v, |g.edges|, i);
    SetOfSnoc(g.vEdges[v], i);
    IncidentSortedExact(g.edges, v, |g.edges|);
    var n := g.vAdj[v][i];
    assert InC(c, n) == InC(c[v := true], n);
  }

  /** Outside a cover a vertex has no uncovered edge, so its boundary is 0. */
  lemma {:induction false} BoundaryOutsideCover(edges: seq<Edge>, c: seq<bool>, v: int, n: nat)
    requires n <= |edges| && !InC(c, v)
    requires forall e :: 0 <= e < n ==> !Uncovered(edges, c, e)
    ensures Boundary(edges, c, v, n) == 0
  {
    if n > 0 {
      BoundaryOutsideCover(edges, c, v, n - 1);
      assert !Uncovered(edges, c, n - 1);
    }
  }

  /** Boundary 0 means every edge at `v` has its other endpoint covered. */
  lemma {:induction false} ZeroBoundary(edges: seq<Edge>, c: seq<bool>, v: int, n: nat)
    requires n <= |edges| && Boundary(edges, c, v, n) == 0
    ensures forall e :: 0 <= e < n && IsEndpoint(edges[e], v) ==> InC(c, Other(edges[e], v))
  {
    if n > 0 {
      ZeroBoundary(edges, c, v, n - 1);
    }
  }

  /** Changing one flag changes the cover size by one. */
  lemma {:induction false} CoverSizeFlip(c: seq<bool>, u: int, b: bool, n: nat)
    requires 1 <= u <= n && u < |c| && c[u] != b
    ensures b ==> CoverSize(c[u := b], n) == CoverSize(c, n) + 1
    ensures !b ==> CoverSize(c[u := b], n) + 1 == CoverSize(c, n)
  {
    if n > u {
      CoverSizeFlip(c, u, b, n - 1);
    } else {
      CoverSizeAgree(c, c[u := b], n - 1);
    }
  }

  /** No flag set, no member. */
  lemma {:induction false} CoverSizeNone(c: seq<bool>, n: nat)
    requires forall v :: 1 <= v <= n ==> !InC(c, v)
    ensures CoverSize(c, n) == 0
  {
    if n > 0 {
      CoverSizeNone(c, n - 1);
    }
  }

  /** The cover size depends only on the flags of 1..n. */
  lemma {:induction false} CoverSizeAgree(a: seq<bool>, b: seq<bool>, n: nat)
    requires forall v :: 1 <= v <= n ==> InC(a, v) == InC(b, v)
    ensures CoverSize(a, n) == CoverSize(b, n)
  {
    if n > 0 {
      CoverSizeAgree(a, b, n - 1);
    }
  }

  /** With no uncovered edge left the flags form a cover. */
  lemma NoUncoveredIsCover(edges: seq<Edge>, c: seq<bool>)
    requires UncovEdges(edges, c) == {}
    ensures IsCover(edges, c)
  { }

  /** A cover of a graph with at least one edge is not empty. */
  lemma {:induction false} CoverNotEmpty(vNum: nat, edges: seq<Edge>, c: seq<bool>)
    requires ValidEdges(vNum, edges) && |edges| > 0 && IsCover(edges, c)
    ensures CoverSize(c, vNum) > 0
  {
    assert !Uncovered(edges, c, 0);
    var u := if InC(c, edges[0].v1) then edges[0].v1 else edges[0].v2;
    CoverSizeMember(c, u, vNum);
  }

  lemma {:induction false} CoverSizeMember(c: seq<bool>, u: int, n: nat)
    requires 1 <= u <= n && InC(c, u)
    ensures CoverSize(c, n) > 0
  {
    if n > u {
      CoverSizeMember(c, u, n - 1);
    }
  }

  /** Whether `c` covers the edges depends only on the flags of 1..vNum. */
  lemma CoverAgree(vNum: nat, edges: seq<Edge>, a: seq<bool>, b: seq<bool>)
    requires ValidEdges(vNum, edges)
    requires forall v :: 1 <= v <= vNum ==> InC(a, v) == InC(b, v)
    ensures IsCover(edges, a) <==> IsCover(edges, b)
  {
    assert forall e :: 0 <= e < |edges| ==> (Uncovered(edges, a, e) <==> Uncovered(edges, b, e));
  }

  /** Reference definition of the pool rebuild: the vertices 1..n of the
      cover in ascending order. */
  function Members(c: seq<bool>, n: nat): (m: seq<int>)
    ensures |m| == CoverSize(c, n)
    ensures forall i :: 0 <= i < |m| ==> 1 <= m[i] <= n && InC(c, m[i])
  {
    if n == 0 then [] else Members(c, n - 1) + (if InC(c, n) then [n] else [])
  }

  /** The listing is strictly ascending and names every member of 1..n. */
  lemma {:induction false} MembersSortedExact(c: seq<bool>, n: nat)
    ensures forall i, j :: 0 <= i < j < |Members(c, n)| ==> Members(c, n)[i] < Members(c, n)[j]
    ensures forall x :: 1 <= x <= n && InC(c, x) ==> x in Members(c, n)
  {
    if n > 0 {
      MembersSortedExact(c, n - 1);
    }
  }

  /** An inverse index of the listing finds every member. */
  lemma MembersIndexed(m: seq<int>, index: seq<int>, c: seq<bool>, n: nat)
    requires m == Members(c, n) && n < |index|
    requires forall i :: 0 <= i < |m| ==> index[m[i]] == i
    ensures forall u :: 1 <= u <= n && InC(c, u) ==> 0 <= index[u] < |m| && m[index[u]] == u
  {
    MembersSortedExact(c, n);
    forall u | 1 <= u <= n && InC(c, u)
      ensures 0 <= index[u] < |m| && m[index[u]] == u
    {
      var i :| 0 <= i < |m| && m[i] == u;
    }
  }

  // ---------------------------------------------------------------------
  // The initial solution

  /** Reference definition of the greedy pass over the first `n` edges: an
      edge with neither endpoint chosen yet gets the endpoint of higher
      degree, the second endpoint on a tie. */
  function Greedy(g: Graph, n: nat): (c: seq<bool>)
    requires ValidEdges(g.vNum, g.edges) && |g.degree| == g.vNum + 1 && n <= |g.edges|
    ensures |c| == g.vNum + 1
  {
    if n == 0 then seq(g.vNum + 1, _ => false)
    else
      var c := Greedy(g, n - 1);
      var e := g.edges[n - 1];
      if !c[e.v1] && !c[e.v2] then
        (if g.degree[e.v1] > g.degree[e.v2] then c[e.v1 := true] else c[e.v2 := true])
      else c
  }

  /** The greedy pass leaves no edge uncovered. */
  lemma {:induction false} GreedyCovers(g: Graph, n: nat)
    requires ValidEdges(g.vNum, g.edges) && |g.degree| == g.vNum + 1 && n <= |g.edges|
    ensures forall e :: 0 <= e < n ==> !Uncovered(g.edges, Greedy(g, n), e)
  {
    if n > 0 {
      GreedyCovers(g, n - 1);
      var p, c := Greedy(g, n - 1), Greedy(g, n);
      assert forall x :: InC(p, x) ==> InC(c, x);
      forall e | 0 <= e < n
        ensures !Uncovered(g.edges, c, e)
      {
        if e < n - 1 {
          assert !Uncovered(g.edges, p, e);
        }
      }
    }
  }

  /** Reference definition of the redundancy pass over vertices 1..v: a
      vertex of the cover whose dscore (recomputed on the current flags) is 0
      is dropped. */
  function Prune(edges: seq<Edge>, c: seq<bool>, v: nat): (r: seq<bool>)
    requires v < |c|
    ensures |r| == |c|
  {
    if v == 0 then c
    else
      var p := Prune(edges, c, v - 1);
      if p[v] && Score(edges, p, v) == 0 then p[v := false] else p
  }

  /** The pass only drops vertices. */
  lemma {:induction false} PruneSubset(edges: seq<Edge>, c: seq<bool>, v: nat)
    requires v < |c|
    ensures forall x :: InC(Prune(edges, c, v), x) ==> InC(c, x)
  {
    if v > 0 {
      PruneSubset(edges, c, v - 1);
    }
  }

  /** Dropping a vertex whose every edge is covered from the other side
      keeps a cover a cover. */
  lemma {:induction false} PruneKeepsCover(edges: seq<Edge>, c: seq<bool>, v: nat)
    requires v < |c| && ValidEdges(|c| - 1, edges) && IsCover(edges, c)
    ensures IsCover(edges, Prune(edges, c, v))
  {
    if v > 0 {
      PruneKeepsCover(edges, c, v - 1);
      var p := Prune(edges, c, v - 1);
      if p[v] && Score(edges, p, v) == 0 {
        ZeroBoundary(edges, p, v, |edges|);
        var r := p[v := false];
        forall e | 0 <= e < |edges|
          ensures !Uncovered(edges, r, e)
        {
          assert !Uncovered(edges, p, e);
        }
      }
    }
  }

  /** After the pass over 1..v, every one of those vertices still in the
      cover is the only cover of some edge (its dscore is negative). */
  lemma {:induction false} PruneMinimal(edges: seq<Edge>, c: seq<bool>, v: nat)
    requires v < |c|
    ensures forall u :: 1 <= u <= v && InC(Prune(edges, c, v), u) ==>
              Boundary(edges, Prune(edges, c, v), u, |edges|) > 0
  {
    if v > 0 {
      PruneMinimal(edges, c, v - 1);
      var p := Prune(edges, c, v - 1);
      if p[v] && Score(edges, p, v) == 0 {
        var r := p[v := false];
        forall u | 1 <= u < v && InC(r, u)
          ensures Boundary(edges, r, u, |edges|) > 0
        {
          FlipBoundary(edges, p, v, false, u, |edges|);
        }
      }
    }
  }

  // ---------------------------------------------------------------------
  // The eviction scan of update_target_size

  /** The first slot at or after `i` whose score is 0 (or |s| if none). */
  function PrefixEnd(s: seq<int>, i: nat): (z: nat)
    requires 1 <= i <= |s|
    ensures i <= z <= |s|
    ensures forall j :: i <= j < z ==> s[j] != 0
    ensures z < |s| ==> s[z] == 0
    decreases |s| - i
  {
    if i == |s| || s[i] == 0 then i else PrefixEnd(s, i + 1)
  }

  /** Slot `k` is the one the eviction scan picks from the pool scores `s`:
      slot 0 when its score is 0, otherwise the first maximum among the
      slots before the first later score 0. */
  ghost predicate IsEvictionSlot(s: seq<int>, k: int)
    requires |s| > 0
  {
    && 0 <= k < |s|
    && if s[0] == 0 then k == 0
       else
         var z := PrefixEnd(s, 1);
         && k < z
         && (forall j :: 0 <= j < z ==> s[j] <= s[k])
         && (forall j :: 0 <= j < k ==> s[j] < s[k])
  }

  /** The pool scores determine the eviction slot: no two slots qualify. */
  lemma EvictionSlotUnique(s: seq<int>, k1: int, k2: int)
    requires |s| > 0 && IsEvictionSlot(s, k1) && IsEvictionSlot(s, k2)
    ensures k1 == k2
  {
  }

  /** The pool scores: the score of the vertex held by each slot. */
  function SlotScores(cand: seq<int>, ds: seq<int>): (s: seq<int>)
    ensures |s| == |cand|
    ensures forall j :: 0 <= j < |cand| ==> s[j] == if 0 <= cand[j] < |ds| then ds[cand[j]] else 0
  {
    seq(|cand|, j requires 0 <= j < |cand| => if 0 <= cand[j] < |ds| then ds[cand[j]] else 0)
  }
}
