/** The static instance: an edge array and the per-vertex adjacency built
    from it. Vertices are numbered 1..vNum (slot 0 of every per-vertex array
    is unused), edges 0..|edges|-1. */
module Graph {

  datatype Edge = Edge(v1: int, v2: int)

  predicate IsEndpoint(e: Edge, v: int) {
    e.v1 == v || e.v2 == v
  }

  /** The endpoint of `e` that is not `v` (for an endpoint `v`). */
  function Other(e: Edge, v: int): int {
    if e.v1 == v then e.v2 else e.v1
  }

  /** Every endpoint is a vertex 1..vNum and no edge is a self-loop. */
  predicate ValidEdges(vNum: int, edges: seq<Edge>) {
    forall i :: 0 <= i < |edges| ==>
      1 <= edges[i].v1 <= vNum && 1 <= edges[i].v2 <= vNum && edges[i].v1 != edges[i].v2
  }

  /** Reference definition: the ids of the edges among the first `n` that
      touch `v`, in input order. */
  function Incident(edges: seq<Edge>, v: int, n: nat): (r: seq<int>)
    requires n <= |edges|
    ensures |r| <= n
    ensures forall j :: 0 <= j < |r| ==> 0 <= r[j] < n
  {
    if n == 0 then []
    else Incident(edges, v, n - 1) + (if IsEndpoint(edges[n - 1], v) then [n - 1] else [])
  }

  /** Reference definition: the neighbour of `v` across each edge of
      `Incident(edges, v, n)`, position by position. */
  function Neighbours(edges: seq<Edge>, v: int, n: nat): (r: seq<int>)
    requires n <= |edges|
    ensures |r| <= n
  {
    if n == 0 then []
    else Neighbours(edges, v, n - 1) + (if IsEndpoint(edges[n - 1], v) then [Other(edges[n - 1], v)] else [])
  }

  /** The instance after construction: `degree`, `vEdges` and `vAdj` are the
      arrays v_degree, v_edges and v_adj, one row per vertex 0..vNum. */
  datatype Graph = Graph(vNum: nat, edges: seq<Edge>, degree: seq<int>,
                         vEdges: seq<seq<int>>, vAdj: seq<seq<int>>)

  /** The rows of vertex `v` are the reference definitions above. */
  predicate RowOk(g: Graph, v: int) {
    && 0 <= v < |g.degree| && 0 <= v < |g.vEdges| && 0 <= v < |g.vAdj|
    && g.vEdges[v] == Incident(g.edges, v, |g.edges|)
    && g.vAdj[v] == Neighbours(g.edges, v, |g.edges|)
    && g.degree[v] == |g.vEdges[v]|
  }

  /** The adjacency rows of every vertex are the reference definitions. */
  predicate WellFormed(g: Graph) {
    && ValidEdges(g.vNum, g.edges)
    && |g.degree| == g.vNum + 1
    && |g.vEdges| == g.vNum + 1
    && |g.vAdj| == g.vNum + 1
    && forall v :: 0 <= v <= g.vNum ==> RowOk(g, v)
  }

  /** The two rows of one vertex have the same length. */
  lemma {:induction false} RowLengths(edges: seq<Edge>, v: int, n: nat)
    requires n <= |edges|
    ensures |Neighbours(edges, v, n)| == |Incident(edges, v, n)|
  {
    if n > 0 {
      RowLengths(edges, v, n - 1);
    }
  }

  /** The k-th incident edge of `v` is an edge touching `v`, and the k-th
      neighbour is its other endpoint. */
  lemma {:induction false} RowsAt(edges: seq<Edge>, v: int, n: nat, k: nat)
    requires n <= |edges| && k < |Incident(edges, v, n)|
    ensures |Neighbours(edges, v, n)| == |Incident(edges, v, n)|
    ensures 0 <= Incident(edges, v, n)[k] < n
    ensures IsEndpoint(edges[Incident(edges, v, n)[k]], v)
    ensures Neighbours(edges, v, n)[k] == Other(edges[Incident(edges, v, n)[k]], v)
  {
    RowLengths(edges, v, n);
    var prev := Incident(edges, v, n - 1);
    RowLengths(edges, v, n - 1);
    if k < |prev| {
      RowsAt(edges, v, n - 1, k);
    }
  }

  /** Incident edges are listed in strictly increasing order, and an edge
      is listed exactly when `v` is one of its endpoints. */
  lemma {:induction false} IncidentSortedExact(edges: seq<Edge>, v: int, n: nat)
    requires n <= |edges|
    ensures forall e :: e in Incident(edges, v, n) <==> 0 <= e < n && IsEndpoint(edges[e], v)
    ensures forall i, j :: 0 <= i < j < |Incident(edges, v, n)| ==>
              Incident(edges, v, n)[i] < Incident(edges, v, n)[j]
  {
    if n > 0 {
      IncidentSortedExact(edges, v, n - 1);
      var prev := Incident(edges, v, n - 1);
      assert forall i :: 0 <= i < |prev| ==> prev[i] in prev;
    }
  }

  /** The number of edges listed for `v` only grows with the prefix. */
  lemma {:induction false} IncidentMonotone(edges: seq<Edge>, v: int, m: nat, n: nat)
    requires m <= n <= |edges|
    ensures |Incident(edges, v, m)| <= |Incident(edges, v, n)|
    ensures m < n && IsEndpoint(edges[m], v) ==> |Incident(edges, v, m)| < |Incident(edges, v, n)|
    decreases n - m
  {
    if m < n {
      IncidentMonotone(edges, v, m + 1, n);
    }
  }

  /** Number of edges among the first `n` that go from `v` to `w`. */
  function Joining(edges: seq<Edge>, v: int, w: int, n: nat): nat
    requires n <= |edges|
  {
    if n == 0 then 0
    else Joining(edges, v, w, n - 1)
         + (if IsEndpoint(edges[n - 1], v) && Other(edges[n - 1], v) == w then 1 else 0)
  }

  /** Number of occurrences of `w` in `s`. */
  function Occ(s: seq<int>, w: int): nat {
    if s == [] then 0 else Occ(s[..|s| - 1], w) + (if s[|s| - 1] == w then 1 else 0)
  }

  /** Joining is symmetric: an edge from v to w is an edge from w to v. */
  lemma {:induction false} JoiningSymmetric(edges: seq<Edge>, v: int, w: int, n: nat)
    requires n <= |edges|
    ensures Joining(edges, v, w, n) == Joining(edges, w, v, n)
  {
    if n > 0 {
      JoiningSymmetric(edges, v, w, n - 1);
    }
  }

  /** Without self-loops no edge joins a vertex to itself. */
  lemma {:induction false} NoSelfJoin(vNum: int, edges: seq<Edge>, v: int, n: nat)
    requires ValidEdges(vNum, edges) && n <= |edges|
    ensures Joining(edges, v, v, n) == 0
  {
    if n > 0 {
      NoSelfJoin(vNum, edges, v, n - 1);
    }
  }

  /** `w` occurs in the neighbour row of `v` once per edge joining them. */
  lemma {:induction false} OccNeighbours(edges: seq<Edge>, v: int, w: int, n: nat)
    requires n <= |edges|
    ensures Occ(Neighbours(edges, v, n), w) == Joining(edges, v, w, n)
  {
    if n > 0 {
      OccNeighbours(edges, v, w, n - 1);
      var s := Neighbours(edges, v, n);
      if IsEndpoint(edges[n - 1], v) {
        assert s == Neighbours(edges, v, n - 1) + [Other(edges[n - 1], v)];
        assert s[..|s| - 1] == Neighbours(edges, v, n - 1);
        assert s[|s| - 1] == Other(edges[n - 1], v);
      } else {
        assert s == Neighbours(edges, v, n - 1);
      }
    }
  }

  /** The set of values listed in `s`. */
  function SetOf(s: seq<int>): (r: set<int>)
    ensures forall x :: x in r <==> x in s
  {
    set x | x in s
  }

  /** `s` with slot `k` overwritten by the last entry and the last slot
      dropped: how both slot-tracked sets delete a member. */
  function SwapPop(s: seq<int>, k: int): (t: seq<int>)
    requires 0 <= k < |s|
    ensures |t| == |s| - 1
    ensures forall i :: 0 <= i < |t| ==> t[i] == if i == k then s[|s| - 1] else s[i]
  {
    if k == |s| - 1 then s[..k] else s[..|s| - 1][k := s[|s| - 1]]
  }

  /** Extending a prefix by one position adds its value to the set. */
  lemma SetOfSnoc(s: seq<int>, i: nat)
    requires i < |s|
    ensures SetOf(s[..i + 1]) == SetOf(s[..i]) + {s[i]}
  {
    assert s[..i + 1] == s[..i] + [s[i]];
  }

  /** An incident edge is not listed before its own position. */
  lemma RowFresh(edges: seq<Edge>, v: int, n: nat, k: nat)
    requires n <= |edges| && k < |Incident(edges, v, n)|
    ensures Incident(edges, v, n)[k] !in Incident(edges, v, n)[..k]
  {
    IncidentSortedExact(edges, v, n);
  }

  /** The set of incident edges is the set of edges touching `v`. */
  lemma IncidentSet(edges: seq<Edge>, v: int)
    ensures SetOf(Incident(edges, v, |edges|)) == set e | 0 <= e < |edges| && IsEndpoint(edges[e], v)
  {
    IncidentSortedExact(edges, v, |edges|);
  }

  /** Every neighbour of a vertex is a vertex. */
  lemma NeighboursInRange(vNum: int, edges: seq<Edge>, v: int, n: nat)
    requires ValidEdges(vNum, edges) && n <= |edges|
    ensures forall k :: 0 <= k < |Neighbours(edges, v, n)| ==> 1 <= Neighbours(edges, v, n)[k] <= vNum
  {
    RowLengths(edges, v, n);
    forall k | 0 <= k < |Neighbours(edges, v, n)|
      ensures 1 <= Neighbours(edges, v, n)[k] <= vNum
    {
      RowsAt(edges, v, n, k);
    }
  }

  /** The row facts of one vertex of a well-formed instance. */
  lemma Rows(g: Graph, v: int)
    requires WellFormed(g) && 0 <= v <= g.vNum
    ensures g.vEdges[v] == Incident(g.edges, v, |g.edges|)
    ensures g.vAdj[v] == Neighbours(g.edges, v, |g.edges|)
    ensures g.degree[v] == |g.vEdges[v]| == |g.vAdj[v]|
  {
    assert RowOk(g, v);
    RowLengths(g.edges, v, |g.edges|);
  }
}
