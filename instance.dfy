/** Building the instance (fastvc.h, build_instance): the vertex-id handling
    of the headerless edge-list format and the two passes that fill
    v_degree, v_edges and v_adj. Reading the file itself stays outside. */
module Instance {
  import opened Graph

  /** What the headerless loader makes of a list of integer pairs: a
      rejection at the first self-loop, or the inferred vertex count and
      the edge array. */
  datatype LoadResult = SelfLoop(node: int) | Loaded(vNum: int, edges: seq<Edge>)

  /** The largest id among the first `n` pairs, starting from 0, in the
      order the loader compares them. */
  function MaxId(pairs: seq<Edge>, n: nat): (m: int)
    requires n <= |pairs|
    ensures m >= 0
    ensures forall i :: 0 <= i < n ==> pairs[i].v1 <= m && pairs[i].v2 <= m
  {
    if n == 0 then 0
    else
      var m := MaxId(pairs, n - 1);
      var m' := if pairs[n - 1].v1 > m then pairs[n - 1].v1 else m;
      if pairs[n - 1].v2 > m' then pairs[n - 1].v2 else m'
  }

  /** A positive maximum is one of the ids. */
  lemma {:induction false} MaxIdAttained(pairs: seq<Edge>, n: nat)
    requires n <= |pairs|
    ensures var m := MaxId(pairs, n);
            m == 0 || exists i :: 0 <= i < n && (pairs[i].v1 == m || pairs[i].v2 == m)
  {
    if n > 0 {
      MaxIdAttained(pairs, n - 1);
    }
  }

  predicate HasZero(pairs: seq<Edge>, n: nat)
    requires n <= |pairs|
  {
    exists i :: 0 <= i < n && (pairs[i].v1 == 0 || pairs[i].v2 == 0)
  }

  /** Some id among the first i + 1 pairs is 0 exactly when one among the
      first i is, or pair i has one. */
  lemma HasZeroSnoc(pairs: seq<Edge>, i: nat)
    requires i < |pairs|
    ensures HasZero(pairs, i + 1) <==> HasZero(pairs, i) || pairs[i].v1 == 0 || pairs[i].v2 == 0
  {
    if pairs[i].v1 == 0 || pairs[i].v2 == 0 {
      assert 0 <= i < i + 1 && (pairs[i].v1 == 0 || pairs[i].v2 == 0);
    }
  }

  /** Vertex 0 is renumbered to the last vertex id. */
  function Remap(x: int, vNum: int): int {
    if x == 0 then vNum else x
  }

  /** The first pass of the headerless loader (fastvc.h:136-149): stops at
      the first self-loop, otherwise finds the largest id and whether some
      id is 0. */
  method ScanIds(pairs: seq<Edge>) returns (loop: int, hasLoop: bool, maxId: int, hasZero: bool)
    ensures hasLoop ==>
              exists i :: 0 <= i < |pairs| && pairs[i].v1 == pairs[i].v2 == loop
                && forall j :: 0 <= j < i ==> pairs[j].v1 != pairs[j].v2
    ensures !hasLoop ==>
              && (forall i :: 0 <= i < |pairs| ==> pairs[i].v1 != pairs[i].v2)
              && maxId == MaxId(pairs, |pairs|)
              && (hasZero <==> HasZero(pairs, |pairs|))
  {
    maxId, hasZero, hasLoop, loop := 0, false, false, 0;
    var i := 0;
    while i < |pairs|
      invariant 0 <= i <= |pairs|
      invariant forall j :: 0 <= j < i ==> pairs[j].v1 != pairs[j].v2
      invariant maxId == MaxId(pairs, i)
      invariant hasZero <==> HasZero(pairs, i)
    {
      var u, v := pairs[i].v1, pairs[i].v2;
      if u == v {
        hasLoop, loop := true, u;
        return;
      }
      HasZeroSnoc(pairs, i);
      if u == 0 || v == 0 {
        hasZero := true;
      }
      if u > maxId {
        maxId := u;
      }
      if v > maxId {
        maxId := v;
      }
      i := i + 1;
    }
  }

  /** The renumbering pass (fastvc.h:181-182): every id 0 becomes `vNum`. */
  method RemapIds(pairs: seq<Edge>, vNum: int) returns (edges: seq<Edge>)
    ensures |edges| == |pairs|
    ensures forall i :: 0 <= i < |pairs| ==>
              edges[i] == Edge(Remap(pairs[i].v1, vNum), Remap(pairs[i].v2, vNum))
  {
    var edge := new Edge[|pairs|];
    var i := 0;
    while i < |pairs|
      invariant 0 <= i <= |pairs|
      invariant forall j :: 0 <= j < i ==>
                  edge[j] == Edge(Remap(pairs[j].v1, vNum), Remap(pairs[j].v2, vNum))
    {
      var v1, v2 := pairs[i].v1, pairs[i].v2;
      if v1 == 0 {
        v1 := vNum;
      }
      if v2 == 0 {
        v2 := vNum;
      }
      edge[i] := Edge(v1, v2);
      i := i + 1;
    }
    edges := edge[..];
  }

  /** The headerless loader: the first self-loop rejects the input;
      otherwise the vertex count is the largest id, plus one when some id
      is 0, and every id 0 becomes that count. On non-negative ids the
      result is a valid edge array. */
  method NormalizeIds(pairs: seq<Edge>) returns (r: LoadResult)
    ensures r.SelfLoop? <==> exists i :: 0 <= i < |pairs| && pairs[i].v1 == pairs[i].v2
    ensures r.SelfLoop? ==>
              exists i :: 0 <= i < |pairs| && pairs[i].v1 == pairs[i].v2 == r.node
                && forall j :: 0 <= j < i ==> pairs[j].v1 != pairs[j].v2
    ensures r.Loaded? ==>
              && r.vNum == MaxId(pairs, |pairs|) + (if HasZero(pairs, |pairs|) then 1 else 0)
              && |r.edges| == |pairs|
              && forall i :: 0 <= i < |pairs| ==>
                   r.edges[i] == Edge(Remap(pairs[i].v1, r.vNum), Remap(pairs[i].v2, r.vNum))
    ensures r.Loaded? && (forall i :: 0 <= i < |pairs| ==> pairs[i].v1 >= 0 && pairs[i].v2 >= 0) ==>
              ValidEdges(r.vNum, r.edges)
  {
    var loop, hasLoop, maxId, hasZero := ScanIds(pairs);
    if hasLoop {
      return SelfLoop(loop);
    }
    var vNum := if hasZero then maxId + 1 else maxId;
    var edges := RemapIds(pairs, vNum);
    r := Loaded(vNum, edges);
    if forall j :: 0 <= j < |pairs| ==> pairs[j].v1 >= 0 && pairs[j].v2 >= 0 {
      LoadedValid(pairs, vNum, edges);
    }
  }

  /** On non-negative ids, renumbering 0 to a fresh last id yields edges
      within 1..vNum and introduces no self-loop. */
  lemma LoadedValid(pairs: seq<Edge>, vNum: int, edges: seq<Edge>)
    requires forall i :: 0 <= i < |pairs| ==> pairs[i].v1 != pairs[i].v2
    requires vNum == MaxId(pairs, |pairs|) + (if HasZero(pairs, |pairs|) then 1 else 0)
    requires |edges| == |pairs|
    requires forall i :: 0 <= i < |pairs| ==>
               edges[i] == Edge(Remap(pairs[i].v1, vNum), Remap(pairs[i].v2, vNum))
    requires forall i :: 0 <= i < |pairs| ==> pairs[i].v1 >= 0 && pairs[i].v2 >= 0
    ensures ValidEdges(vNum, edges)
  {
    forall i | 0 <= i < |pairs|
      ensures 1 <= edges[i].v1 <= vNum && 1 <= edges[i].v2 <= vNum && edges[i].v1 != edges[i].v2
    {
      if pairs[i].v1 == 0 || pairs[i].v2 == 0 {
        assert HasZero(pairs, |pairs|);
      }
    }
  }

  /** A vertex no edge touches (vertex 0) has empty rows. */
  lemma EmptyRows(vNum: int, edges: seq<Edge>, v: int, n: nat)
    requires ValidEdges(vNum, edges) && n <= |edges| && (v < 1 || v > vNum)
    ensures Incident(edges, v, n) == [] && Neighbours(edges, v, n) == []
  {
    IncidentSortedExact(edges, v, n);
    RowLengths(edges, v, n);
  }

  /** The degree pass of build_instance (fastvc.h:176-192): one increment
      per endpoint of every edge. */
  method CountDegrees(vNum: nat, edges: seq<Edge>) returns (degree: array<int>)
    requires ValidEdges(vNum, edges)
    ensures fresh(degree) && degree.Length == vNum + 1
    ensures forall v :: 0 <= v <= vNum ==> degree[v] == |Incident(edges, v, |edges|)|
  {
    degree := new int[vNum + 1](_ => 0);
    var e := 0;
    while e < |edges|
      invariant 0 <= e <= |edges|
      invariant forall v :: 0 <= v <= vNum ==> degree[v] == |Incident(edges, v, e)|
    {
      var v1, v2 := edges[e].v1, edges[e].v2;
      degree[v1] := degree[v1] + 1;
      degree[v2] := degree[v2] + 1;
      e := e + 1;
    }
  }

  /** The rows `row` and `adj` of vertex `u` have length `deg`, and the part
      before the cursor `k` is the reference row over the first `e` edges. */
  ghost predicate RowFilled(edges: seq<Edge>, u: int, row: seq<int>, adj: seq<int>, deg: int, k: int, e: nat)
  {
    && e <= |edges| && |row| == deg && |adj| == deg
    && k == |Incident(edges, u, e)| <= deg
    && row[..k] == Incident(edges, u, e)
    && adj[..k] == Neighbours(edges, u, e)
  }

  /** After the first `e` edges of the fill pass, the rows and the cursor of
      every vertex are RowFilled. */
  ghost predicate Filled(edges: seq<Edge>, vNum: nat, vEdges: seq<seq<int>>, vAdj: seq<seq<int>>,
                         degree: seq<int>, cursor: seq<int>, e: nat)
  {
    && |vEdges| == |vAdj| == |degree| == |cursor| == vNum + 1
    && forall u :: 0 <= u <= vNum ==> RowFilled(edges, u, vEdges[u], vAdj[u], degree[u], cursor[u], e)
  }

  /** Writing edge `e` of `u` at the cursor of the rows of `u` and advancing
      the cursor extends the filled part by that edge and its other
      endpoint; the cursor was inside the row. */
  lemma FillOne(edges: seq<Edge>, u: int, row: seq<int>, adj: seq<int>, k: int, e: nat)
    requires e < |edges| && IsEndpoint(edges[e], u)
    requires RowFilled(edges, u, row, adj, |Incident(edges, u, |edges|)|, k, e)
    ensures 0 <= k < |row|
    ensures RowFilled(edges, u, row[k := e], adj[k := Other(edges[e], u)], |row|, k + 1, e + 1)
  {
    IncidentMonotone(edges, u, e, |edges|);
    IncidentMonotone(edges, u, e + 1, |edges|);
    assert row[k := e][..k + 1] == row[..k] + [e];
    assert adj[k := Other(edges[e], u)][..k + 1] == adj[..k] + [Other(edges[e], u)];
  }

  /** Edge `e` does not touch `u`: the rows of `u` stay filled. */
  lemma FillSkip(edges: seq<Edge>, u: int, row: seq<int>, adj: seq<int>, deg: int, k: int, e: nat)
    requires e < |edges| && !IsEndpoint(edges[e], u)
    requires RowFilled(edges, u, row, adj, deg, k, e)
    ensures RowFilled(edges, u, row, adj, deg, k, e + 1)
  {
    assert Incident(edges, u, e + 1) == Incident(edges, u, e);
    assert Neighbours(edges, u, e + 1) == Neighbours(edges, u, e);
  }

  /** Writing edge `e` at the cursors of its two endpoints and advancing
      them extends the filled part by that edge. */
  lemma FillStep(edges: seq<Edge>, vNum: nat, vEdges: seq<seq<int>>, vAdj: seq<seq<int>>,
                 degree: seq<int>, cursor: seq<int>, e: nat)
    requires ValidEdges(vNum, edges) && e < |edges|
    requires Filled(edges, vNum, vEdges, vAdj, degree, cursor, e)
    requires forall u :: 0 <= u <= vNum ==> degree[u] == |Incident(edges, u, |edges|)|
    ensures
      var v1, v2 := edges[e].v1, edges[e].v2;
      && 0 <= cursor[v1] < |vEdges[v1]| && 0 <= cursor[v2] < |vEdges[v2]|
      && Filled(edges, vNum,
                vEdges[v1 := vEdges[v1][cursor[v1] := e]][v2 := vEdges[v2][cursor[v2] := e]],
                vAdj[v1 := vAdj[v1][cursor[v1] := v2]][v2 := vAdj[v2][cursor[v2] := v1]],
                degree, cursor[v1 := cursor[v1] + 1][v2 := cursor[v2] + 1], e + 1)
  {
    var v1, v2 := edges[e].v1, edges[e].v2;
    assert RowFilled(edges, v1, vEdges[v1], vAdj[v1], degree[v1], cursor[v1], e);
    assert RowFilled(edges, v2, vEdges[v2], vAdj[v2], degree[v2], cursor[v2], e);
    FillOne(edges, v1, vEdges[v1], vAdj[v1], cursor[v1], e);
    FillOne(edges, v2, vEdges[v2], vAdj[v2], cursor[v2], e);
    var vE := vEdges[v1 := vEdges[v1][cursor[v1] := e]][v2 := vEdges[v2][cursor[v2] := e]];
    var vA := vAdj[v1 := vAdj[v1][cursor[v1] := v2]][v2 := vAdj[v2][cursor[v2] := v1]];
    var cur := cursor[v1 := cursor[v1] + 1][v2 := cursor[v2] + 1];
    forall u | 0 <= u <= vNum
      ensures RowFilled(edges, u, vE[u], vA[u], degree[u], cur[u], e + 1)
    {
      if u != v1 && u != v2 {
        FillSkip(edges, u, vEdges[u], vAdj[u], degree[u], cursor[u], e);
      }
    }
  }

  /** The allocation pass of build_instance (fastvc.h:195-199): rows of
      length v_degree[v] for v = 1..vNum; row 0 stays empty. */
  method AllocateRows(vNum: nat, degree: array<int>) returns (vEdges: array<seq<int>>, vAdj: array<seq<int>>)
    requires degree.Length == vNum + 1
    requires forall u :: 1 <= u <= vNum ==> degree[u] >= 0
    ensures fresh(vEdges) && fresh(vAdj) && vEdges != vAdj
    ensures vEdges.Length == vNum + 1 && vAdj.Length == vNum + 1
    ensures vEdges[0] == [] && vAdj[0] == []
    ensures forall u :: 1 <= u <= vNum ==>
              |vEdges[u]| == degree[u] && |vAdj[u]| == degree[u]
  {
    vAdj := new seq<int>[vNum + 1](_ => []);
    vEdges := new seq<int>[vNum + 1](_ => []);
    var v := 1;
    while v <= vNum
      invariant 1 <= v <= vNum + 1
      invariant vEdges[0] == [] && vAdj[0] == []
      invariant forall u :: 1 <= u < v ==> |vEdges[u]| == degree[u] && |vAdj[u]| == degree[u]
    {
      vAdj[v] := seq(degree[v], _ => 0);
      vEdges[v] := seq(degree[v], _ => 0);
      v := v + 1;
    }
  }

  /** One iteration of the fill pass: edge `e` goes at the cursor of `v1`
      and of `v2` (with the other endpoint in the neighbour rows), and both
      cursors advance. */
  method WriteEdge(vEdges: array<seq<int>>, vAdj: array<seq<int>>, cursor: array<int>, e: int, v1: int, v2: int)
    requires vEdges != vAdj && vEdges.Length == vAdj.Length == cursor.Length
    requires 0 <= v1 < cursor.Length && 0 <= v2 < cursor.Length && v1 != v2
    requires 0 <= cursor[v1] < |vEdges[v1]| && 0 <= cursor[v2] < |vEdges[v2]|
    requires cursor[v1] < |vAdj[v1]| && cursor[v2] < |vAdj[v2]|
    modifies vEdges, vAdj, cursor
    ensures vEdges[..] == old(vEdges[..][v1 := vEdges[v1][cursor[v1] := e]][v2 := vEdges[v2][cursor[v2] := e]])
    ensures vAdj[..] == old(vAdj[..][v1 := vAdj[v1][cursor[v1] := v2]][v2 := vAdj[v2][cursor[v2] := v1]])
    ensures cursor[..] == old(cursor[..][v1 := cursor[v1] + 1][v2 := cursor[v2] + 1])
  {
    var k1, k2 := cursor[v1], cursor[v2];
    vEdges[v1] := vEdges[v1][k1 := e];
    vEdges[v2] := vEdges[v2][k2 := e];
    vAdj[v1] := vAdj[v1][k1 := v2];
    vAdj[v2] := vAdj[v2][k2 := v1];
    cursor[v1] := k1 + 1;
    cursor[v2] := k2 + 1;
  }

  /** One iteration of the fill pass keeps the rows filled. */
  method FillEdge(vNum: nat, edges: seq<Edge>, degree: seq<int>,
                  vEdges: array<seq<int>>, vAdj: array<seq<int>>, cursor: array<int>, e: nat)
    requires ValidEdges(vNum, edges) && e < |edges|
    requires vEdges != vAdj && cursor.Length == vNum + 1
    requires Filled(edges, vNum, vEdges[..], vAdj[..], degree, cursor[..], e)
    requires forall u :: 0 <= u <= vNum ==> degree[u] == |Incident(edges, u, |edges|)|
    modifies vEdges, vAdj, cursor
    ensures Filled(edges, vNum, vEdges[..], vAdj[..], degree, cursor[..], e + 1)
  {
    var v1, v2 := edges[e].v1, edges[e].v2;
    FillStep(edges, vNum, vEdges[..], vAdj[..], degree, cursor[..], e);
    assert RowFilled(edges, v1, vEdges[v1], vAdj[v1], degree[v1], cursor[v1], e);
    assert RowFilled(edges, v2, vEdges[v2], vAdj[v2], degree[v2], cursor[v2], e);
    WriteEdge(vEdges, vAdj, cursor, e, v1, v2);
  }

  /** The fill pass of build_instance (fastvc.h:201-217): edge `e` is
      written at the cursor of each endpoint, which then advances. */
  method FillRows(vNum: nat, edges: seq<Edge>, degree: seq<int>,
                  vEdges: array<seq<int>>, vAdj: array<seq<int>>)
    requires ValidEdges(vNum, edges) && vEdges != vAdj
    requires |degree| == vEdges.Length == vAdj.Length == vNum + 1
    requires forall u :: 0 <= u <= vNum ==>
               degree[u] == |Incident(edges, u, |edges|)| == |vEdges[u]| == |vAdj[u]|
    modifies vEdges, vAdj
    ensures forall u :: 0 <= u <= vNum ==>
              vEdges[u] == Incident(edges, u, |edges|) && vAdj[u] == Neighbours(edges, u, |edges|)
  {
    var degreeTmp := new int[vNum + 1](_ => 0);
    assert Filled(edges, vNum, vEdges[..], vAdj[..], degree, degreeTmp[..], 0);
    var e := 0;
    while e < |edges|
      invariant 0 <= e <= |edges|
      invariant Filled(edges, vNum, vEdges[..], vAdj[..], degree, degreeTmp[..], e)
    {
      FillEdge(vNum, edges, degree, vEdges, vAdj, degreeTmp, e);
      e := e + 1;
    }
    forall u | 0 <= u <= vNum
      ensures vEdges[u] == Incident(edges, u, |edges|) && vAdj[u] == Neighbours(edges, u, |edges|)
    {
      assert RowFilled(edges, u, vEdges[u], vAdj[u], degree[u], degreeTmp[u], |edges|);
      assert vEdges[u] == vEdges[u][..degreeTmp[u]];
      assert vAdj[u] == vAdj[u][..degreeTmp[u]];
    }
  }

  /** The adjacency part of build_instance (fastvc.h:176-219): a first pass
      counts degrees, a row of that length is allocated per vertex, and a
      second pass fills the rows in edge order, cursor by cursor. */
  method BuildInstance(vNum: nat, edges: seq<Edge>) returns (g: Graph)
    requires ValidEdges(vNum, edges)
    ensures WellFormed(g) && g.vNum == vNum && g.edges == edges
  {
    var degree := CountDegrees(vNum, edges);
    EmptyRows(vNum, edges, 0, |edges|);
    var vEdges, vAdj := AllocateRows(vNum, degree);
    FillRows(vNum, edges, degree[..], vEdges, vAdj);
    g := Graph(vNum, edges, degree[..], vEdges[..], vAdj[..]);
    assert forall u :: 0 <= u <= vNum ==> RowOk(g, u);
  }
}
