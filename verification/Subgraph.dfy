/**
 * GetSubgraph: a recursive query over simple paths, proved to answer a question that mentions no
 * paths' simplicity: which nodes and edges lie within a distance of the root.
 */
module Subgraph {
  import opened Common
  import opened GraphModel
  import Sorting = StableSorting

  // ---- the recursive query -------------------------------------------------

  /** One row of the recursive table walk(node_id, depth, path, edge_id). */
  datatype WalkRow = WalkRow(node: Uuid, depth: nat, path: seq<Uuid>, edge: Option<Uuid>)

  predicate PermanentEdge(g: Graph, team: Uuid, e: Uuid) {
    e in g.edges && g.edges[e].team == team && g.edges[e].status.Permanent?
  }

  /** The CASE expression of the query: the end of the edge that is not u, unless both are. */
  function OtherEnd(e: Edge, u: Uuid): Uuid {
    if e.from == u then e.to else e.from
  }

  /** Edge e leads from u to the permanent neighbour v. */
  predicate Hop(g: Graph, team: Uuid, e: Uuid, u: Uuid, v: Uuid) {
    && PermanentEdge(g, team, e)
    && (g.edges[e].from == u || g.edges[e].to == u)
    && v == OtherEnd(g.edges[e], u)
    && PermanentNode(g, team, v)
  }

  predicate Extends(g: Graph, team: Uuid, w: WalkRow, e: Uuid) {
    && PermanentEdge(g, team, e)
    && Hop(g, team, e, w.node, OtherEnd(g.edges[e], w.node))
    && OtherEnd(g.edges[e], w.node) !in w.path
  }

  function Extended(g: Graph, w: WalkRow, e: Uuid): WalkRow
    requires e in g.edges
  {
    var v := OtherEnd(g.edges[e], w.node);
    WalkRow(v, w.depth + 1, w.path + [v], Some(e))
  }

  /** The rows the k-th iteration of the recursive term adds. */
  function Level(g: Graph, team: Uuid, root: Uuid, k: nat): set<WalkRow> {
    if k == 0 then {WalkRow(root, 0, [root], None)}
    else
      set w, e | w in Level(g, team, root, k - 1) && e in g.edges && Extends(g, team, w, e) :: Extended(g, w, e)
  }

  /** The whole recursive table for rows of depth at most depth. */
  function Walk(g: Graph, team: Uuid, root: Uuid, depth: nat): set<WalkRow> {
    Level(g, team, root, depth) + if depth == 0 then {} else Walk(g, team, root, depth - 1)
  }

  function TraversedEdges(g: Graph, team: Uuid, root: Uuid, depth: nat): set<Uuid> {
    set w | w in Walk(g, team, root, depth) && w.edge.Some? :: w.edge.value
  }

  predicate Joined(g: Graph, team: Uuid, root: Uuid, e: Uuid, n: Uuid) {
    && e in g.edges && g.edges[e].team == team
    && NodeOfTeam(g, team, n)
    && (n == g.edges[e].from || n == g.edges[e].to)
    && (n == root || g.nodes[n].status.Permanent?)
  }

  /** The final SELECT: each traversed edge beside each of its visible ends. */
  function ResultRows(g: Graph, team: Uuid, root: Uuid, depth: nat): set<(Uuid, Uuid)> {
    set e, n | e in TraversedEdges(g, team, root, depth) && n in g.nodes && Joined(g, team, root, e, n) :: (e, n)
  }

  // ---- the question it answers ---------------------------------------------

  ghost predicate Linked(g: Graph, team: Uuid, u: Uuid, v: Uuid) {
    exists e :: Hop(g, team, e, u, v)
  }

  /** A walk from root over permanent edges to permanent nodes; it may revisit nodes. */
  ghost predicate IsWalk(g: Graph, team: Uuid, root: Uuid, p: seq<Uuid>) {
    && |p| > 0
    && p[0] == root
    && forall i | 0 <= i < |p| - 1 :: Linked(g, team, p[i], p[i + 1])
  }

  ghost predicate Within(g: Graph, team: Uuid, root: Uuid, v: Uuid, distance: int) {
    exists p :: IsWalk(g, team, root, p) && p[|p| - 1] == v && |p| <= distance + 1
  }

  ghost predicate InSubgraph(g: Graph, team: Uuid, root: Uuid, depth: nat, e: Uuid) {
    && PermanentEdge(g, team, e)
    && g.edges[e].from != g.edges[e].to
    && Within(g, team, root, g.edges[e].from, depth)
    && Within(g, team, root, g.edges[e].to, depth)
    && (Within(g, team, root, g.edges[e].from, depth - 1) || Within(g, team, root, g.edges[e].to, depth - 1))
  }

  /** Two nodes are linked when a permanent edge of the team joins them, in either direction, and the second is permanent. */
  lemma LinkedExactly(g: Graph, team: Uuid, u: Uuid, v: Uuid)
    ensures Linked(g, team, u, v) <==>
      && v in g.nodes && g.nodes[v].team == team && g.nodes[v].status.Permanent?
      && exists e ::
           && e in g.edges && g.edges[e].team == team && g.edges[e].status.Permanent?
           && ((g.edges[e].from == u && g.edges[e].to == v) || (g.edges[e].from == v && g.edges[e].to == u))
  {
    if v in g.nodes && g.nodes[v].team == team && g.nodes[v].status.Permanent? {
      if e :|
        && e in g.edges && g.edges[e].team == team && g.edges[e].status.Permanent?
        && ((g.edges[e].from == u && g.edges[e].to == v) || (g.edges[e].from == v && g.edges[e].to == u))
      {
        assert Hop(g, team, e, u, v);
      }
    }
  }

  /** The edges of the subgraph: permanent, of the team, with two ends in the ball, one strictly inside it. */
  lemma InSubgraphExactly(g: Graph, team: Uuid, root: Uuid, depth: nat, e: Uuid)
    ensures InSubgraph(g, team, root, depth, e) <==>
      && e in g.edges && g.edges[e].team == team && g.edges[e].status.Permanent?
      && var from, to := g.edges[e].from, g.edges[e].to;
         && from != to && Within(g, team, root, from, depth) && Within(g, team, root, to, depth)
         && (Within(g, team, root, from, depth - 1) || Within(g, team, root, to, depth - 1))
  {
  }

  // ---- levels are the simple paths -----------------------------------------

  ghost predicate SimplePath(g: Graph, team: Uuid, root: Uuid, p: seq<Uuid>) {
    IsWalk(g, team, root, p) && NoDuplicates(p)
  }

  lemma {:induction false} LevelSound(g: Graph, team: Uuid, root: Uuid, k: nat, w: WalkRow)
    requires w in Level(g, team, root, k)
    ensures SimplePath(g, team, root, w.path) && |w.path| == k + 1 && w.path[k] == w.node
    ensures k > 0 ==> w.edge.Some? && Hop(g, team, w.edge.value, w.path[k - 1], w.node)
    ensures k == 0 ==> w.edge.None?
  {
    if k > 0 {
      var v, e :| v in Level(g, team, root, k - 1) && e in g.edges && Extends(g, team, v, e) && w == Extended(g, v, e);
      LevelSound(g, team, root, k - 1, v);
      assert Linked(g, team, w.path[k - 1], w.path[k]);
    }
  }

  lemma {:induction false} LevelComplete(g: Graph, team: Uuid, root: Uuid, p: seq<Uuid>) returns (w: WalkRow)
    requires SimplePath(g, team, root, p)
    ensures w in Level(g, team, root, |p| - 1) && w.path == p && w.node == p[|p| - 1]
  {
    if |p| == 1 {
      w := WalkRow(root, 0, [root], None);
    } else {
      var k := |p| - 1;
      var q := p[..k];
      var v := LevelComplete(g, team, root, q);
      assert Linked(g, team, p[k - 1], p[k]);
      var e :| Hop(g, team, e, p[k - 1], p[k]);
      w := Extended(g, v, e);
      assert p == q + [p[k]];
    }
  }

  /** A level's row can be taken along any edge that leads to a node not yet on its path. */
  lemma LevelExtends(g: Graph, team: Uuid, root: Uuid, p: seq<Uuid>, e: Uuid, v: Uuid)
    requires SimplePath(g, team, root, p) && Hop(g, team, e, p[|p| - 1], v) && v !in p
    ensures exists w :: w in Level(g, team, root, |p|) && w.edge == Some(e)
  {
    var w := LevelComplete(g, team, root, p);
    assert Extended(g, w, e) in Level(g, team, root, |p|);
  }

  lemma {:induction false} WalkIsLevels(g: Graph, team: Uuid, root: Uuid, depth: nat, w: WalkRow)
    ensures w in Walk(g, team, root, depth) <==> exists k: nat :: k <= depth && w in Level(g, team, root, k)
  {
    if depth > 0 {
      WalkIsLevels(g, team, root, depth - 1, w);
    }
    if k: nat :| k <= depth && w in Level(g, team, root, k) {
      assert k == depth || (depth > 0 && k <= depth - 1);
    }
    if w in Level(g, team, root, depth) {
      assert exists k: nat :: k <= depth && w in Level(g, team, root, k);
    }
  }

  // ---- cutting loops ---------------------------------------------------------

  /** Every walk can be cut down to a simple path with the same end, no longer than the walk. */
  lemma {:induction false} CutLoops(g: Graph, team: Uuid, root: Uuid, p: seq<Uuid>) returns (q: seq<Uuid>)
    requires IsWalk(g, team, root, p)
    ensures SimplePath(g, team, root, q) && |q| <= |p| && q[|q| - 1] == p[|p| - 1]
    decreases |p|
  {
    if NoDuplicates(p) {
      q := p;
    } else {
      var i, j :| 0 <= i < j < |p| && p[i] == p[j];
      var shorter := p[..i] + p[j..];
      forall k | 0 <= k < |shorter| - 1 ensures Linked(g, team, shorter[k], shorter[k + 1]) {
        if k < i - 1 {
          assert Linked(g, team, p[k], p[k + 1]);
        } else if k == i - 1 {
          assert Linked(g, team, p[i - 1], p[i]);
        } else {
          assert Linked(g, team, p[k - i + j], p[k - i + j + 1]);
        }
      }
      q := CutLoops(g, team, root, shorter);
    }
  }

  lemma WithinPrefix(g: Graph, team: Uuid, root: Uuid, p: seq<Uuid>, i: nat)
    requires IsWalk(g, team, root, p) && i < |p|
    ensures Within(g, team, root, p[i], i)
  {
    var q := p[..i + 1];
    assert IsWalk(g, team, root, q) && q[|q| - 1] == p[i];
  }

  lemma WithinMonotone(g: Graph, team: Uuid, root: Uuid, v: Uuid, d: int, e: int)
    requires Within(g, team, root, v, d) && d <= e
    ensures Within(g, team, root, v, e)
  {
    var p :| IsWalk(g, team, root, p) && p[|p| - 1] == v && |p| <= d + 1;
    assert |p| <= e + 1;
  }

  // ---- the traversed edges ---------------------------------------------------

  lemma TraversedSound(g: Graph, team: Uuid, root: Uuid, depth: nat, e: Uuid)
    requires e in TraversedEdges(g, team, root, depth)
    ensures InSubgraph(g, team, root, depth, e)
  {
    var w :| w in Walk(g, team, root, depth) && w.edge == Some(e);
    WalkIsLevels(g, team, root, depth, w);
    var k: nat :| k <= depth && w in Level(g, team, root, k);
    LevelSound(g, team, root, k, w);
    WithinPrefix(g, team, root, w.path, k);
    WithinPrefix(g, team, root, w.path, k - 1);
    WithinMonotone(g, team, root, w.path[k], k, depth);
    WithinMonotone(g, team, root, w.path[k - 1], k - 1, depth - 1);
    WithinMonotone(g, team, root, w.path[k - 1], k - 1, depth);
    assert w.path[k - 1] != w.path[k];
  }

  /** One end u of a permanent edge is near, the other end v is visible: the walk takes the edge. */
  lemma NearEdgeTraversed(g: Graph, team: Uuid, root: Uuid, depth: nat, e: Uuid, u: Uuid, v: Uuid)
    requires PermanentEdge(g, team, e)
    requires u != v && {u, v} == {g.edges[e].from, g.edges[e].to}
    requires Within(g, team, root, u, depth - 1) && Within(g, team, root, v, depth)
    ensures e in TraversedEdges(g, team, root, depth)
  {
    var p :| IsWalk(g, team, root, p) && p[|p| - 1] == u && |p| <= depth;
    p := CutLoops(g, team, root, p);
    var last := |p| - 1;
    var k: nat;
    if v !in p {
      // Only the root is visible without being permanent, and the root is on p.
      var q :| IsWalk(g, team, root, q) && q[|q| - 1] == v;
      assert |q| > 1;
      assert Linked(g, team, q[|q| - 2], v);
      assert Hop(g, team, e, u, v);
      LevelExtends(g, team, root, p, e, v);
      k := |p|;
    } else {
      // p passes through v before it ends in u: leave it there, and take the edge to u.
      var i :| 0 <= i < |p| && p[i] == v;
      var q := p[..i + 1];
      assert SimplePath(g, team, root, q);
      assert Linked(g, team, p[last - 1], u);
      assert Hop(g, team, e, v, u);
      assert u !in q;
      LevelExtends(g, team, root, q, e, u);
      k := |q|;
    }
    var w :| w in Level(g, team, root, k) && w.edge == Some(e);
    WalkIsLevels(g, team, root, depth, w);
  }

  /** The query traverses exactly the permanent edges of the ball that have an end strictly inside it. */
  lemma TraversedExactly(g: Graph, team: Uuid, root: Uuid, depth: nat, e: Uuid)
    ensures e in TraversedEdges(g, team, root, depth) <==> InSubgraph(g, team, root, depth, e)
  {
    if e in TraversedEdges(g, team, root, depth) {
      TraversedSound(g, team, root, depth, e);
    }
    if InSubgraph(g, team, root, depth, e) {
      var f, t := g.edges[e].from, g.edges[e].to;
      if Within(g, team, root, f, depth - 1) {
        NearEdgeTraversed(g, team, root, depth, e, f, t);
      } else {
        NearEdgeTraversed(g, team, root, depth, e, t, f);
      }
    }
  }

  /** The nodes joined to traversed edges, with the root, are exactly the nodes within depth. */
  lemma NodesExactly(g: Graph, team: Uuid, root: Uuid, depth: nat, n: Uuid)
    requires NodeOfTeam(g, team, root)
    ensures n == root || (exists e :: (e, n) in ResultRows(g, team, root, depth)) <==> Within(g, team, root, n, depth)
  {
    if n == root {
      assert IsWalk(g, team, root, [root]);
      assert [root][|[root]| - 1] == root && |[root]| <= depth + 1;
    } else {
      if e :| (e, n) in ResultRows(g, team, root, depth) {
        TraversedExactly(g, team, root, depth, e);
      }
      if Within(g, team, root, n, depth) {
        var p :| IsWalk(g, team, root, p) && p[|p| - 1] == n && |p| <= depth + 1;
        p := CutLoops(g, team, root, p);
        var k := |p| - 1;
        assert Linked(g, team, p[k - 1], p[k]);
        var e :| Hop(g, team, e, p[k - 1], p[k]);
        LevelExtends(g, team, root, p[..k], e, n);
        var w :| w in Level(g, team, root, k) && w.edge == Some(e);
        WalkIsLevels(g, team, root, depth, w);
        assert (e, n) in ResultRows(g, team, root, depth);
      }
    }
  }

  /** A traversed edge appears in the result rows, and only an edge of a positive depth is traversed. */
  lemma TraversedEdgeListed(g: Graph, team: Uuid, root: Uuid, depth: nat, e: Uuid)
    requires e in TraversedEdges(g, team, root, depth)
    ensures depth > 0 && exists n :: (e, n) in ResultRows(g, team, root, depth)
  {
    var w :| w in Walk(g, team, root, depth) && w.edge == Some(e);
    WalkIsLevels(g, team, root, depth, w);
    var k: nat :| k <= depth && w in Level(g, team, root, k);
    LevelSound(g, team, root, k, w);
    assert (e, w.node) in ResultRows(g, team, root, depth);
  }

  // ---- the procedure -----------------------------------------------------------

  datatype Listing = Listing(nodes: seq<(Uuid, Node)>, edges: seq<(Uuid, Edge)>)

  predicate OlderNode(m: (Uuid, Node), n: (Uuid, Node)) {
    m.1.createdAt < n.1.createdAt
  }

  predicate OlderEdge(d: (Uuid, Edge), e: (Uuid, Edge)) {
    d.1.createdAt < e.1.createdAt
  }

  /** m holds the rows of exactly the nodes within depth of the root. */
  ghost predicate AreNodesWithin(m: map<Uuid, Node>, g: Graph, team: Uuid, root: Uuid, depth: nat) {
    && (forall n :: n in m <==> Within(g, team, root, n, depth))
    && (forall n | n in m :: n in g.nodes && m[n] == g.nodes[n])
  }

  /** m holds the rows of exactly the edges of the subgraph. */
  ghost predicate AreEdgesWithin(m: map<Uuid, Edge>, g: Graph, team: Uuid, root: Uuid, depth: nat) {
    && (forall e :: e in m <==> InSubgraph(g, team, root, depth, e))
    && (forall e | e in m :: e in g.edges && m[e] == g.edges[e])
  }

  /** s lists the entries of m, each key once. */
  ghost predicate Lists<V>(s: seq<(Uuid, V)>, m: map<Uuid, V>) {
    && |s| == |m|
    && (forall x | x in s :: x.0 in m && m[x.0] == x.1)
    && (forall k | k in m :: (k, m[k]) in s)
  }

  /** The entries of a map, in the order of an iteration. */
  method Entries<V>(m: map<Uuid, V>) returns (s: seq<(Uuid, V)>)
    ensures Lists(s, m)
  {
    s := [];
    var rest := m.Keys;
    while rest != {}
      invariant rest <= m.Keys
      invariant |s| + |rest| == |m|
      invariant forall x | x in s :: x.0 in m && m[x.0] == x.1
      invariant forall k | k in m :: k in rest || (k, m[k]) in s
      decreases |rest|
    {
      var k := Pick(rest);
      s := s + [(k, m[k])];
      rest := rest - {k};
    }
  }

  lemma SortLists<V(!new)>(s: seq<(Uuid, V)>, m: map<Uuid, V>, less: ((Uuid, V), (Uuid, V)) -> bool)
    requires Lists(s, m) && Sorting.StrictWeakOrder(less)
    ensures Lists(Sorting.Sort(s, less), m)
    ensures forall i, j | 0 <= i < j < |Sorting.Sort(s, less)| :: !less(Sorting.Sort(s, less)[j], Sorting.Sort(s, less)[i])
  {
    Sorting.SortSorted(s, less);
    Sorting.SortElements(s, less);
  }

  /**
   * Fills the two maps from the rows of the query.  The query's own ORDER BY is not observable: the
   * maps forget it.
   */
  method Collect(g: Graph, team: Uuid, root: Uuid, depth: nat)
    returns (nodesById: map<Uuid, Node>, edgesById: map<Uuid, Edge>)
    requires NodeOfTeam(g, team, root)
    ensures AreNodesWithin(nodesById, g, team, root, depth)
    ensures AreEdgesWithin(edgesById, g, team, root, depth)
  {
    nodesById := map[root := g.nodes[root]];
    edgesById := map[];
    ghost var all := ResultRows(g, team, root, depth);
    if depth > 0 {
      var rows := ResultRows(g, team, root, depth);
      while rows != {}
        invariant rows <= all
        invariant root in nodesById
        invariant forall n | n in nodesById :: n == root || exists e :: (e, n) in all
        invariant forall n | n in nodesById :: n in g.nodes && nodesById[n] == g.nodes[n]
        invariant forall e | e in edgesById :: e in g.edges && edgesById[e] == g.edges[e]
        invariant edgesById.Keys <= TraversedEdges(g, team, root, depth)
        invariant forall x | x in all :: x in rows || (x.0 in edgesById && x.1 in nodesById)
        decreases |rows|
      {
        var row := Pick(rows);
        if row.0 !in edgesById {
          edgesById := edgesById[row.0 := g.edges[row.0]];
        }
        if row.1 !in nodesById {
          nodesById := nodesById[row.1 := g.nodes[row.1]];
        }
        rows := rows - {row};
      }
    }
    forall n ensures n in nodesById <==> Within(g, team, root, n, depth) {
      NodesExactly(g, team, root, depth, n);
    }
    forall e ensures e in edgesById <==> InSubgraph(g, team, root, depth, e) {
      TraversedExactly(g, team, root, depth, e);
      if e in TraversedEdges(g, team, root, depth) {
        TraversedEdgeListed(g, team, root, depth, e);
      }
    }
  }

  /** The root and its neighbourhood, both lists by age. */
  method GetSubgraph(g: Graph, team: Uuid, root: Uuid, depth: int) returns (r: Result<Listing>)
    ensures r.Err? <==> team == NIL || root == NIL || !NodeOfTeam(g, team, root)
    ensures r.Ok? ==>
      var d: nat := if depth < 0 then 0 else depth;
      && (exists m :: AreNodesWithin(m, g, team, root, d) && Lists(r.value.nodes, m))
      && (exists m :: AreEdgesWithin(m, g, team, root, d) && Lists(r.value.edges, m))
      && (forall i, j | 0 <= i < j < |r.value.nodes| :: r.value.nodes[i].1.createdAt <= r.value.nodes[j].1.createdAt)
      && (forall i, j | 0 <= i < j < |r.value.edges| :: r.value.edges[i].1.createdAt <= r.value.edges[j].1.createdAt)
  {
    if team == NIL {
      return Err("team id is required");
    }
    if root == NIL {
      return Err("root node id is required");
    }
    if !(root in g.nodes && g.nodes[root].team == team) {
      return Err("graph node not found");
    }
    var d: nat := if depth < 0 then 0 else depth;
    var nodesById, edgesById := Collect(g, team, root, d);
    var nodes := Entries(nodesById);
    var edges := Entries(edgesById);
    SortLists(nodes, nodesById, OlderNode);
    SortLists(edges, edgesById, OlderEdge);
    var sortedNodes, sortedEdges := Sorting.Sort(nodes, OlderNode), Sorting.Sort(edges, OlderEdge);
    hide AreNodesWithin, AreEdgesWithin, Lists, Sorting.Sort;
    r := Ok(Listing(sortedNodes, sortedEdges));
  }
}
