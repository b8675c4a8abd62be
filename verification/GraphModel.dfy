/** The incident knowledge graph: its two tables, and the statements on them as functions. */
module GraphModel {
  import opened Common

  datatype Status = Pending | Permanent

  datatype NodeType = Incident | Deployment | Service | Alert

  datatype EdgeType = CausedBy | Affects | SimilarTo | Triggered

  /** The texts the similarity scorer reads out of a node's JSON properties. */
  datatype Fields = Fields(
    rootCause: string, logPattern: string, service: string,
    metricAnomaly: string, deployment: string, resolution: string)

  datatype Node = Node(
    team: Uuid, kind: NodeType, status: Status, title: string,
    externalId: Option<string>, fields: Fields, createdAt: int)

  datatype Edge = Edge(
    team: Uuid, from: Uuid, to: Uuid, kind: EdgeType, status: Status, weight: real, createdAt: int)

  /** What a caller passes to UpsertNode: NIL and None are Go's zero values. */
  datatype NodeDraft = NodeDraft(
    id: Uuid, team: Uuid, kind: NodeType, status: Option<Status>,
    title: string, externalId: Option<string>, fields: Fields)

  datatype EdgeDraft = EdgeDraft(
    id: Uuid, team: Uuid, from: Uuid, to: Uuid, kind: EdgeType, status: Option<Status>, weight: real)

  datatype Graph = Graph(nodes: map<Uuid, Node>, edges: map<Uuid, Edge>)

  const EMPTY: Graph := Graph(map[], map[])

  // ---- table constraints -------------------------------------------------

  ghost predicate SameNodeKey(m: Node, n: Node) {
    m.team == n.team && m.kind == n.kind && m.externalId == n.externalId && m.externalId.Some?
  }

  ghost predicate SameEdgeKey(d: Edge, e: Edge) {
    d.team == e.team && d.from == e.from && d.to == e.to && d.kind == e.kind
  }

  predicate NodeOfTeam(g: Graph, team: Uuid, id: Uuid) {
    id in g.nodes && g.nodes[id].team == team
  }

  /** The unique index on (team_id, type, external_id). */
  ghost predicate UniqueNodes(nodes: map<Uuid, Node>) {
    forall i, j | i in nodes && j in nodes && SameNodeKey(nodes[i], nodes[j]) :: i == j
  }

  /** The unique constraint on (team_id, from_id, to_id, type). */
  ghost predicate UniqueEdges(edges: map<Uuid, Edge>) {
    forall i, j | i in edges && j in edges && SameEdgeKey(edges[i], edges[j]) :: i == j
  }

  /** The composite foreign keys of an edge. */
  ghost predicate ForeignKeys(g: Graph) {
    forall e | e in g.edges ::
      NodeOfTeam(g, g.edges[e].team, g.edges[e].from) && NodeOfTeam(g, g.edges[e].team, g.edges[e].to)
  }

  ghost predicate Constraints(g: Graph) {
    UniqueNodes(g.nodes) && UniqueEdges(g.edges) && ForeignKeys(g)
  }

  // ---- statements, as functions on the two tables ------------------------

  /** A permanent row is never demoted by a later upsert. */
  function MergeStatus(stored: Status, incoming: Status): Status {
    if stored.Permanent? then stored else incoming
  }

  function CleanExternalId(id: Option<string>): Option<string> {
    if id.Some? && Trim(id.value) == "" then None else id
  }

  predicate OwnsKey(g: Graph, team: Uuid, kind: NodeType, externalId: Option<string>, id: Uuid) {
    && NodeOfTeam(g, team, id)
    && externalId.Some?
    && g.nodes[id].kind == kind
    && g.nodes[id].externalId == externalId
  }

  predicate OwnsEdgeKey(g: Graph, team: Uuid, d: EdgeDraft, id: Uuid) {
    && id in g.edges
    && g.edges[id].team == team
    && g.edges[id].from == d.from
    && g.edges[id].to == d.to
    && g.edges[id].kind == d.kind
  }

  function DraftStatus(status: Option<Status>): Status {
    if status.None? then Pending else status.value
  }

  function NewNode(team: Uuid, d: NodeDraft, now: int): Node {
    Node(team, d.kind, DraftStatus(d.status), d.title, CleanExternalId(d.externalId), d.fields, now)
  }

  function MergeNode(stored: Node, d: NodeDraft): Node {
    stored.(status := MergeStatus(stored.status, DraftStatus(d.status)), title := d.title, fields := d.fields)
  }

  function DraftWeight(weight: real): real {
    if weight <= 0.0 then 1.0 else weight
  }

  function NewEdge(team: Uuid, d: EdgeDraft, now: int): Edge {
    Edge(team, d.from, d.to, d.kind, DraftStatus(d.status), DraftWeight(d.weight), now)
  }

  function MergeEdge(stored: Edge, d: EdgeDraft): Edge {
    stored.(status := MergeStatus(stored.status, DraftStatus(d.status)), weight := DraftWeight(d.weight))
  }

  /** INSERT ... ON CONFLICT (team_id, type, external_id); newId is what uuid.New() draws. */
  ghost function UpsertNode(g: Graph, team: Uuid, d: NodeDraft, newId: Uuid, now: int): Result<(Graph, Uuid)> {
    var id := if d.id == NIL then newId else d.id;
    if team == NIL then Err("team id is required")
    else if d.team != NIL && d.team != team then Err("node team does not match")
    else if Trim(d.title) == "" then Err("graph node label is required")
    else if exists k :: OwnsKey(g, team, d.kind, CleanExternalId(d.externalId), k) then
      var k :| OwnsKey(g, team, d.kind, CleanExternalId(d.externalId), k);
      Ok((g.(nodes := g.nodes[k := MergeNode(g.nodes[k], d)]), k))
    else if id in g.nodes then Err("duplicate node id")
    else Ok((g.(nodes := g.nodes[id := NewNode(team, d, now)]), id))
  }

  /** INSERT ... ON CONFLICT (team_id, from_id, to_id, type), under the foreign keys. */
  ghost function UpsertEdge(g: Graph, team: Uuid, d: EdgeDraft, newId: Uuid, now: int): Result<(Graph, Uuid)> {
    var id := if d.id == NIL then newId else d.id;
    if team == NIL then Err("team id is required")
    else if d.team != NIL && d.team != team then Err("edge team does not match")
    else if d.from == NIL then Err("edge from node id is required")
    else if d.to == NIL then Err("edge to node id is required")
    else if d.from == d.to then Err("edge cannot point to the same node")
    else if exists k :: OwnsEdgeKey(g, team, d, k) then
      var k :| OwnsEdgeKey(g, team, d, k);
      Ok((g.(edges := g.edges[k := MergeEdge(g.edges[k], d)]), k))
    else if !NodeOfTeam(g, team, d.from) || !NodeOfTeam(g, team, d.to) then Err("foreign key violation")
    else if id in g.edges then Err("duplicate edge id")
    else Ok((g.(edges := g.edges[id := NewEdge(team, d, now)]), id))
  }

  predicate PermanentNode(g: Graph, team: Uuid, id: Uuid) {
    NodeOfTeam(g, team, id) && g.nodes[id].status.Permanent?
  }

  /** The WHERE clause of the similarity search for a node. */
  predicate Candidate(g: Graph, team: Uuid, source: Uuid, id: Uuid) {
    && source in g.nodes
    && PermanentNode(g, team, id)
    && g.nodes[id].kind == g.nodes[source].kind
    && id != source
  }

  function PromotedEdge(nodes: map<Uuid, Node>, team: Uuid, id: Uuid, e: Edge): Edge {
    if && e.team == team
       && (e.from == id || e.to == id)
       && PermanentNode(Graph(nodes, map[]), team, e.from)
       && PermanentNode(Graph(nodes, map[]), team, e.to)
    then e.(status := Permanent)
    else e
  }

  /** The promotion transaction: the node, then its edges whose two ends are permanent. */
  function PromoteNode(g: Graph, team: Uuid, id: Uuid): Result<Graph> {
    if team == NIL then Err("team id is required")
    else if id == NIL then Err("node id is required")
    else if !NodeOfTeam(g, team, id) then Err("graph node not found")
    else
      var nodes := g.nodes[id := g.nodes[id].(status := Permanent)];
      Ok(Graph(nodes, map e | e in g.edges :: PromotedEdge(nodes, team, id, g.edges[e])))
  }

  /** DELETE with ON DELETE CASCADE on both edge foreign keys. */
  function DeleteNode(g: Graph, team: Uuid, id: Uuid): Result<Graph> {
    if team == NIL then Err("team id is required")
    else if id == NIL then Err("node id is required")
    else if !NodeOfTeam(g, team, id) then Err("graph node not found")
    else
      Ok(Graph(
        map n | n in g.nodes && n != id :: g.nodes[n],
        map e | e in g.edges && !(g.edges[e].team == team && (g.edges[e].from == id || g.edges[e].to == id)) :: g.edges[e]))
  }

  // ---- what the statements keep -------------------------------------------

  lemma UpsertNodeKeepsConstraints(g: Graph, team: Uuid, d: NodeDraft, newId: Uuid, now: int)
    requires Constraints(g)
    ensures var r := UpsertNode(g, team, d, newId, now); r.Ok? ==> Constraints(r.value.0)
  {
    var r := UpsertNode(g, team, d, newId, now);
    if r.Ok? {
      var h := r.value.0;
      var id := r.value.1;
      forall k | k in g.nodes && k != id ensures !SameNodeKey(g.nodes[k], h.nodes[id]) {
        if SameNodeKey(g.nodes[k], h.nodes[id]) {
          assert OwnsKey(g, team, d.kind, CleanExternalId(d.externalId), k);
        }
      }
    }
  }

  lemma UpsertEdgeKeepsConstraints(g: Graph, team: Uuid, d: EdgeDraft, newId: Uuid, now: int)
    requires Constraints(g)
    ensures var r := UpsertEdge(g, team, d, newId, now); r.Ok? ==> Constraints(r.value.0)
  {
    var r := UpsertEdge(g, team, d, newId, now);
    if r.Ok? {
      var h := r.value.0;
      var id := r.value.1;
      forall k | k in g.edges && k != id ensures !SameEdgeKey(g.edges[k], h.edges[id]) {
        if SameEdgeKey(g.edges[k], h.edges[id]) {
          assert OwnsEdgeKey(g, team, d, k);
        }
      }
    }
  }

  lemma PromoteNodeKeepsConstraints(g: Graph, team: Uuid, id: Uuid)
    requires Constraints(g)
    ensures var r := PromoteNode(g, team, id); r.Ok? ==> Constraints(r.value)
  {
    var r := PromoteNode(g, team, id);
    if r.Ok? {
      var h := r.value;
      forall i, j | i in h.nodes && j in h.nodes && SameNodeKey(h.nodes[i], h.nodes[j]) ensures i == j {
        assert SameNodeKey(g.nodes[i], g.nodes[j]);
      }
      forall i, j | i in h.edges && j in h.edges && SameEdgeKey(h.edges[i], h.edges[j]) ensures i == j {
        assert SameEdgeKey(g.edges[i], g.edges[j]);
      }
    }
  }

  lemma DeleteNodeKeepsConstraints(g: Graph, team: Uuid, id: Uuid)
    requires Constraints(g)
    ensures var r := DeleteNode(g, team, id); r.Ok? ==> Constraints(r.value)
  {
    var r := DeleteNode(g, team, id);
    if r.Ok? {
      var h := r.value;
      forall i, j | i in h.nodes && j in h.nodes && SameNodeKey(h.nodes[i], h.nodes[j]) ensures i == j {
        assert SameNodeKey(g.nodes[i], g.nodes[j]);
      }
      forall i, j | i in h.edges && j in h.edges && SameEdgeKey(h.edges[i], h.edges[j]) ensures i == j {
        assert SameEdgeKey(g.edges[i], g.edges[j]);
      }
    }
  }

  // ---- what the statements do, row by row ------------------------------------

  /** A stored node with the draft's type and external id; a blank external id is none at all. */
  ghost predicate Meets(g: Graph, team: Uuid, d: NodeDraft, k: Uuid) {
    && k in g.nodes && g.nodes[k].team == team && g.nodes[k].kind == d.kind
    && d.externalId.Some? && (exists c :: c in d.externalId.value && !IsSpace(c))
    && g.nodes[k].externalId == d.externalId
  }

  lemma MeetsIsKey(g: Graph, team: Uuid, d: NodeDraft, k: Uuid)
    ensures Meets(g, team, d, k) <==> OwnsKey(g, team, d.kind, CleanExternalId(d.externalId), k)
  {
    if d.externalId.Some? {
      TrimExactly(d.externalId.value);
    }
  }

  /** A node upsert fails exactly without a team, for another team's draft, for a blank label, or for a used id. */
  lemma UpsertNodeErrs(g: Graph, team: Uuid, d: NodeDraft, newId: Uuid, now: int)
    ensures UpsertNode(g, team, d, newId, now).Err? <==>
      || team == NIL
      || (d.team != NIL && d.team != team)
      || (forall c | c in d.title :: IsSpace(c))
      || ((forall k :: !Meets(g, team, d, k)) && (if d.id == NIL then newId else d.id) in g.nodes)
  {
    TrimExactly(d.title);
    forall k ensures Meets(g, team, d, k) <==> OwnsKey(g, team, d.kind, CleanExternalId(d.externalId), k) {
      MeetsIsKey(g, team, d, k);
    }
  }

  /** Without a stored node of that key one row is added, pending unless the draft says otherwise. */
  lemma UpsertNodeInserts(g: Graph, team: Uuid, d: NodeDraft, newId: Uuid, now: int)
    requires UpsertNode(g, team, d, newId, now).Ok? && forall k :: !Meets(g, team, d, k)
    ensures
      var (h, id) := UpsertNode(g, team, d, newId, now).value;
      && id == (if d.id == NIL then newId else d.id)
      && id !in g.nodes && h.nodes.Keys == g.nodes.Keys + {id} && h.edges == g.edges
      && (forall k | k in g.nodes :: h.nodes[k] == g.nodes[k])
      && h.nodes[id].team == team && h.nodes[id].kind == d.kind && h.nodes[id].title == d.title
      && h.nodes[id].fields == d.fields && h.nodes[id].createdAt == now
      && (h.nodes[id].status.Permanent? <==> d.status == Some(Permanent))
      && h.nodes[id].externalId
         == if d.externalId.Some? && exists c :: c in d.externalId.value && !IsSpace(c) then d.externalId else None
  {
    forall k ensures Meets(g, team, d, k) <==> OwnsKey(g, team, d.kind, CleanExternalId(d.externalId), k) {
      MeetsIsKey(g, team, d, k);
    }
    if d.externalId.Some? {
      TrimExactly(d.externalId.value);
    }
  }

  /** With one, that row takes the label and properties, and the status unless it is permanent already. */
  lemma UpsertNodeMerges(g: Graph, team: Uuid, d: NodeDraft, newId: Uuid, now: int, k: Uuid)
    requires Constraints(g) && UpsertNode(g, team, d, newId, now).Ok? && Meets(g, team, d, k)
    ensures
      var (h, id) := UpsertNode(g, team, d, newId, now).value;
      && id == k && h.nodes.Keys == g.nodes.Keys && h.edges == g.edges
      && (forall j | j in g.nodes && j != k :: h.nodes[j] == g.nodes[j])
      && h.nodes[k] == g.nodes[k].(title := d.title, fields := d.fields, status := h.nodes[k].status)
      && (h.nodes[k].status.Permanent? <==> g.nodes[k].status.Permanent? || d.status == Some(Permanent))
  {
    MeetsIsKey(g, team, d, k);
    forall j | OwnsKey(g, team, d.kind, CleanExternalId(d.externalId), j) ensures j == k {
      assert SameNodeKey(g.nodes[j], g.nodes[k]);
    }
  }

  /** An edge of the team with the draft's ends and type. */
  ghost predicate Joins(g: Graph, team: Uuid, from: Uuid, to: Uuid, kind: EdgeType, e: Uuid) {
    && e in g.edges && g.edges[e].team == team
    && g.edges[e].from == from && g.edges[e].to == to && g.edges[e].kind == kind
  }

  /** An edge upsert fails exactly for a bad team, missing or equal ends, ends that are not the team's, or a used id. */
  lemma UpsertEdgeErrs(g: Graph, team: Uuid, d: EdgeDraft, newId: Uuid, now: int)
    requires Constraints(g)
    ensures UpsertEdge(g, team, d, newId, now).Err? <==>
      || team == NIL
      || (d.team != NIL && d.team != team)
      || d.from == NIL || d.to == NIL || d.from == d.to
      || !(d.from in g.nodes && g.nodes[d.from].team == team && d.to in g.nodes && g.nodes[d.to].team == team)
      || ((forall e :: !Joins(g, team, d.from, d.to, d.kind, e)) && (if d.id == NIL then newId else d.id) in g.edges)
  {
    assert forall e :: Joins(g, team, d.from, d.to, d.kind, e) <==> OwnsEdgeKey(g, team, d, e);
  }

  /** Afterwards the edge is there, with the draft's weight, or 1 without a positive one; nothing else changed. */
  lemma UpsertEdgeExactly(g: Graph, team: Uuid, d: EdgeDraft, newId: Uuid, now: int)
    requires Constraints(g) && UpsertEdge(g, team, d, newId, now).Ok?
    ensures
      var (h, id) := UpsertEdge(g, team, d, newId, now).value;
      && h.nodes == g.nodes && h.edges.Keys == g.edges.Keys + {id}
      && (forall e | e in g.edges && e != id :: h.edges[e] == g.edges[e])
      && (id in g.edges <==> exists e :: Joins(g, team, d.from, d.to, d.kind, e))
      && Joins(h, team, d.from, d.to, d.kind, id)
      && h.edges[id].weight == (if d.weight > 0.0 then d.weight else 1.0)
      && (h.edges[id].status.Permanent? <==>
            d.status == Some(Permanent) || (id in g.edges && g.edges[id].status.Permanent?))
      && h.edges[id].createdAt == (if id in g.edges then g.edges[id].createdAt else now)
  {
    assert forall e :: Joins(g, team, d.from, d.to, d.kind, e) <==> OwnsEdgeKey(g, team, d, e);
    var (h, id) := UpsertEdge(g, team, d, newId, now).value;
    if e :| Joins(g, team, d.from, d.to, d.kind, e) {
      assert id in g.edges;
    }
  }

  /** Promotion makes permanent the node, and those of its edges whose other end was permanent; nothing else changes. */
  lemma PromoteNodeExactly(g: Graph, team: Uuid, id: Uuid)
    requires Constraints(g) && PromoteNode(g, team, id).Ok?
    ensures
      var h := PromoteNode(g, team, id).value;
      && h.nodes == g.nodes[id := g.nodes[id].(status := Permanent)]
      && h.edges.Keys == g.edges.Keys
      && (forall e | e in g.edges ::
            h.edges[e] == if (g.edges[e].from == id && (g.edges[e].to == id || g.nodes[g.edges[e].to].status.Permanent?))
                            || (g.edges[e].to == id && g.nodes[g.edges[e].from].status.Permanent?)
                          then g.edges[e].(status := Permanent) else g.edges[e])
  {
  }

  /** Deletion removes the node and exactly the edges that touch it. */
  lemma DeleteNodeExactly(g: Graph, team: Uuid, id: Uuid)
    requires Constraints(g) && DeleteNode(g, team, id).Ok?
    ensures
      var h := DeleteNode(g, team, id).value;
      && h.nodes.Keys == g.nodes.Keys - {id} && (forall n | n in h.nodes :: h.nodes[n] == g.nodes[n])
      && (forall e :: e in h.edges <==> e in g.edges && g.edges[e].from != id && g.edges[e].to != id)
      && (forall e | e in h.edges :: h.edges[e] == g.edges[e])
  {
  }

  /**
   * Upserting the same external id twice meets one row: the second call returns the id of the
   * first, and the row carries the second call's label and properties.
   */
  lemma UpsertNodeIdentity(g: Graph, team: Uuid, c: NodeDraft, d: NodeDraft, i: Uuid, j: Uuid, s: int, t: int)
    requires Constraints(g)
    requires c.kind == d.kind && CleanExternalId(c.externalId) == CleanExternalId(d.externalId)
    requires CleanExternalId(c.externalId).Some?
    requires UpsertNode(g, team, c, i, s).Ok?
    requires UpsertNode(UpsertNode(g, team, c, i, s).value.0, team, d, j, t).Ok?
    ensures
      var first := UpsertNode(g, team, c, i, s).value;
      var second := UpsertNode(first.0, team, d, j, t).value;
      && second.1 == first.1
      && second.0.nodes.Keys == first.0.nodes.Keys
      && second.0.nodes[first.1].title == d.title
      && second.0.nodes[first.1].fields == d.fields
      && (first.0.nodes[first.1].status.Permanent? || DraftStatus(d.status).Permanent?
          <==> second.0.nodes[first.1].status.Permanent?)
      && (forall n | n in g.nodes && n != first.1 :: n in second.0.nodes && second.0.nodes[n] == g.nodes[n])
  {
    UpsertNodeKeepsConstraints(g, team, c, i, s);
    var first := UpsertNode(g, team, c, i, s).value;
    assert OwnsKey(first.0, team, d.kind, CleanExternalId(d.externalId), first.1);
    var k :| OwnsKey(first.0, team, d.kind, CleanExternalId(d.externalId), k)
             && UpsertNode(first.0, team, d, j, t).value.1 == k;
    assert SameNodeKey(first.0.nodes[k], first.0.nodes[first.1]);
  }
}
