/** The PostgreSQL store: each method is proved against the statement it runs. */
module GraphStore {
  import opened Common
  import opened G = GraphModel

  /** The store of one database: each method is one statement or one transaction. */
  class PostgresStore {
    var nodes: map<Uuid, Node>
    var edges: map<Uuid, Edge>

    ghost function View(): Graph
      reads this
    {
      Graph(nodes, edges)
    }

    ghost predicate Valid()
      reads this
    {
      Constraints(View())
    }

    constructor ()
      ensures Valid() && View() == EMPTY
    {
      nodes, edges := map[], map[];
    }

    method UpsertNode(team: Uuid, d: NodeDraft, newId: Uuid, now: int) returns (r: Result<Uuid>)
      requires Valid()
      modifies this
      ensures Valid()
      ensures
        var spec := G.UpsertNode(old(View()), team, d, newId, now);
        match spec
        case Ok(p) => View() == p.0 && r == Ok(p.1)
        case Err(e) => View() == old(View()) && r == Err(e)
    {
      UpsertNodeKeepsConstraints(View(), team, d, newId, now);
      var g := Graph(nodes, edges);
      var id := if d.id == NIL then newId else d.id;
      if team == NIL {
        return Err("team id is required");
      }
      if d.team != NIL && d.team != team {
        return Err("node team does not match");
      }
      if Trim(d.title) == "" {
        return Err("graph node label is required");
      }
      var externalId := CleanExternalId(d.externalId);
      if k :| k in nodes && OwnsKey(g, team, d.kind, externalId, k) {
        assert forall j | OwnsKey(g, team, d.kind, externalId, j) :: SameNodeKey(nodes[j], nodes[k]);
        nodes := nodes[k := MergeNode(nodes[k], d)];
        return Ok(k);
      }
      if id in nodes {
        return Err("duplicate node id");
      }
      nodes := nodes[id := NewNode(team, d, now)];
      r := Ok(id);
    }

    method UpsertEdge(team: Uuid, d: EdgeDraft, newId: Uuid, now: int) returns (r: Result<Uuid>)
      requires Valid()
      modifies this
      ensures Valid()
      ensures
        var spec := G.UpsertEdge(old(View()), team, d, newId, now);
        match spec
        case Ok(p) => View() == p.0 && r == Ok(p.1)
        case Err(e) => View() == old(View()) && r == Err(e)
    {
      UpsertEdgeKeepsConstraints(View(), team, d, newId, now);
      var g := Graph(nodes, edges);
      var id := if d.id == NIL then newId else d.id;
      if team == NIL {
        return Err("team id is required");
      }
      if d.team != NIL && d.team != team {
        return Err("edge team does not match");
      }
      if d.from == NIL {
        return Err("edge from node id is required");
      }
      if d.to == NIL {
        return Err("edge to node id is required");
      }
      if d.from == d.to {
        return Err("edge cannot point to the same node");
      }
      if k :| k in edges && OwnsEdgeKey(g, team, d, k) {
        assert forall j | OwnsEdgeKey(g, team, d, j) :: SameEdgeKey(edges[j], edges[k]);
        edges := edges[k := MergeEdge(edges[k], d)];
        return Ok(k);
      }
      if !NodeOfTeam(g, team, d.from) || !NodeOfTeam(g, team, d.to) {
        return Err("foreign key violation");
      }
      if id in edges {
        return Err("duplicate edge id");
      }
      edges := edges[id := NewEdge(team, d, now)];
      r := Ok(id);
    }

    method PromoteNode(team: Uuid, id: Uuid) returns (r: Result<()>)
      requires Valid()
      modifies this
      ensures Valid()
      ensures
        match G.PromoteNode(old(View()), team, id)
        case Ok(g) => View() == g && r.Ok?
        case Err(e) => View() == old(View()) && r == Err(e)
    {
      PromoteNodeKeepsConstraints(View(), team, id);
      if team == NIL {
        return Err("team id is required");
      }
      if id == NIL {
        return Err("node id is required");
      }
      if !(id in nodes && nodes[id].team == team) {
        return Err("graph node not found");
      }
      nodes := nodes[id := nodes[id].(status := Permanent)];
      edges := map e | e in edges :: PromotedEdge(nodes, team, id, edges[e]);
      r := Ok(());
    }

    method DeleteNode(team: Uuid, id: Uuid) returns (r: Result<()>)
      requires Valid()
      modifies this
      ensures Valid()
      ensures
        match G.DeleteNode(old(View()), team, id)
        case Ok(g) => View() == g && r.Ok?
        case Err(e) => View() == old(View()) && r == Err(e)
    {
      DeleteNodeKeepsConstraints(View(), team, id);
      if team == NIL {
        return Err("team id is required");
      }
      if id == NIL {
        return Err("node id is required");
      }
      if !(id in nodes && nodes[id].team == team) {
        return Err("graph node not found");
      }
      nodes := map n | n in nodes && n != id :: nodes[n];
      edges := map e | e in edges && !(edges[e].team == team && (edges[e].from == id || edges[e].to == id)) :: edges[e];
      r := Ok(());
    }
  }
}
