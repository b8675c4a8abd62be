/**
 * Two-phase write-back: every interleaving of the clients of the graph store, one statement or
 * transaction at a time.
 */
module TwoPhase {
  import opened Common
  import opened GraphModel

  // ---- the clients ---------------------------------------------------------

  /** Where a resolved-incident job stands between two store calls. */
  datatype Stage =
    | Starting                                  // about to upsert the incident's node
    | Upserted(node: Uuid)                      // about to promote it
    | Promoted(node: Uuid)                      // about to search for similar incidents
    | Linking(node: Uuid, matches: seq<Uuid>)   // about to write the similar_to edge to matches[0]
    | AtService(node: Uuid)                     // about to look the service up
    | ToService(node: Uuid, service: Uuid)      // about to write the affects edge
    | AtCommit(node: Uuid)                      // about to upsert the deployment
    | ToCommit(node: Uuid, commit: Uuid)        // about to write the caused_by edge
    | Finished

  datatype Job = Job(team: Uuid, incident: string, service: string, commit: Option<string>, at: Stage)

  /** used: every row id drawn so far; uuid.New() never repeats one. */
  datatype State = State(graph: Graph, jobs: map<nat, Job>, used: set<Uuid>)

  const INIT: State := State(EMPTY, map[], {})

  datatype Action =
    | PendingWrite(team: Uuid, incident: string, title: string, fields: Fields, newId: Uuid, now: int)
    | CreateService(team: Uuid, name: string, title: string, fields: Fields, newId: Uuid, now: int)
    | AdminPromote(team: Uuid, node: Uuid)
    | Delete(team: Uuid, node: Uuid)
    | Spawn(job: nat, team: Uuid, incident: string, service: string, commit: Option<string>)
    | Crash(job: nat)
    /** Job job makes its next store call; fails when the database returns an error. */
    | Advance(job: nat, fails: bool, matches: seq<Uuid>, title: string, fields: Fields, weight: real, newId: Uuid, now: int)

  ghost predicate Fresh(s: State, id: Uuid) {
    id != NIL && id !in s.used
  }

  ghost predicate Enabled(s: State, a: Action) {
    match a
    case PendingWrite(_, _, _, _, newId, _) => Fresh(s, newId)
    case CreateService(_, _, _, _, newId, _) => Fresh(s, newId)
    case AdminPromote(_, _) => true
    case Delete(_, _) => true
    case Spawn(j, _, _, _, _) => j !in s.jobs
    case Crash(j) => j in s.jobs
    case Advance(j, fails, matches, _, _, _, newId, _) =>
      && j in s.jobs
      && Fresh(s, newId)
      && (s.jobs[j].at.Promoted? && !fails ==>
            forall m | m in matches :: Candidate(s.graph, s.jobs[j].team, s.jobs[j].at.node, m))
  }

  function IncidentDraft(incident: string, title: string, fields: Fields): NodeDraft {
    NodeDraft(NIL, NIL, Incident, Some(Pending), title, Some(incident), fields)
  }

  function ServiceDraft(name: string, title: string, fields: Fields): NodeDraft {
    NodeDraft(NIL, NIL, Service, Some(Permanent), title, Some(name), fields)
  }

  function DeploymentDraft(sha: string, title: string, fields: Fields): NodeDraft {
    NodeDraft(NIL, NIL, Deployment, Some(Permanent), title, Some(sha), fields)
  }

  function Link(from: Uuid, to: Uuid, kind: EdgeType, weight: real): EdgeDraft {
    EdgeDraft(NIL, NIL, from, to, kind, Some(Permanent), weight)
  }

  /** The graph and the row id after an upsert; a failed one leaves the graph alone. */
  ghost function TryNode(g: Graph, team: Uuid, d: NodeDraft, newId: Uuid, now: int): (Graph, Option<Uuid>) {
    var r := UpsertNode(g, team, d, newId, now);
    if r.Ok? then (r.value.0, Some(r.value.1)) else (g, None)
  }

  ghost function TryEdge(g: Graph, team: Uuid, d: EdgeDraft, newId: Uuid, now: int): Graph {
    var r := UpsertEdge(g, team, d, newId, now);
    if r.Ok? then r.value.0 else g
  }

  /** The next store call of a job, and the stage it leads to; every error is fail-open. */
  ghost function JobStep(g: Graph, job: Job, a: Action): (Graph, Stage)
    requires a.Advance?
  {
    match job.at
    case Starting =>
      var (h, id) := TryNode(g, job.team, IncidentDraft(job.incident, a.title, a.fields), a.newId, a.now);
      if a.fails || id.None? then (g, Finished) else (h, Upserted(id.value))
    case Upserted(node) =>
      var r := PromoteNode(g, job.team, node);
      if a.fails || r.Err? then (g, Finished) else (r.value, Promoted(node))
    case Promoted(node) =>
      if a.fails || node !in g.nodes then (g, AtService(node)) else (g, Linking(node, a.matches))
    case Linking(node, matches) =>
      if matches == [] then (g, AtService(node))
      else
        var h := TryEdge(g, job.team, Link(node, matches[0], SimilarTo, a.weight), a.newId, a.now);
        (if a.fails then g else h, Linking(node, matches[1..]))
    case AtService(node) =>
      if !a.fails && exists k :: OwnsKey(g, job.team, Service, Some(job.service), k) then
        var k :| OwnsKey(g, job.team, Service, Some(job.service), k);
        (g, ToService(node, k))
      else (g, AtCommit(node))
    case ToService(node, service) =>
      var h := TryEdge(g, job.team, Link(node, service, Affects, 1.0), a.newId, a.now);
      (if a.fails then g else h, AtCommit(node))
    case AtCommit(node) =>
      if job.commit.None? || Trim(job.commit.value) == "" then (g, Finished)
      else
        var (h, id) :=
          TryNode(g, job.team, DeploymentDraft(Trim(job.commit.value), a.title, a.fields), a.newId, a.now);
        if a.fails || id.None? then (g, Finished) else (h, ToCommit(node, id.value))
    case ToCommit(node, commit) =>
      var h := TryEdge(g, job.team, Link(node, commit, CausedBy, 1.0), a.newId, a.now);
      (if a.fails then g else h, Finished)
    case Finished => (g, Finished)
  }

  ghost function Apply(s: State, a: Action): State
    requires Enabled(s, a)
  {
    match a
    case PendingWrite(team, incident, title, fields, newId, now) =>
      s.(graph := TryNode(s.graph, team, IncidentDraft(incident, title, fields), newId, now).0,
         used := s.used + {newId})
    case CreateService(team, name, title, fields, newId, now) =>
      s.(graph := TryNode(s.graph, team, ServiceDraft(name, title, fields), newId, now).0,
         used := s.used + {newId})
    case AdminPromote(team, node) =>
      var r := PromoteNode(s.graph, team, node);
      if r.Ok? then s.(graph := r.value) else s
    case Delete(team, node) =>
      var r := DeleteNode(s.graph, team, node);
      if r.Ok? then s.(graph := r.value) else s
    case Spawn(j, team, incident, service, commit) =>
      s.(jobs := s.jobs[j := Job(team, incident, service, commit, Starting)])
    case Crash(j) =>
      s.(jobs := s.jobs - {j})
    case Advance(j, _, _, _, _, _, newId, _) =>
      var (h, stage) := JobStep(s.graph, s.jobs[j], a);
      State(h, s.jobs[j := s.jobs[j].(at := stage)], s.used + {newId})
  }

  ghost predicate Next(s: State, t: State) {
    exists a :: Enabled(s, a) && t == Apply(s, a)
  }

  ghost predicate IsRun(run: seq<State>) {
    && |run| > 0
    && run[0] == INIT
    && forall i | 0 < i < |run| :: Next(run[i - 1], run[i])
  }

  // ---- the invariant --------------------------------------------------------

  /** The tables: constraints hold, and nothing but incidents and alerts is ever pending. */
  ghost predicate TablesOk(g: Graph, used: set<Uuid>) {
    && Constraints(g)
    && g.nodes.Keys <= used
    && g.edges.Keys <= used
    && NIL !in used
    && (forall n | n in g.nodes && (g.nodes[n].kind.Service? || g.nodes[n].kind.Deployment?) ::
          g.nodes[n].status.Permanent?)
    && (forall e | e in g.edges ::
          && g.edges[e].status.Permanent?
          && PermanentNode(g, g.edges[e].team, g.edges[e].from)
          && PermanentNode(g, g.edges[e].team, g.edges[e].to)
          && g.edges[e].from != g.edges[e].to)
  }

  /** id was permanent when a job learned of it: it still is, or it is gone for good. */
  ghost predicate Settled(g: Graph, used: set<Uuid>, team: Uuid, id: Uuid) {
    id in used && (id in g.nodes ==> PermanentNode(g, team, id))
  }

  ghost predicate JobOk(g: Graph, used: set<Uuid>, job: Job) {
    match job.at
    case Starting => true
    case Upserted(_) => true
    case Promoted(node) => Settled(g, used, job.team, node)
    case Linking(node, matches) =>
      Settled(g, used, job.team, node) && forall m | m in matches :: Settled(g, used, job.team, m)
    case AtService(node) => Settled(g, used, job.team, node)
    case ToService(node, service) => Settled(g, used, job.team, node) && Settled(g, used, job.team, service)
    case AtCommit(node) => Settled(g, used, job.team, node)
    case ToCommit(node, commit) => Settled(g, used, job.team, node) && Settled(g, used, job.team, commit)
    case Finished => true
  }

  ghost predicate Inv(s: State) {
    && TablesOk(s.graph, s.used)
    && forall j | j in s.jobs :: JobOk(s.graph, s.used, s.jobs[j])
  }

  /** What one step may do to rows that were known before it. */
  ghost predicate Evolves(g: Graph, h: Graph, used: set<Uuid>) {
    && (forall n | n in h.nodes && n in used ::
          && n in g.nodes
          && h.nodes[n].team == g.nodes[n].team
          && (g.nodes[n].status.Permanent? ==> h.nodes[n].status.Permanent?))
    && (forall e | e in h.edges && e in used ::
          && e in g.edges
          && (g.edges[e].status.Permanent? ==> h.edges[e].status.Permanent?))
  }

  // ---- each statement keeps the invariant ---------------------------------------

  lemma NodeStep(g: Graph, used: set<Uuid>, team: Uuid, d: NodeDraft, newId: Uuid, now: int)
    requires TablesOk(g, used) && newId !in used && newId != NIL && d.id == NIL
    requires d.kind.Service? || d.kind.Deployment? ==> d.status == Some(Permanent)
    ensures
      var (h, id) := TryNode(g, team, d, newId, now);
      && TablesOk(h, used + {newId})
      && Evolves(g, h, used)
      && (id.Some? ==> id.value in h.nodes && h.nodes[id.value].team == team)
      && (id.Some? && d.status == Some(Permanent) ==> Settled(h, used + {newId}, team, id.value))
  {
    UpsertNodeKeepsConstraints(g, team, d, newId, now);
  }

  lemma EdgeStep(g: Graph, used: set<Uuid>, team: Uuid, d: EdgeDraft, newId: Uuid, now: int)
    requires TablesOk(g, used) && newId !in used && newId != NIL && d.id == NIL
    requires d.status == Some(Permanent)
    requires Settled(g, used, team, d.from) && Settled(g, used, team, d.to)
    ensures
      var h := TryEdge(g, team, d, newId, now);
      TablesOk(h, used + {newId}) && Evolves(g, h, used)
  {
    UpsertEdgeKeepsConstraints(g, team, d, newId, now);
  }

  lemma PromoteStep(g: Graph, used: set<Uuid>, team: Uuid, node: Uuid)
    requires TablesOk(g, used) && PromoteNode(g, team, node).Ok?
    ensures
      var h := PromoteNode(g, team, node).value;
      TablesOk(h, used) && Evolves(g, h, used) && Settled(h, used, team, node)
  {
    PromoteNodeKeepsConstraints(g, team, node);
  }

  lemma DeleteStep(g: Graph, used: set<Uuid>, team: Uuid, node: Uuid)
    requires TablesOk(g, used) && DeleteNode(g, team, node).Ok?
    ensures
      var h := DeleteNode(g, team, node).value;
      TablesOk(h, used) && Evolves(g, h, used)
  {
    DeleteNodeKeepsConstraints(g, team, node);
  }

  lemma JobsStayOk(g: Graph, h: Graph, used: set<Uuid>, more: set<Uuid>, job: Job)
    requires JobOk(g, used, job) && Evolves(g, h, used) && used <= more
    ensures JobOk(h, more, job)
  {
  }

  lemma JobStepKeeps(s: State, a: Action)
    requires Inv(s) && Enabled(s, a) && a.Advance?
    ensures
      var t := Apply(s, a);
      && TablesOk(t.graph, t.used)
      && Evolves(s.graph, t.graph, s.used)
      && JobOk(t.graph, t.used, t.jobs[a.job])
  {
    hide TryEdge, PromoteNode, UpsertNode, Constraints;
    var g, job := s.graph, s.jobs[a.job];
    match job.at
    case Starting =>
      NodeStep(g, s.used, job.team, IncidentDraft(job.incident, a.title, a.fields), a.newId, a.now);
    case Upserted(node) =>
      if PromoteNode(g, job.team, node).Ok? {
        PromoteStep(g, s.used, job.team, node);
      }
    case Promoted(node) =>
    case Linking(node, matches) =>
      if matches != [] {
        assert matches[0] in matches;
        assert forall m | m in matches[1..] :: m in matches;
        EdgeStep(g, s.used, job.team, Link(node, matches[0], SimilarTo, a.weight), a.newId, a.now);
      }
    case AtService(node) =>
    case ToService(node, service) =>
      EdgeStep(g, s.used, job.team, Link(node, service, Affects, 1.0), a.newId, a.now);
    case AtCommit(node) =>
      if job.commit.Some? {
        NodeStep(g, s.used, job.team, DeploymentDraft(Trim(job.commit.value), a.title, a.fields), a.newId, a.now);
      }
    case ToCommit(node, commit) =>
      EdgeStep(g, s.used, job.team, Link(node, commit, CausedBy, 1.0), a.newId, a.now);
    case Finished =>
  }

  lemma StepKeeps(s: State, a: Action)
    requires Inv(s) && Enabled(s, a)
    ensures var t := Apply(s, a);
      Inv(t) && Evolves(s.graph, t.graph, s.used) && s.used <= t.used
  {
    var t := Apply(s, a);
    match a {
      case PendingWrite(team, incident, title, fields, newId, now) =>
        NodeStep(s.graph, s.used, team, IncidentDraft(incident, title, fields), newId, now);
      case CreateService(team, name, title, fields, newId, now) =>
        NodeStep(s.graph, s.used, team, ServiceDraft(name, title, fields), newId, now);
      case AdminPromote(team, node) =>
        if PromoteNode(s.graph, team, node).Ok? {
          PromoteStep(s.graph, s.used, team, node);
        }
      case Delete(team, node) =>
        if DeleteNode(s.graph, team, node).Ok? {
          DeleteStep(s.graph, s.used, team, node);
        }
      case Spawn(_, _, _, _, _) =>
      case Crash(_) =>
      case Advance(_, _, _, _, _, _, _, _) =>
        JobStepKeeps(s, a);
    }
    forall j | j in t.jobs ensures JobOk(t.graph, t.used, t.jobs[j]) {
      if j in s.jobs && t.jobs[j] == s.jobs[j] {
        JobsStayOk(s.graph, t.graph, s.used, t.used, s.jobs[j]);
      }
    }
  }

  lemma NextKeeps(s: State, t: State)
    requires Inv(s) && Next(s, t)
    ensures Inv(t) && Evolves(s.graph, t.graph, s.used) && s.used <= t.used
  {
    var a :| Enabled(s, a) && t == Apply(s, a);
    StepKeeps(s, a);
  }

  lemma EvolvesOn(f: Graph, g: Graph, h: Graph, used: set<Uuid>, more: set<Uuid>)
    requires Evolves(f, g, used) && Evolves(g, h, more) && used <= more
    ensures Evolves(f, h, used)
  {
  }

  // ---- safety over whole runs -------------------------------------------------

  lemma {:induction false} InvHolds(run: seq<State>, i: nat)
    requires IsRun(run) && i < |run|
    ensures Inv(run[i])
  {
    if i > 0 {
      InvHolds(run, i - 1);
      NextKeeps(run[i - 1], run[i]);
    }
  }

  /** In every reachable state edges join distinct permanent nodes, and an external id names one node. */
  lemma GraphIsClean(run: seq<State>, i: nat)
    requires IsRun(run) && i < |run|
    ensures
      var g := run[i].graph;
      && (forall e | e in g.edges ::
            && g.edges[e].status.Permanent?
            && PermanentNode(g, g.edges[e].team, g.edges[e].from)
            && PermanentNode(g, g.edges[e].team, g.edges[e].to)
            && g.edges[e].from != g.edges[e].to)
      && UniqueNodes(g.nodes)
      && UniqueEdges(g.edges)
  {
    InvHolds(run, i);
  }

  /** Promotion is for ever: a row once permanent is permanent whenever it is seen again. */
  lemma {:induction false} NeverDemoted(run: seq<State>, i: nat, k: nat)
    requires IsRun(run) && i <= k < |run|
    ensures run[i].used <= run[k].used
    ensures Evolves(run[i].graph, run[k].graph, run[i].used)
    ensures run[i].graph.nodes.Keys <= run[i].used && run[i].graph.edges.Keys <= run[i].used
  {
    hide Next, Constraints, PermanentNode;
    InvHolds(run, i);
    if i < k {
      NeverDemoted(run, i, k - 1);
      InvHolds(run, k - 1);
      NextKeeps(run[k - 1], run[k]);
      EvolvesOn(run[i].graph, run[k - 1].graph, run[k].graph, run[i].used, run[k - 1].used);
    }
  }

  // ---- what the store alone gives ----------------------------------------------

  /** Permanent edges join permanent nodes. */
  ghost predicate Clean(g: Graph) {
    forall e | e in g.edges && g.edges[e].status.Permanent? ::
      PermanentNode(g, g.edges[e].team, g.edges[e].from) && PermanentNode(g, g.edges[e].team, g.edges[e].to)
  }

  /** An edge upsert keeps the graph clean exactly when it asks for no permanent edge to a pending node. */
  lemma UpsertEdgeCleanExactly(g: Graph, team: Uuid, d: EdgeDraft, newId: Uuid, now: int)
    requires Constraints(g) && Clean(g) && UpsertEdge(g, team, d, newId, now).Ok?
    ensures Clean(UpsertEdge(g, team, d, newId, now).value.0) <==>
      (d.status == Some(Permanent) ==> PermanentNode(g, team, d.from) && PermanentNode(g, team, d.to))
  {
    var (h, id) := UpsertEdge(g, team, d, newId, now).value;
    assert h.edges[id].team == team && h.edges[id].from == d.from && h.edges[id].to == d.to;
  }

  /** Node upserts, promotions and deletions keep it clean whatever they are asked. */
  lemma NodeStatementsKeepClean(g: Graph, team: Uuid, d: NodeDraft, node: Uuid, newId: Uuid, now: int)
    requires Constraints(g) && Clean(g)
    ensures UpsertNode(g, team, d, newId, now).Ok? ==> Clean(UpsertNode(g, team, d, newId, now).value.0)
    ensures PromoteNode(g, team, node).Ok? ==> Clean(PromoteNode(g, team, node).value)
    ensures DeleteNode(g, team, node).Ok? ==> Clean(DeleteNode(g, team, node).value)
  {
  }

  /** A permanent edge to a pending node that the store accepts: GraphIsClean rests on its writers' discipline. */
  lemma StoreAcceptsDirtyEdge() returns (g: Graph, d: EdgeDraft)
    ensures Constraints(g) && Clean(g) && UpsertEdge(g, 1, d, 9, 0).Ok?
    ensures !Clean(UpsertEdge(g, 1, d, 9, 0).value.0)
  {
    var n := Node(1, Incident, Pending, "a", None, Fields("", "", "", "", "", ""), 0);
    g := Graph(map[2 := n, 3 := n], map[]);
    d := Link(2, 3, SimilarTo, 1.0);
    assert forall k :: !OwnsEdgeKey(g, 1, d, k);
    UpsertEdgeCleanExactly(g, 1, d, 9, 0);
  }
}
