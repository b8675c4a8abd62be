/** What a resolved-incident job writes when it is left alone and no store call fails. */
module WriteBack {
  import opened Common
  import opened GraphModel
  import opened TwoPhase

  /** s.graph and everything in it is still there in t.graph: rows are added, merged or promoted, never removed. */
  ghost predicate Extends(g: Graph, h: Graph) {
    && (forall n | n in g.nodes ::
          && n in h.nodes && h.nodes[n].team == g.nodes[n].team && h.nodes[n].kind == g.nodes[n].kind
          && h.nodes[n].externalId == g.nodes[n].externalId
          && (g.nodes[n].status.Permanent? ==> h.nodes[n].status.Permanent?))
    && (forall e | e in g.edges ::
          && e in h.edges && h.edges[e].team == g.edges[e].team && h.edges[e].kind == g.edges[e].kind
          && h.edges[e].from == g.edges[e].from && h.edges[e].to == g.edges[e].to
          && (g.edges[e].status.Permanent? ==> h.edges[e].status.Permanent?))
  }

  /** A permanent edge of the team. */
  ghost predicate Linked(g: Graph, team: Uuid, from: Uuid, to: Uuid, kind: EdgeType) {
    exists e :: Joins(g, team, from, to, kind, e) && g.edges[e].status.Permanent?
  }

  lemma ExtendsOn(f: Graph, g: Graph, h: Graph)
    requires Extends(f, g) && Extends(g, h)
    ensures Extends(f, h)
  {
  }

  lemma StaysPermanent(g: Graph, h: Graph, team: Uuid, n: Uuid)
    requires Extends(g, h) && PermanentNode(g, team, n)
    ensures PermanentNode(h, team, n)
  {
  }

  lemma LinksStay(g: Graph, h: Graph, team: Uuid, from: Uuid, to: Uuid, kind: EdgeType)
    requires Extends(g, h) && Linked(g, team, from, to, kind)
    ensures Linked(h, team, from, to, kind)
  {
    var e :| Joins(g, team, from, to, kind, e) && g.edges[e].status.Permanent?;
    assert Joins(h, team, from, to, kind, e);
  }

  // ---- the statements ------------------------------------------------------------------

  lemma NodeWritten(g: Graph, team: Uuid, d: NodeDraft, newId: Uuid, now: int, name: string)
    requires Constraints(g) && team != NIL && d.team == NIL && d.id == NIL && newId !in g.nodes
    requires Trim(d.title) != "" && Trim(name) != "" && d.externalId == Some(name)
    ensures
      var (h, id) := TryNode(g, team, d, newId, now);
      && id.Some? && Extends(g, h)
      && id.value in h.nodes && h.nodes[id.value].team == team && h.nodes[id.value].kind == d.kind
      && h.nodes[id.value].externalId == Some(name) && h.nodes[id.value].title == d.title
      && (d.status == Some(Permanent) ==> h.nodes[id.value].status.Permanent?)
      && (id.value in g.nodes ==> g.nodes[id.value].externalId == Some(name))
  {
    TrimExactly(d.title);
    TrimExactly(name);
    UpsertNodeErrs(g, team, d, newId, now);
    if k :| Meets(g, team, d, k) {
      UpsertNodeMerges(g, team, d, newId, now, k);
    } else {
      UpsertNodeInserts(g, team, d, newId, now);
    }
  }

  lemma EdgeWritten(g: Graph, team: Uuid, from: Uuid, to: Uuid, kind: EdgeType, weight: real, newId: Uuid, now: int)
    requires Constraints(g) && team != NIL && from != NIL && to != NIL && from != to && newId !in g.edges
    requires PermanentNode(g, team, from) && PermanentNode(g, team, to)
    ensures
      var h := TryEdge(g, team, Link(from, to, kind, weight), newId, now);
      Extends(g, h) && Linked(h, team, from, to, kind)
  {
    UpsertEdgeErrs(g, team, Link(from, to, kind, weight), newId, now);
    UpsertEdgeExactly(g, team, Link(from, to, kind, weight), newId, now);
  }

  lemma Promotes(g: Graph, team: Uuid, id: Uuid)
    requires Constraints(g) && team != NIL && id != NIL && id in g.nodes && g.nodes[id].team == team
    ensures PromoteNode(g, team, id).Ok?
    ensures var h := PromoteNode(g, team, id).value;
      Extends(g, h) && PermanentNode(h, team, id) && h.nodes[id] == g.nodes[id].(status := Permanent)
  {
    PromoteNodeExactly(g, team, id);
  }

  // ---- the job's steps ---------------------------------------------------------------------

  /** Job j and nobody else makes its next store call, and it succeeds. */
  ghost predicate Step(s: State, t: State, j: nat) {
    exists a: Action :: a.Advance? && a.job == j && !a.fails && Enabled(s, a) && t == Apply(s, a)
  }

  ghost predicate Continues(s: State, path: seq<State>, j: nat) {
    && |path| > 0
    && path[0] == s
    && forall i | 0 < i < |path| :: Step(path[i - 1], path[i], j)
  }

  /** The job's state in s, under the protocol's invariant. */
  ghost predicate At(s: State, j: nat, job: Job, at: Stage) {
    Inv(s) && j in s.jobs && s.jobs[j] == job.(at := at)
  }

  function Last(path: seq<State>): State
    requires path != []
  {
    path[|path| - 1]
  }

  lemma Extend(s: State, path: seq<State>, j: nat, job: Job, at: Stage, matches: seq<Uuid>, title: string)
    returns (longer: seq<State>, a: Action)
    requires Continues(s, path, j) && At(Last(path), j, job, at)
    requires at.Promoted? ==> forall m | m in matches :: Candidate(Last(path).graph, job.team, at.node, m)
    ensures a.Advance? && a.job == j && !a.fails && a.title == title && a.matches == matches
    ensures Fresh(Last(path), a.newId) && Enabled(Last(path), a)
    ensures Continues(s, longer, j) && longer != [] && Last(longer) == Apply(Last(path), a) && Inv(Last(longer))
  {
    hide Inv;
    var t := Last(path);
    var id := Above(t.used);
    a := Advance(j, false, matches, title, Fields("", "", "", "", "", ""), 1.0, id, 0);
    StepKeeps(t, a);
    hide Apply;
    longer := path + [Apply(t, a)];
    assert Step(t, Apply(t, a), j);
  }

  lemma FreshRows(s: State, id: Uuid)
    requires Inv(s) && Fresh(s, id)
    ensures Constraints(s.graph) && id !in s.graph.nodes && id !in s.graph.edges && NIL !in s.graph.nodes
  {
  }

  /** The incident's node is upserted and promoted. */
  lemma Promoting(s: State, path: seq<State>, j: nat, job: Job, title: string)
    returns (longer: seq<State>, node: Uuid)
    requires Continues(s, path, j) && At(Last(path), j, job, Starting)
    requires job.team != NIL && Trim(job.incident) != "" && Trim(title) != ""
    ensures Continues(s, longer, j) && At(Last(longer), j, job, Promoted(node))
    ensures Extends(Last(path).graph, Last(longer).graph)
    ensures
      var h := Last(longer).graph;
      && PermanentNode(h, job.team, node) && h.nodes[node].kind.Incident?
      && h.nodes[node].externalId == Some(job.incident) && h.nodes[node].title == title
    ensures node in Last(path).graph.nodes ==> Last(path).graph.nodes[node].externalId == Some(job.incident)
  {
    hide Inv, Constraints, TryNode, PromoteNode, Extends;
    var g := Last(path).graph;
    var a;
    longer, a := Extend(s, path, j, job, Starting, [], title);
    FreshRows(Last(path), a.newId);
    NodeWritten(g, job.team, IncidentDraft(job.incident, a.title, a.fields), a.newId, a.now, job.incident);
    var mid := Last(longer);
    node := mid.jobs[j].at.node;
    longer, a := Extend(s, longer, j, job, Upserted(node), [], title);
    FreshRows(mid, a.newId);
    Promotes(mid.graph, job.team, node);
    ExtendsOn(g, mid.graph, Last(longer).graph);
  }

  /** One edge to each match, in order. */
  lemma {:induction false} LinkingAll(s: State, path: seq<State>, j: nat, job: Job, node: Uuid, matches: seq<Uuid>)
    returns (longer: seq<State>)
    requires Continues(s, path, j) && At(Last(path), j, job, Linking(node, matches))
    requires job.team != NIL && PermanentNode(Last(path).graph, job.team, node)
    requires forall m | m in matches :: m != node && PermanentNode(Last(path).graph, job.team, m)
    ensures Continues(s, longer, j) && At(Last(longer), j, job, Linking(node, []))
    ensures Extends(Last(path).graph, Last(longer).graph)
    ensures forall m | m in matches :: Linked(Last(longer).graph, job.team, node, m, SimilarTo)
    decreases |matches|
  {
    hide Inv, Constraints, TryEdge, Linked;
    if matches == [] {
      longer := path;
    } else {
      var g, m := Last(path).graph, matches[0];
      assert m in matches && matches == [m] + matches[1..];
      var a;
      longer, a := Extend(s, path, j, job, Linking(node, matches), [], "");
      FreshRows(Last(path), a.newId);
      EdgeWritten(g, job.team, node, m, SimilarTo, a.weight, a.newId, a.now);
      var mid := Last(longer).graph;
      forall n | n == node || n in matches[1..] ensures PermanentNode(mid, job.team, n) {
        StaysPermanent(g, mid, job.team, n);
      }
      hide Continues, Apply;
      longer := LinkingAll(s, longer, j, job, node, matches[1..]);
      LinksStay(mid, Last(longer).graph, job.team, node, m, SimilarTo);
      ExtendsOn(g, mid, Last(longer).graph);
    }
  }

  // ---- the service and the commit ---------------------------------------------------------

  /** The team's node of the service's name, if it has one. */
  ghost predicate ServiceNode(g: Graph, job: Job, k: Uuid) {
    k in g.nodes && g.nodes[k].team == job.team && g.nodes[k].kind.Service? && g.nodes[k].externalId == Some(job.service)
  }

  lemma OneServiceNode(g: Graph, used: set<Uuid>, job: Job, node: Uuid, k: Uuid)
    requires TablesOk(g, used) && ServiceNode(g, job, k) && PermanentNode(g, job.team, node) && g.nodes[node].kind.Incident?
    ensures PermanentNode(g, job.team, k) && k != node && k != NIL && node != NIL
    ensures forall other | ServiceNode(g, job, other) :: other == k
  {
    forall other | ServiceNode(g, job, other) ensures other == k {
      assert SameNodeKey(g.nodes[other], g.nodes[k]);
    }
  }

  lemma ServiceLinked(s: State, path: seq<State>, j: nat, job: Job, node: Uuid) returns (longer: seq<State>)
    requires Continues(s, path, j) && At(Last(path), j, job, AtService(node))
    requires job.team != NIL && PermanentNode(Last(path).graph, job.team, node)
    requires Last(path).graph.nodes[node].kind.Incident?
    ensures Continues(s, longer, j) && longer != [] && At(Last(longer), j, job, AtCommit(node))
    ensures Extends(Last(path).graph, Last(longer).graph)
    ensures forall k | ServiceNode(Last(path).graph, job, k) :: Linked(Last(longer).graph, job.team, node, k, Affects)
  {
    hide Constraints, TryEdge, Linked, JobOk, TablesOk;
    var g, used := Last(path).graph, Last(path).used;
    var a;
    longer, a := Extend(s, path, j, job, AtService(node), [], "");
    assert forall k :: ServiceNode(g, job, k) <==> OwnsKey(g, job.team, Service, Some(job.service), k);
    if Last(longer).jobs[j].at.ToService? {
      var mid := Last(longer);
      var k := mid.jobs[j].at.service;
      assert mid.graph == g && ServiceNode(g, job, k) && At(mid, j, job, ToService(node, k));
      OneServiceNode(g, used, job, node, k);
      longer, a := Extend(s, longer, j, job, ToService(node, k), [], "");
      FreshRows(mid, a.newId);
      EdgeWritten(g, job.team, node, k, Affects, 1.0, a.newId, a.now);
    }
  }

  /** A job that names a deployment to blame. */
  predicate Blames(job: Job) {
    job.commit.Some? && Trim(job.commit.value) != ""
  }

  lemma TrimTwice(s: string)
    requires Trim(s) != ""
    ensures Trim(Trim(s)) == Trim(s)
  {
  }

  lemma CommitLinked(s: State, path: seq<State>, j: nat, job: Job, node: Uuid, title: string)
    returns (longer: seq<State>, commit: Uuid)
    requires Continues(s, path, j) && At(Last(path), j, job, AtCommit(node))
    requires job.team != NIL && Trim(title) != "" && PermanentNode(Last(path).graph, job.team, node)
    requires Last(path).graph.nodes[node].kind.Incident?
    ensures Continues(s, longer, j) && longer != [] && At(Last(longer), j, job, Finished)
    ensures Extends(Last(path).graph, Last(longer).graph)
    ensures
      var h := Last(longer).graph;
      Blames(job) ==>
        && Linked(h, job.team, node, commit, CausedBy)
        && commit in h.nodes && h.nodes[commit].kind.Deployment? && h.nodes[commit].externalId == Some(Trim(job.commit.value))
  {
    hide Constraints, TryEdge, TryNode, Linked, Inv, JobOk;
    var g := Last(path).graph;
    var a;
    longer, a := Extend(s, path, j, job, AtCommit(node), [], title);
    commit := NIL;
    if Blames(job) {
      FreshRows(Last(path), a.newId);
      TrimTwice(job.commit.value);
      NodeWritten(g, job.team, DeploymentDraft(Trim(job.commit.value), a.title, a.fields), a.newId, a.now, Trim(job.commit.value));
      var mid := Last(longer);
      commit := mid.jobs[j].at.commit;
      StaysPermanent(g, mid.graph, job.team, node);
      longer, a := Extend(s, longer, j, job, ToCommit(node, commit), [], "");
      FreshRows(mid, a.newId);
      EdgeWritten(mid.graph, job.team, node, commit, CausedBy, 1.0, a.newId, a.now);
      ExtendsOn(g, mid.graph, Last(longer).graph);
    }
  }

  // ---- the whole job --------------------------------------------------------------------------

  /**
   * A resolved-incident job left alone, with no failing call, finishes with the incident's node permanent
   * and linked to every match, to the node of its service, and to the deployment it blames.
   */
  lemma UndisturbedJob(s: State, j: nat, title: string, matches: seq<Uuid>)
    returns (path: seq<State>, node: Uuid, commit: Uuid)
    requires Inv(s) && j in s.jobs && s.jobs[j].at.Starting?
    requires s.jobs[j].team != NIL && Trim(s.jobs[j].incident) != "" && Trim(title) != ""
    requires forall m | m in matches ::
      && PermanentNode(s.graph, s.jobs[j].team, m) && s.graph.nodes[m].kind.Incident?
      && s.graph.nodes[m].externalId != Some(s.jobs[j].incident)
    ensures Continues(s, path, j) && path != [] && At(Last(path), j, s.jobs[j], Finished)
    ensures
      var job, h := s.jobs[j], Last(path).graph;
      && Extends(s.graph, h)
      && PermanentNode(h, job.team, node) && h.nodes[node].kind.Incident? && h.nodes[node].externalId == Some(job.incident)
      && (forall m | m in matches :: Linked(h, job.team, node, m, SimilarTo))
      && (forall k | ServiceNode(s.graph, job, k) :: Linked(h, job.team, node, k, Affects))
      && (Blames(job) ==>
            && Linked(h, job.team, node, commit, CausedBy)
            && commit in h.nodes && h.nodes[commit].kind.Deployment?
            && h.nodes[commit].externalId == Some(Trim(job.commit.value)))
  {
    hide Inv, Linked, Extends, Apply, Continues;
    var job := s.jobs[j];
    var g := s.graph;
    path, node := PromotingFirst(s, j, job, title);
    var one := Last(path).graph;
    MatchesReady(g, one, job, node, matches);
    path := LinkingFirst(s, path, j, job, node, matches);
    var two := Last(path).graph;
    Kept(one, two, job, node);
    ExtendsOn(g, one, two);
    path := ServiceLinked(s, path, j, job, node);
    var three := Last(path).graph;
    Kept(two, three, job, node);
    ServicesKnown(g, two, job);
    ExtendsOn(g, two, three);
    path, commit := CommitLinked(s, path, j, job, node, title);
    var h := Last(path).graph;
    Kept(three, h, job, node);
    ExtendsOn(two, three, h);
    ExtendsOn(g, three, h);
    forall m | m in matches ensures Linked(h, job.team, node, m, SimilarTo) {
      LinksStay(two, h, job.team, node, m, SimilarTo);
    }
    forall k | ServiceNode(g, job, k) ensures Linked(h, job.team, node, k, Affects) {
      LinksStay(three, h, job.team, node, k, Affects);
    }
  }

  lemma PromotingFirst(s: State, j: nat, job: Job, title: string) returns (path: seq<State>, node: Uuid)
    requires At(s, j, job, Starting)
    requires job.team != NIL && Trim(job.incident) != "" && Trim(title) != ""
    ensures Continues(s, path, j) && path != [] && At(Last(path), j, job, Promoted(node))
    ensures Extends(s.graph, Last(path).graph)
    ensures
      var h := Last(path).graph;
      && PermanentNode(h, job.team, node) && h.nodes[node].kind.Incident?
      && h.nodes[node].externalId == Some(job.incident)
    ensures node in s.graph.nodes ==> s.graph.nodes[node].externalId == Some(job.incident)
  {
    path, node := Promoting(s, [s], j, job, title);
  }

  /** The search returns the matches, and they are linked one by one. */
  lemma LinkingFirst(s: State, path: seq<State>, j: nat, job: Job, node: Uuid, matches: seq<Uuid>) returns (longer: seq<State>)
    requires Continues(s, path, j) && At(Last(path), j, job, Promoted(node))
    requires job.team != NIL && PermanentNode(Last(path).graph, job.team, node)
    requires forall m | m in matches :: Candidate(Last(path).graph, job.team, node, m)
    ensures Continues(s, longer, j) && longer != [] && At(Last(longer), j, job, AtService(node))
    ensures Extends(Last(path).graph, Last(longer).graph)
    ensures forall m | m in matches :: Linked(Last(longer).graph, job.team, node, m, SimilarTo)
  {
    hide Inv, Linked, Extends;
    var a;
    longer, a := Extend(s, path, j, job, Promoted(node), matches, "");
    assert Last(longer).graph == Last(path).graph;
    longer := LinkingAll(s, longer, j, job, node, matches);
    var linked := Last(longer).graph;
    longer, a := Extend(s, longer, j, job, Linking(node, []), [], "");
    assert Last(longer).graph == linked;
  }

  lemma MatchesReady(g: Graph, h: Graph, job: Job, node: Uuid, matches: seq<Uuid>)
    requires Extends(g, h) && PermanentNode(h, job.team, node) && h.nodes[node].kind.Incident?
    requires h.nodes[node].externalId == Some(job.incident)
    requires forall m | m in matches ::
      && PermanentNode(g, job.team, m) && g.nodes[m].kind.Incident? && g.nodes[m].externalId != Some(job.incident)
    ensures forall m | m in matches :: Candidate(h, job.team, node, m)
  {
  }

  lemma Kept(g: Graph, h: Graph, job: Job, node: Uuid)
    requires Extends(g, h) && PermanentNode(g, job.team, node) && g.nodes[node].kind.Incident?
    requires g.nodes[node].externalId == Some(job.incident)
    ensures PermanentNode(h, job.team, node) && h.nodes[node].kind.Incident?
    ensures h.nodes[node].externalId == Some(job.incident)
  {
  }

  lemma ServicesKnown(g: Graph, h: Graph, job: Job)
    requires Extends(g, h)
    ensures forall k | ServiceNode(g, job, k) :: ServiceNode(h, job, k)
  {
  }

  // ---- before and besides --------------------------------------------------------------------

  /** While an incident is in flight its node is pending, so no search finds it; a permanent one stays so. */
  lemma PendingWriteIsPending(s: State, team: Uuid, incident: string, title: string, fields: Fields, newId: Uuid, now: int)
    requires Inv(s) && Fresh(s, newId) && team != NIL && Trim(incident) != "" && Trim(title) != ""
    ensures
      var h := Apply(s, PendingWrite(team, incident, title, fields, newId, now)).graph;
      && Extends(s.graph, h)
      && exists n ::
           && n in h.nodes && h.nodes[n].team == team && h.nodes[n].kind.Incident?
           && h.nodes[n].externalId == Some(incident) && h.nodes[n].title == title
           && (h.nodes[n].status.Permanent? <==> n in s.graph.nodes && s.graph.nodes[n].status.Permanent?)
  {
    hide Constraints;
    FreshRows(s, newId);
    var d := IncidentDraft(incident, title, fields);
    NodeWritten(s.graph, team, d, newId, now, incident);
    TrimExactly(incident);
    if k :| Meets(s.graph, team, d, k) {
      UpsertNodeMerges(s.graph, team, d, newId, now, k);
    } else {
      UpsertNodeInserts(s.graph, team, d, newId, now);
    }
    var (h, id) := TryNode(s.graph, team, d, newId, now);
    assert h.nodes[id.value].title == title;
  }

  /**
   * Every failure is open: a failed call writes nothing, a job without a permanent node ends, and a failed
   * search, edge or look-up only loses its own edges.
   */
  lemma FailuresAreOpen(s: State, a: Action)
    requires Enabled(s, a) && a.Advance? && a.fails
    ensures
      var t := Apply(s, a);
      var next := t.jobs[a.job].at;
      && t.graph == s.graph
      && match s.jobs[a.job].at
         case Starting => next == Finished
         case Upserted(_) => next == Finished
         case Promoted(node) => next == AtService(node)
         case Linking(node, matches) => next == if matches == [] then AtService(node) else Linking(node, matches[1..])
         case AtService(node) => next == AtCommit(node)
         case ToService(node, _) => next == AtCommit(node)
         case AtCommit(_) => next == Finished
         case ToCommit(_, _) => next == Finished
         case Finished => next == Finished
  {
    hide TryNode, TryEdge, PromoteNode;
  }

  /** A manual promotion makes a node of the team permanent, a deletion removes it, a created service is permanent. */
  lemma ClientsAct(s: State, team: Uuid, node: Uuid)
    requires Inv(s) && team != NIL && node in s.graph.nodes && s.graph.nodes[node].team == team
    ensures PermanentNode(Apply(s, AdminPromote(team, node)).graph, team, node)
    ensures node !in Apply(s, Delete(team, node)).graph.nodes
  {
    assert node != NIL;
    Promotes(s.graph, team, node);
    DeleteNodeExactly(s.graph, team, node);
  }

  lemma ServiceIsPermanent(s: State, team: Uuid, name: string, title: string, fields: Fields, newId: Uuid, now: int)
    requires Inv(s) && Fresh(s, newId) && team != NIL && Trim(name) != "" && Trim(title) != ""
    ensures
      var h := Apply(s, CreateService(team, name, title, fields, newId, now)).graph;
      && Extends(s.graph, h)
      && exists n ::
           && PermanentNode(h, team, n) && h.nodes[n].kind.Service?
           && h.nodes[n].externalId == Some(name) && h.nodes[n].title == title
  {
    hide Constraints;
    FreshRows(s, newId);
    NodeWritten(s.graph, team, ServiceDraft(name, title, fields), newId, now, name);
  }
}
