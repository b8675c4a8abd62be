/** What the health collector reports over any series of observations. */
module K8sHistory {
  import opened Common
  import opened KeyPaths
  import opened K8sHealth

  datatype Observation =
    | PodSeen(pod: Pod)
    | NodeSeen(node: string, conditions: seq<Condition>)
    | PendingSeen(pods: seq<PendingPod>, threshold: int)

  /** Names carry no slash, as Kubernetes demands of them. */
  ghost predicate Named(o: Observation) {
    match o
    case PodSeen(pod) =>
      SlashFree(pod.namespace) && SlashFree(pod.name) && forall c | c in pod.containers :: SlashFree(c.name)
    case NodeSeen(node, _) => SlashFree(node)
    case PendingSeen(pods, _) => forall p | p in pods :: SlashFree(p.namespace) && SlashFree(p.name)
  }

  ghost predicate AllNamed(history: seq<Observation>) {
    forall o | o in history :: Named(o)
  }

  function Marks(o: Observation): seq<Mark>
    requires !o.PodSeen?
  {
    match o
    case NodeSeen(node, conditions) => ConditionMarks(node, conditions)
    case PendingSeen(pods, threshold) => PendingMarks(pods, threshold)
  }

  function KnownOne(seen: set<string>, o: Observation): set<string> {
    if o.PodSeen? then ReconcilePodSpec(seen, o.pod).0 else After(seen, Marks(o))
  }

  function ReportedOne(seen: set<string>, o: Observation): seq<Event> {
    if o.PodSeen? then
      var fired := ReconcilePodSpec(seen, o.pod).1;
      if fired.Some? then [fired.value] else []
    else Fired(seen, Marks(o))
  }

  function Known(seen: set<string>, history: seq<Observation>): set<string>
    decreases |history|
  {
    if history == [] then seen else Known(KnownOne(seen, history[0]), history[1..])
  }

  function Reported(seen: set<string>, history: seq<Observation>): seq<Event>
    decreases |history|
  {
    if history == [] then []
    else ReportedOne(seen, history[0]) + Reported(KnownOne(seen, history[0]), history[1..])
  }

  /** How many events carry a key. */
  function Count(events: seq<Event>, key: string): nat {
    if events == [] then 0 else (if events[0].key == key then 1 else 0) + Count(events[1..], key)
  }

  lemma {:induction false} CountOfBoth(a: seq<Event>, b: seq<Event>, key: string)
    ensures Count(a + b, key) == Count(a, key) + Count(b, key)
  {
    if a == [] {
      assert a + b == b;
    } else {
      assert (a + b)[1..] == a[1..] + b;
      CountOfBoth(a[1..], b, key);
    }
  }

  function One(b: bool): nat {
    if b then 1 else 0
  }

  // ---- one look, in terms of what is observed ---------------------------------------------

  /** The container waits for one of the three failing reasons, and that is not known yet. */
  predicate NewWaiting(seen: set<string>, pod: Pod, c: Container) {
    && c.waiting.Some? && c.waiting.value in ["CrashLoopBackOff", "ImagePullBackOff", "ErrImagePull"]
    && "pod/" + pod.namespace + "/" + pod.name + "/" + c.name + "/" + c.waiting.value !in seen
  }

  /** The container was killed for its memory, and that kill is not known yet. */
  predicate NewOom(seen: set<string>, pod: Pod, c: Container) {
    && c.terminated.Some? && c.terminated.value.reason == "OOMKilled"
    && "pod/" + pod.namespace + "/" + pod.name + "/" + c.name + "/OOMKilled/" + Decimal(c.terminated.value.startedAt) !in seen
  }

  lemma KeyUnderPod(pod: Pod, container: string, more: seq<string>)
    requires more != []
    ensures Key(["pod", pod.namespace, pod.name, container] + more)
         == "pod/" + pod.namespace + "/" + pod.name + "/" + container + "/" + Key(more)
  {
    var a := [container] + more;
    var b := [pod.name] + a;
    var c := [pod.namespace] + b;
    assert ["pod", pod.namespace, pod.name, container] + more == ["pod"] + c;
    KeyStep(container, more);
    KeyStep(pod.name, a);
    KeyStep(pod.namespace, b);
    KeyStep("pod", c);
    hide Key;
  }

  lemma PodKeys(pod: Pod, c: Container, reason: string, startedAt: int)
    ensures Key(WaitingPath(pod, c, reason)) == "pod/" + pod.namespace + "/" + pod.name + "/" + c.name + "/" + reason
    ensures Key(OomPath(pod, c, startedAt))
         == "pod/" + pod.namespace + "/" + pod.name + "/" + c.name + "/OOMKilled/" + Decimal(startedAt)
  {
    hide Key, Decimal;
    KeyUnderPod(pod, c.name, [reason]);
    KeyOfOne(reason);
    assert WaitingPath(pod, c, reason) == ["pod", pod.namespace, pod.name, c.name] + [reason];
    var oom := ["OOMKilled", Decimal(startedAt)];
    KeyUnderPod(pod, c.name, oom);
    assert oom == ["OOMKilled"] + [Decimal(startedAt)];
    KeyStep("OOMKilled", [Decimal(startedAt)]);
    KeyOfOne(Decimal(startedAt));
    assert OomPath(pod, c, startedAt) == ["pod", pod.namespace, pod.name, c.name] + oom;
    var prefix := "pod/" + pod.namespace + "/" + pod.name + "/" + c.name;
    assert prefix + "/" + ("OOMKilled" + "/" + Decimal(startedAt)) == prefix + "/OOMKilled/" + Decimal(startedAt);
  }

  /** A running pod with containers, all of them ready, fires nothing and is cleared; any other is searched in order. */
  lemma PodLookExactly(seen: set<string>, pod: Pod)
    ensures
      var (after, fired) := ReconcilePodSpec(seen, pod);
      if pod.phase == "Running" && pod.containers != [] && (forall c | c in pod.containers :: c.ready) then
        fired == None && after == ClearPodSpec(seen, pod.namespace, pod.name)
      else
        && (fired == None <==> forall c | c in pod.containers :: !NewWaiting(seen, pod, c) && !NewOom(seen, pod, c))
        && after == (if fired.Some? then seen + {fired.value.key} else seen)
  {
    hide Key, WaitingPath, OomPath;
    FirstFailure(seen, pod, pod.containers);
  }

  lemma {:induction false} FirstFailure(seen: set<string>, pod: Pod, containers: seq<Container>)
    ensures FirstUnseen(Failures(pod, containers), seen) == None
      <==> forall c | c in containers :: !NewWaiting(seen, pod, c) && !NewOom(seen, pod, c)
  {
    if containers != [] {
      FirstFailure(seen, pod, containers[1..]);
      ContainerTurn(seen, pod, containers);
      assert containers == [containers[0]] + containers[1..];
      hide Failures, FirstUnseen, NewWaiting, NewOom;
    }
  }

  /** What fires is the waiting failure of the first container, else its memory kill, else what the others fire. */
  lemma ContainerTurn(seen: set<string>, pod: Pod, containers: seq<Container>)
    requires containers != []
    ensures
      var c := containers[0];
      var prefix := "pod/" + pod.namespace + "/" + pod.name + "/" + c.name + "/";
      FirstUnseen(Failures(pod, containers), seen)
      == if NewWaiting(seen, pod, c) then
           Some(Event(if c.waiting.value == "CrashLoopBackOff" then "pod-crash" else "pod-imagepull", "high",
             prefix + c.waiting.value))
         else if NewOom(seen, pod, c) then
           Some(Event("pod-oom", "high", prefix + "OOMKilled/" + Decimal(c.terminated.value.startedAt)))
         else FirstUnseen(Failures(pod, containers[1..]), seen)
  {
    var c := containers[0];
    var prefix := "pod/" + pod.namespace + "/" + pod.name + "/" + c.name + "/";
    if c.waiting.Some? {
      PodKeys(pod, c, c.waiting.value, 0);
      assert "pod/" + pod.namespace + "/" + pod.name + "/" + c.name + "/" + c.waiting.value == prefix + c.waiting.value;
    }
    if c.terminated.Some? {
      PodKeys(pod, c, "", c.terminated.value.startedAt);
      assert "pod/" + pod.namespace + "/" + pod.name + "/" + c.name + "/OOMKilled/" + Decimal(c.terminated.value.startedAt)
          == prefix + ("OOMKilled/" + Decimal(c.terminated.value.startedAt));
      assert prefix + "OOMKilled/" + Decimal(c.terminated.value.startedAt)
          == prefix + ("OOMKilled/" + Decimal(c.terminated.value.startedAt));
    }
    hide Key, WaitingPath, OomPath;
    SkipSeen(WaitingFailure(pod, c), OomFailure(pod, c), seen);
    SkipSeen(ContainerFailures(pod, c), Failures(pod, containers[1..]), seen);
  }

  lemma ConditionKeys(node: string, kind: string)
    ensures Key(ConditionPath(node, kind)) == "node/" + node + "/" + (if kind == "Ready" then "NotReady" else kind)
  {
    hide Key;
    var last := if kind == "Ready" then "NotReady" else kind;
    KeyStep("node", [node] + [last]);
    KeyStep(node, [last]);
    KeyOfOne(last);
    assert ["node"] + ([node] + [last]) == ConditionPath(node, kind);
    assert "node/" + node + "/" + last == "node" + "/" + (node + "/" + last);
  }

  /** A condition is bad when the node is not known to be ready, or known to be under pressure; others are ignored. */
  lemma ConditionExactly(seen: set<string>, node: string, c: Condition)
    ensures
      var marks := ConditionMarks(node, [c]);
      var ready := c.kind == "Ready";
      var key := "node/" + node + "/" + (if ready then "NotReady" else c.kind);
      var bad := if ready then c.status == "False" || c.status == "Unknown" else c.status == "True";
      if !(ready || c.kind == "MemoryPressure" || c.kind == "DiskPressure" || c.kind == "PIDPressure") then
        After(seen, marks) == seen && Fired(seen, marks) == []
      else if bad then
        && After(seen, marks) == seen + {key}
        && Fired(seen, marks)
           == if key in seen then []
              else [Event(if ready then "node-notready" else "node-pressure", if ready then "critical" else "high", key)]
      else After(seen, marks) == seen - {key} && Fired(seen, marks) == []
  {
    ConditionKeys(node, c.kind);
    hide Key, ConditionPath;
    assert ConditionMarks(node, [c]) == MarksOf(node, c);
    if MarksOf(node, c) != [] {
      OneMark(seen, MarksOf(node, c)[0]);
    }
    hide After, Fired;
  }

  lemma OneMark(seen: set<string>, m: Mark)
    ensures After(seen, [m]) == MarkOne(seen, m) && Fired(seen, [m]) == FiredOne(seen, m)
  {
    assert [m][1..] == [];
  }

  /** A pod pending for the threshold is reported unless that is known; a younger one is not. */
  lemma PendingExactly(seen: set<string>, p: PendingPod, threshold: int)
    ensures
      var key := "pod/" + p.namespace + "/" + p.name + "/Pending";
      var marks := PendingMarks([p], threshold);
      && After(seen, marks) == (if p.age >= threshold then seen + {key} else seen)
      && Fired(seen, marks) == if p.age >= threshold && key !in seen then [Event("pod-pending", "high", key)] else []
  {
    KeyStep("pod", [p.namespace] + ([p.name] + ["Pending"]));
    KeyStep(p.namespace, [p.name] + ["Pending"]);
    KeyStep(p.name, ["Pending"]);
    KeyOfOne("Pending");
    assert ["pod"] + ([p.namespace] + ([p.name] + ["Pending"])) == PendingPath(p);
    assert "pod/" + p.namespace + "/" + p.name + "/Pending" == "pod" + "/" + (p.namespace + "/" + (p.name + "/" + "Pending"));
    hide Key;
    assert PendingMarks([p], threshold) == PendingMark(p, threshold);
    if p.age >= threshold {
      OneMark(seen, PendingMark(p, threshold)[0]);
    }
  }

  // ---- recovery of a pod ------------------------------------------------------------

  ghost predicate IsUnderPod(path: seq<string>, namespace: string, name: string) {
    |path| > 3 && path[..3] == ["pod", namespace, name]
  }

  /** Clearing a pod forgets the keys under it, and no other: not those of any other pod or node. */
  lemma RecoveryIsLocal(seen: set<string>, namespace: string, name: string, path: seq<string>)
    requires SlashFree(namespace) && SlashFree(name)
    requires path != [] && AllSlashFree(path)
    ensures Key(path) in ClearPodSpec(seen, namespace, name)
        <==> Key(path) in seen && !IsUnderPod(path, namespace, name)
  {
    PrefixExactly(["pod", namespace, name], path);
  }

  /** Each out-of-memory kill has a key of its own. */
  lemma OomKeyExactly(p: Pod, c: Container, s: int, q: Pod, d: Container, t: int)
    requires Named(PodSeen(p)) && Named(PodSeen(q)) && c in p.containers && d in q.containers
    ensures Key(OomPath(p, c, s)) == Key(OomPath(q, d, t))
        <==> p.namespace == q.namespace && p.name == q.name && c.name == d.name && s == t
  {
    var a, b := OomPath(p, c, s), OomPath(q, d, t);
    if Key(a) == Key(b) {
      KeyInjective(a, b);
      assert a[1] == b[1] && a[2] == b[2] && a[3] == b[3] && a[5] == b[5];
      DecimalInjective(s, t);
    }
  }

  // ---- at most once between recoveries --------------------------------------------------

  predicate Recovers(o: Observation, namespace: string, name: string) {
    o.PodSeen? && Recovered(o.pod) && o.pod.namespace == namespace && o.pod.name == name
  }

  function Recoveries(history: seq<Observation>, namespace: string, name: string): nat {
    if history == [] then 0
    else One(Recovers(history[0], namespace, name)) + Recoveries(history[1..], namespace, name)
  }

  lemma {:induction false} FirstUnseenIsUnseen(failures: seq<Event>, seen: set<string>)
    ensures var e := FirstUnseen(failures, seen);
      if e.Some? then e.value in failures && e.value.key !in seen
      else forall f | f in failures :: f.key in seen
  {
    if failures != [] && failures[0].key in seen {
      FirstUnseenIsUnseen(failures[1..], seen);
    }
  }

  ghost predicate NeverForgets(marks: seq<Mark>, key: string) {
    forall m | m in marks :: m.Forget? ==> m.key != key
  }

  lemma {:induction false} MarksBalance(seen: set<string>, marks: seq<Mark>, key: string)
    requires NeverForgets(marks, key)
    ensures Count(Fired(seen, marks), key) + One(key in seen) == One(key in After(seen, marks))
    decreases |marks|
  {
    if marks != [] {
      MarksBalance(MarkOne(seen, marks[0]), marks[1..], key);
      CountOfBoth(FiredOne(seen, marks[0]), Fired(MarkOne(seen, marks[0]), marks[1..]), key);
    }
  }

  lemma OtherRoot(a: seq<string>, b: seq<string>)
    requires a != [] && b != [] && AllSlashFree(a) && AllSlashFree(b) && a[0] != b[0]
    ensures Key(a) != Key(b)
  {
    if Key(a) == Key(b) {
      KeyInjective(a, b);
    }
  }

  lemma WatchedPath(node: string, kind: string)
    requires SlashFree(node) && IsWatched(kind)
    ensures AllSlashFree(ConditionPath(node, kind))
    ensures |ConditionPath(node, kind)| == 3 && ConditionPath(node, kind)[0] == "node"
  {
  }

  lemma MarksOfCondition(node: string, c: Condition)
    ensures
      var marks := MarksOf(node, c);
      if IsWatched(c.kind) then
        |marks| == 1 && KeyOf(marks[0]) == Key(ConditionPath(node, c.kind)) && (marks[0].Report? <==> IsBad(c))
      else marks == []
  {
    hide Key, ConditionPath, IsBad, IsPressure;
  }

  lemma {:induction false} NodesForgetNodes(node: string, conditions: seq<Condition>, path: seq<string>)
    requires SlashFree(node) && path != [] && AllSlashFree(path) && path[0] != "node"
    ensures forall m | m in ConditionMarks(node, conditions) :: KeyOf(m) != Key(path)
  {
    hide Key, IsBad, IsWatched, ConditionPath, MarksOf;
    if conditions != [] {
      NodesForgetNodes(node, conditions[1..], path);
      var c := conditions[0];
      MarksOfCondition(node, c);
      if IsWatched(c.kind) {
        WatchedPath(node, c.kind);
        OtherRoot(ConditionPath(node, c.kind), path);
      }
    }
  }

  lemma {:induction false} PendingOnlyReports(pods: seq<PendingPod>, threshold: int)
    ensures forall m | m in PendingMarks(pods, threshold) :: m.Report?
  {
    if pods != [] {
      PendingOnlyReports(pods[1..], threshold);
    }
  }

  /** Every firing of a pod's key makes it known; only that pod's recovery makes it unknown. */
  lemma StepBalance(seen: set<string>, o: Observation, path: seq<string>)
    requires Named(o) && AllSlashFree(path) && |path| > 3 && path[0] == "pod"
    ensures Count(ReportedOne(seen, o), Key(path)) + One(Key(path) in seen)
         == One(Key(path) in KnownOne(seen, o)) + One(Key(path) in seen && Recovers(o, path[1], path[2]))
  {
    hide Key, ConditionMarks, PendingMarks, Failures, HasPrefix;
    match o
    case PodSeen(pod) =>
      RecoveryIsLocal(seen, pod.namespace, pod.name, path);
      assert path[..3] == [path[0], path[1], path[2]];
      FirstUnseenIsUnseen(Failures(pod, pod.containers), seen);
    case NodeSeen(node, conditions) =>
      NodesForgetNodes(node, conditions, path);
      MarksBalance(seen, Marks(o), Key(path));
    case PendingSeen(pods, threshold) =>
      PendingOnlyReports(pods, threshold);
      MarksBalance(seen, Marks(o), Key(path));
  }

  /**
   * A failure of a pod is reported at most once more often than the pod recovers; between two
   * recoveries once at most, and then exactly if it was not known before and is known after.
   */
  lemma {:induction false} OnceBetweenRecoveries(seen: set<string>, history: seq<Observation>, path: seq<string>)
    requires AllNamed(history) && AllSlashFree(path) && |path| > 3 && path[0] == "pod"
    ensures Count(Reported(seen, history), Key(path)) + One(Key(path) in seen)
         <= One(Key(path) in Known(seen, history)) + Recoveries(history, path[1], path[2])
    ensures Recoveries(history, path[1], path[2]) == 0 ==>
      Count(Reported(seen, history), Key(path)) == One(Key(path) in Known(seen, history) && Key(path) !in seen)
    decreases |history|
  {
    hide Key, KnownOne, ReportedOne, Recovers;
    if history != [] {
      var o := history[0];
      StepBalance(seen, o, path);
      OnceBetweenRecoveries(KnownOne(seen, o), history[1..], path);
      CountOfBoth(ReportedOne(seen, o), Reported(KnownOne(seen, o), history[1..]), Key(path));
    }
  }

  // ---- how a bad pod drains ------------------------------------------------------------

  /** The keys of a pod's failures that were not reported yet. */
  function Unseen(seen: set<string>, pod: Pod): set<string> {
    set e | e in Failures(pod, pod.containers) && e.key !in seen :: e.key
  }

  lemma LookDrainsOne(seen: set<string>, pod: Pod)
    requires !Recovered(pod)
    ensures var (after, fired) := ReconcilePodSpec(seen, pod);
      && (fired.Some? <==> Unseen(seen, pod) != {})
      && (fired.Some? ==> fired.value.key in Unseen(seen, pod) && Unseen(after, pod) == Unseen(seen, pod) - {fired.value.key})
      && (fired.None? ==> after == seen)
  {
    FirstUnseenIsUnseen(Failures(pod, pod.containers), seen);
    var (after, fired) := ReconcilePodSpec(seen, pod);
    if fired.Some? {
      assert fired.value.key in Unseen(seen, pod);
    }
  }

  function Looks(pod: Pod, n: nat): seq<Observation> {
    if n == 0 then [] else [PodSeen(pod)] + Looks(pod, n - 1)
  }

  /**
   * Looking n times at an unchanged bad pod reports min(n, k) of its k unreported failures, each
   * once: so the first k looks report one each, and every later look reports nothing.
   */
  lemma {:induction false} DrainsExactly(seen: set<string>, pod: Pod, n: nat)
    requires !Recovered(pod)
    ensures
      var k := |Unseen(seen, pod)|;
      |Reported(seen, Looks(pod, n))| == if n < k then n else k
    ensures forall e | e in Reported(seen, Looks(pod, n)) :: e.key in Unseen(seen, pod)
    ensures forall i, j | 0 <= i < j < |Reported(seen, Looks(pod, n))| ::
      Reported(seen, Looks(pod, n))[i].key != Reported(seen, Looks(pod, n))[j].key
    decreases n
  {
    hide Unseen, ReconcilePodSpec;
    if n > 0 {
      var (after, fired) := ReconcilePodSpec(seen, pod);
      LookDrainsOne(seen, pod);
      DrainsExactly(after, pod, n - 1);
      assert Looks(pod, n)[0] == PodSeen(pod) && Looks(pod, n)[1..] == Looks(pod, n - 1);
      assert KnownOne(seen, PodSeen(pod)) == after;
    }
  }

  // ---- conditions of a node ---------------------------------------------------------------

  /** How often a flag goes up, given how it stood before. */
  function Rises(up: bool, flags: seq<bool>): nat
    decreases |flags|
  {
    if flags == [] then 0 else One(flags[0] && !up) + Rises(flags[0], flags[1..])
  }

  function Last(up: bool, flags: seq<bool>): bool {
    if flags == [] then up else flags[|flags| - 1]
  }

  lemma {:induction false} RisesOfBoth(up: bool, a: seq<bool>, b: seq<bool>)
    ensures Rises(up, a + b) == Rises(up, a) + Rises(Last(up, a), b)
    ensures Last(up, a + b) == Last(Last(up, a), b)
    decreases |a|
  {
    if a == [] {
      assert a + b == b;
    } else {
      assert (a + b)[1..] == a[1..] + b;
      RisesOfBoth(a[0], a[1..], b);
    }
  }

  /** Every report on one condition of one node, in order: true for bad. */
  function Flags(conditions: seq<Condition>, kind: string): seq<bool> {
    if conditions == [] then []
    else (if conditions[0].kind == kind then [IsBad(conditions[0])] else []) + Flags(conditions[1..], kind)
  }

  function FlagsOne(o: Observation, node: string, kind: string): seq<bool> {
    if o.NodeSeen? && o.node == node then Flags(o.conditions, kind) else []
  }

  function Statuses(history: seq<Observation>, node: string, kind: string): seq<bool> {
    if history == [] then [] else FlagsOne(history[0], node, kind) + Statuses(history[1..], node, kind)
  }

  lemma ConditionKeyExactly(node: string, kind: string, other: string, c: string)
    requires SlashFree(node) && SlashFree(other) && IsWatched(kind) && IsWatched(c)
    ensures Key(ConditionPath(other, c)) == Key(ConditionPath(node, kind)) <==> other == node && c == kind
  {
    WatchedPath(other, c);
    WatchedPath(node, kind);
    var a, b := ConditionPath(other, c), ConditionPath(node, kind);
    if Key(a) == Key(b) {
      KeyInjective(a, b);
      assert a[1] == b[1] && a[2] == b[2];
    }
  }

  lemma OneCondition(seen: set<string>, other: string, c: Condition, node: string, kind: string)
    requires SlashFree(node) && SlashFree(other) && IsWatched(kind) && IsWatched(c.kind)
    ensures
      var key := Key(ConditionPath(node, kind));
      var mark := MarksOf(other, c)[0];
      var flags := if other == node then Flags([c], kind) else [];
      && Count(FiredOne(seen, mark), key) == Rises(key in seen, flags)
      && (key in MarkOne(seen, mark)) == Last(key in seen, flags)
  {
    hide Key, ConditionPath, IsWatched, IsBad, MarksOf;
    MarksOfCondition(other, c);
    ConditionKeyExactly(node, kind, other, c.kind);
  }

  lemma FlagsOfOne(c: Condition, more: seq<Condition>, kind: string)
    ensures Flags([c] + more, kind) == Flags([c], kind) + Flags(more, kind)
  {
    assert ([c] + more)[1..] == more;
  }

  lemma NoFlags(up: bool, key: string)
    ensures Rises(up, []) == 0 && Last(up, []) == up && Count([], key) == 0
  {
  }

  lemma {:induction false} NodeStepRises(seen: set<string>, other: string, conditions: seq<Condition>, node: string, kind: string)
    requires SlashFree(node) && SlashFree(other) && IsWatched(kind)
    ensures
      var key := Key(ConditionPath(node, kind));
      var marks := ConditionMarks(other, conditions);
      var flags := if other == node then Flags(conditions, kind) else [];
      && Count(Fired(seen, marks), key) == Rises(key in seen, flags)
      && (key in After(seen, marks)) == Last(key in seen, flags)
    decreases |conditions|
  {
    hide Key, ConditionPath, IsBad, MarkOne, FiredOne, IsWatched, MarksOf, After, Fired, Rises, Last, Count;
    var key := Key(ConditionPath(node, kind));
    if conditions == [] {
      NoMarks(seen);
      NoFlags(key in seen, key);
    } else {
      var c := conditions[0];
      var one, more := MarksOf(other, c), ConditionMarks(other, conditions[1..]);
      MarksOfCondition(other, c);
      Unfold(seen, one, more);
      assert conditions == [c] + conditions[1..];
      FlagsOfOne(c, conditions[1..], kind);
      if IsWatched(c.kind) {
        OneCondition(seen, other, c, node, kind);
        var next := MarkOne(seen, one[0]);
        NodeStepRises(next, other, conditions[1..], node, kind);
        CountOfBoth(FiredOne(seen, one[0]), Fired(next, more), key);
        var head := if other == node then Flags([c], kind) else [];
        var rest := if other == node then Flags(conditions[1..], kind) else [];
        RisesOfBoth(key in seen, head, rest);
        assert head + rest == if other == node then Flags(conditions, kind) else [];
      } else {
        assert Flags([c], kind) == [] && Flags(conditions, kind) == Flags(conditions[1..], kind);
        NodeStepRises(seen, other, conditions[1..], node, kind);
      }
    }
  }

  /** Looking at a pod leaves the keys of nodes alone. */
  lemma PodsLeaveNodes(seen: set<string>, o: Observation, node: string, kind: string)
    requires Named(o) && !o.NodeSeen? && SlashFree(node) && IsWatched(kind)
    ensures var key := Key(ConditionPath(node, kind));
      Count(ReportedOne(seen, o), key) == 0 && (key in KnownOne(seen, o) <==> key in seen)
  {
    var path := ConditionPath(node, kind);
    match o
    case PodSeen(pod) =>
      RecoveryIsLocal(seen, pod.namespace, pod.name, path);
      FirstUnseenIsUnseen(Failures(pod, pod.containers), seen);
      FailuresAreUnderPods(pod, pod.containers, path);
    case PendingSeen(pods, threshold) =>
      PendingIsUnderPods(pods, threshold, path);
      MarksElsewhere(seen, Marks(o), Key(path));
  }

  lemma {:induction false} FailuresAreUnderPods(pod: Pod, containers: seq<Container>, path: seq<string>)
    requires SlashFree(pod.namespace) && SlashFree(pod.name) && forall c | c in containers :: SlashFree(c.name)
    requires path != [] && AllSlashFree(path) && path[0] != "pod"
    ensures forall e | e in Failures(pod, containers) :: e.key != Key(path)
  {
    hide Key, PodReasonKind;
    if containers != [] {
      var c := containers[0];
      FailuresAreUnderPods(pod, containers[1..], path);
      if c.waiting.Some? && IsWaitingFailure(c.waiting.value) {
        OtherRoot(WaitingPath(pod, c, c.waiting.value), path);
      }
      if c.terminated.Some? {
        OtherRoot(OomPath(pod, c, c.terminated.value.startedAt), path);
      }
    }
  }

  lemma {:induction false} PendingIsUnderPods(pods: seq<PendingPod>, threshold: int, path: seq<string>)
    requires forall p | p in pods :: SlashFree(p.namespace) && SlashFree(p.name)
    requires path != [] && AllSlashFree(path) && path[0] != "pod"
    ensures forall m | m in PendingMarks(pods, threshold) :: KeyOf(m) != Key(path)
  {
    if pods != [] {
      PendingIsUnderPods(pods[1..], threshold, path);
      OtherRoot(PendingPath(pods[0]), path);
    }
  }

  lemma {:induction false} MarksElsewhere(seen: set<string>, marks: seq<Mark>, key: string)
    requires forall m | m in marks :: KeyOf(m) != key
    ensures Count(Fired(seen, marks), key) == 0 && (key in After(seen, marks) <==> key in seen)
    decreases |marks|
  {
    if marks != [] {
      assert KeyOf(marks[0]) != key;
      MarksElsewhere(MarkOne(seen, marks[0]), marks[1..], key);
      CountOfBoth(FiredOne(seen, marks[0]), Fired(MarkOne(seen, marks[0]), marks[1..]), key);
    }
  }

  /** The events fired for a condition of a node are its turns from good to bad, whatever else is observed. */
  lemma {:induction false} EventsAreTransitions(seen: set<string>, history: seq<Observation>, node: string, kind: string)
    requires AllNamed(history) && SlashFree(node) && IsWatched(kind)
    ensures
      var key := Key(ConditionPath(node, kind));
      && Count(Reported(seen, history), key) == Rises(key in seen, Statuses(history, node, kind))
      && (key in Known(seen, history)) == Last(key in seen, Statuses(history, node, kind))
    decreases |history|
  {
    hide Key, ConditionPath, KnownOne, ReportedOne, FlagsOne;
    if history != [] {
      var o, key := history[0], Key(ConditionPath(node, kind));
      OneObservation(seen, o, node, kind);
      EventsAreTransitions(KnownOne(seen, o), history[1..], node, kind);
      CountOfBoth(ReportedOne(seen, o), Reported(KnownOne(seen, o), history[1..]), key);
      RisesOfBoth(key in seen, FlagsOne(o, node, kind), Statuses(history[1..], node, kind));
    }
  }

  lemma OneObservation(seen: set<string>, o: Observation, node: string, kind: string)
    requires Named(o) && SlashFree(node) && IsWatched(kind)
    ensures
      var key := Key(ConditionPath(node, kind));
      && Count(ReportedOne(seen, o), key) == Rises(key in seen, FlagsOne(o, node, kind))
      && (key in KnownOne(seen, o)) == Last(key in seen, FlagsOne(o, node, kind))
  {
    if o.NodeSeen? {
      NodeStepRises(seen, o.node, o.conditions, node, kind);
    } else {
      PodsLeaveNodes(seen, o, node, kind);
    }
  }
}
