/** The Kubernetes health collector: what it reports, and what it does not report twice. */
module K8sHealth {
  import opened Common
  import opened KeyPaths

  /** A termination: its reason and the start time of the container, in nanoseconds. */
  datatype Termination = Termination(reason: string, startedAt: int)

  datatype Container = Container(name: string, ready: bool, waiting: Option<string>, terminated: Option<Termination>)

  datatype Pod = Pod(namespace: string, name: string, phase: string, containers: seq<Container>)

  datatype PendingPod = PendingPod(namespace: string, name: string, age: int)

  datatype Condition = Condition(kind: string, status: string)

  /** key: what the event is deduplicated by; it stands for the title, workload and labels too. */
  datatype Event = Event(kind: string, severity: string, key: string)

  // ---- what a pod shows ---------------------------------------------------------------

  predicate AllContainersReady(pod: Pod) {
    pod.containers != [] && forall c | c in pod.containers :: c.ready
  }

  predicate Recovered(pod: Pod) {
    pod.phase == "Running" && AllContainersReady(pod)
  }

  function PodPrefix(namespace: string, name: string): string {
    Key(["pod", namespace, name]) + "/"
  }

  /** The keys left after a pod is cleared. */
  function ClearPodSpec(seen: set<string>, namespace: string, name: string): set<string> {
    set k | k in seen && !HasPrefix(k, PodPrefix(namespace, name))
  }

  function PodReasonKind(reason: string): string {
    if reason == "CrashLoopBackOff" then "pod-crash"
    else if reason == "ImagePullBackOff" || reason == "ErrImagePull" then "pod-imagepull"
    else "pod-unknown"
  }

  predicate IsWaitingFailure(reason: string) {
    reason == "CrashLoopBackOff" || reason == "ImagePullBackOff" || reason == "ErrImagePull"
  }

  function WaitingPath(pod: Pod, c: Container, reason: string): seq<string> {
    ["pod", pod.namespace, pod.name, c.name, reason]
  }

  function OomPath(pod: Pod, c: Container, startedAt: int): seq<string> {
    ["pod", pod.namespace, pod.name, c.name, "OOMKilled", Decimal(startedAt)]
  }

  function WaitingFailure(pod: Pod, c: Container): seq<Event> {
    if c.waiting.Some? && IsWaitingFailure(c.waiting.value)
    then [Event(PodReasonKind(c.waiting.value), "high", Key(WaitingPath(pod, c, c.waiting.value)))]
    else []
  }

  function OomFailure(pod: Pod, c: Container): seq<Event> {
    if c.terminated.Some? && c.terminated.value.reason == "OOMKilled"
    then [Event("pod-oom", "high", Key(OomPath(pod, c, c.terminated.value.startedAt)))]
    else []
  }

  /** The failures of one container, in the order they are looked at. */
  function ContainerFailures(pod: Pod, c: Container): seq<Event> {
    WaitingFailure(pod, c) + OomFailure(pod, c)
  }

  function Failures(pod: Pod, containers: seq<Container>): seq<Event> {
    if containers == [] then []
    else ContainerFailures(pod, containers[0]) + Failures(pod, containers[1..])
  }

  function FirstUnseen(failures: seq<Event>, seen: set<string>): Option<Event> {
    if failures == [] then None
    else if failures[0].key !in seen then Some(failures[0])
    else FirstUnseen(failures[1..], seen)
  }

  /** The keys that a look at a pod leaves, and the event it fires. */
  function ReconcilePodSpec(seen: set<string>, pod: Pod): (set<string>, Option<Event>) {
    if Recovered(pod) then
      (ClearPodSpec(seen, pod.namespace, pod.name), None)
    else
      var first := FirstUnseen(Failures(pod, pod.containers), seen);
      (if first.Some? then seen + {first.value.key} else seen, first)
  }

  // ---- what a node and a list of pending pods show ---------------------------------------

  /** Either an event to report unless its key is known, or a key to forget. */
  datatype Mark = Report(event: Event) | Forget(key: string)

  function KeyOf(m: Mark): string {
    if m.Report? then m.event.key else m.key
  }

  function MarkOne(seen: set<string>, m: Mark): set<string> {
    if m.Report? then seen + {m.event.key} else seen - {m.key}
  }

  function FiredOne(seen: set<string>, m: Mark): seq<Event> {
    if m.Report? && m.event.key !in seen then [m.event] else []
  }

  /** The keys known after a series of marks. */
  function After(seen: set<string>, marks: seq<Mark>): set<string>
    decreases |marks|
  {
    if marks == [] then seen else After(MarkOne(seen, marks[0]), marks[1..])
  }

  /** The events a series of marks fires. */
  function Fired(seen: set<string>, marks: seq<Mark>): seq<Event>
    decreases |marks|
  {
    if marks == [] then [] else FiredOne(seen, marks[0]) + Fired(MarkOne(seen, marks[0]), marks[1..])
  }

  predicate IsPressure(kind: string) {
    kind == "MemoryPressure" || kind == "DiskPressure" || kind == "PIDPressure"
  }

  predicate IsWatched(kind: string) {
    kind == "Ready" || IsPressure(kind)
  }

  function ConditionPath(node: string, kind: string): seq<string> {
    ["node", node, if kind == "Ready" then "NotReady" else kind]
  }

  /** A node must be ready for certain, and under pressure for certain, to be good and bad. */
  predicate IsBad(c: Condition) {
    if c.kind == "Ready" then c.status == "False" || c.status == "Unknown" else c.status == "True"
  }

  function ConditionEvent(node: string, kind: string): Event {
    var key := Key(ConditionPath(node, kind));
    if kind == "Ready" then Event("node-notready", "critical", key) else Event("node-pressure", "high", key)
  }

  lemma EventKey(node: string, kind: string)
    ensures ConditionEvent(node, kind).key == Key(ConditionPath(node, kind))
  {
  }

  function MarksOf(node: string, c: Condition): seq<Mark> {
    if !IsWatched(c.kind) then []
    else if IsBad(c) then [Report(ConditionEvent(node, c.kind))]
    else [Forget(Key(ConditionPath(node, c.kind)))]
  }

  function ConditionMarks(node: string, conditions: seq<Condition>): seq<Mark> {
    if conditions == [] then [] else MarksOf(node, conditions[0]) + ConditionMarks(node, conditions[1..])
  }

  function PendingPath(p: PendingPod): seq<string> {
    ["pod", p.namespace, p.name, "Pending"]
  }

  function PendingMark(p: PendingPod, threshold: int): seq<Mark> {
    if p.age < threshold then [] else [Report(Event("pod-pending", "high", Key(PendingPath(p))))]
  }

  function PendingMarks(pods: seq<PendingPod>, threshold: int): seq<Mark> {
    if pods == [] then [] else PendingMark(pods[0], threshold) + PendingMarks(pods[1..], threshold)
  }

  // ---- the collector ---------------------------------------------------------------------

  class Collector {
    var seen: set<string>

    constructor ()
      ensures seen == {}
    {
      seen := {};
    }

    method MarkSeen(key: string) returns (first: bool)
      modifies this
      ensures first <==> key !in old(seen)
      ensures seen == old(seen) + {key}
    {
      if key in seen {
        return false;
      }
      seen := seen + {key};
      first := true;
    }

    method ClearKey(key: string)
      modifies this
      ensures seen == old(seen) - {key}
    {
      seen := seen - {key};
    }

    method ClearPod(namespace: string, name: string)
      modifies this
      ensures seen == ClearPodSpec(old(seen), namespace, name)
    {
      var prefix := PodPrefix(namespace, name);
      var rest := seen;
      while rest != {}
        invariant rest <= old(seen)
        invariant seen == set k | k in old(seen) && (k in rest || !HasPrefix(k, prefix))
        decreases |rest|
      {
        var k := Pick(rest);
        if |k| >= |prefix| && k[..|prefix|] == prefix {
          seen := seen - {k};
        }
        rest := rest - {k};
      }
    }

    method ReconcilePod(pod: Pod) returns (fired: Option<Event>)
      modifies this
      ensures (seen, fired) == ReconcilePodSpec(old(seen), pod)
    {
      hide Key, WaitingPath, OomPath, PodReasonKind, IsWaitingFailure, HasPrefix, PodPrefix, Failures, FirstUnseen;
      if Recovered(pod) {
        ClearPod(pod.namespace, pod.name);
        return None;
      }
      ghost var known := seen;
      assert pod.containers[0..] == pod.containers;
      for i := 0 to |pod.containers|
        invariant seen == known
        invariant FirstUnseen(Failures(pod, pod.containers), known) == FirstUnseen(Failures(pod, pod.containers[i..]), known)
      {
        var c := pod.containers[i];
        PodTurn(pod, i, known);
        if c.waiting.Some? && IsWaitingFailure(c.waiting.value) {
          var key := Key(WaitingPath(pod, c, c.waiting.value));
          var first := MarkSeen(key);
          if first {
            return Some(Event(PodReasonKind(c.waiting.value), "high", key));
          }
          assert seen == known;
        }
        if c.terminated.Some? && c.terminated.value.reason == "OOMKilled" {
          var key := Key(OomPath(pod, c, c.terminated.value.startedAt));
          var first := MarkSeen(key);
          if first {
            return Some(Event("pod-oom", "high", key));
          }
          assert seen == known;
        }
      }
      assert pod.containers[|pod.containers|..] == [];
      NoFailures(pod, known);
      fired := None;
    }

    method ReconcileNode(node: string, conditions: seq<Condition>) returns (fired: seq<Event>)
      modifies this
      ensures seen == After(old(seen), ConditionMarks(node, conditions))
      ensures fired == Fired(old(seen), ConditionMarks(node, conditions))
    {
      hide Key, ConditionPath, ConditionEvent, IsBad, IsWatched, After, Fired, ConditionMarks;
      fired := [];
      ghost var marks := ConditionMarks(node, conditions);
      assert conditions[0..] == conditions;
      for i := 0 to |conditions|
        invariant After(old(seen), marks) == After(seen, ConditionMarks(node, conditions[i..]))
        invariant Fired(old(seen), marks) == fired + Fired(seen, ConditionMarks(node, conditions[i..]))
      {
        var c := conditions[i];
        NodeTurn(node, conditions, i, seen);
        ghost var known, was, rest := seen, fired, ConditionMarks(node, conditions[i + 1..]);
        var key := Key(ConditionPath(node, c.kind));
        if IsWatched(c.kind) {
          if IsBad(c) {
            var first := MarkSeen(key);
            if first {
              fired := fired + [ConditionEvent(node, c.kind)];
            }
          } else {
            ClearKey(key);
          }
          assert fired == was + FiredOne(known, MarksOf(node, c)[0]);
        }
        assert Fired(old(seen), marks) == fired + Fired(seen, rest);
      }
      assert conditions[|conditions|..] == [];
      NoConditions(node, seen);
    }

    method CheckPending(pods: seq<PendingPod>, threshold: int) returns (fired: seq<Event>)
      modifies this
      ensures seen == After(old(seen), PendingMarks(pods, threshold))
      ensures fired == Fired(old(seen), PendingMarks(pods, threshold))
    {
      hide Key, ConditionPath, IsBad, IsWatched, PendingPath, After, Fired;
      fired := [];
      ghost var marks := PendingMarks(pods, threshold);
      assert pods[0..] == pods;
      for i := 0 to |pods|
        invariant After(old(seen), marks) == After(seen, PendingMarks(pods[i..], threshold))
        invariant Fired(old(seen), marks) == fired + Fired(seen, PendingMarks(pods[i..], threshold))
      {
        assert pods[i..][0] == pods[i] && pods[i..][1..] == pods[i + 1..];
        Unfold(seen, PendingMark(pods[i], threshold), PendingMarks(pods[i + 1..], threshold));
        if pods[i].age >= threshold {
          var key := Key(PendingPath(pods[i]));
          var first := MarkSeen(key);
          if first {
            fired := fired + [Event("pod-pending", "high", key)];
          }
        }
      }
      NoMarks(seen);
    }
  }

  lemma NoFailures(pod: Pod, seen: set<string>)
    ensures FirstUnseen(Failures(pod, []), seen) == None
  {
  }

  /** One container's turn: its waiting failure, its out-of-memory kill, then the other containers. */
  lemma PodTurn(pod: Pod, i: nat, seen: set<string>)
    requires i < |pod.containers|
    ensures
      var c := pod.containers[i];
      var waiting, oom := WaitingFailure(pod, c), OomFailure(pod, c);
      FirstUnseen(Failures(pod, pod.containers[i..]), seen)
      == if waiting != [] && waiting[0].key !in seen then Some(waiting[0])
         else if oom != [] && oom[0].key !in seen then Some(oom[0])
         else FirstUnseen(Failures(pod, pod.containers[i + 1..]), seen)
  {
    hide Key, WaitingPath, OomPath, PodReasonKind, IsWaitingFailure;
    var c := pod.containers[i];
    assert pod.containers[i..][0] == c && pod.containers[i..][1..] == pod.containers[i + 1..];
    SkipSeen(WaitingFailure(pod, c), OomFailure(pod, c), seen);
    SkipSeen(ContainerFailures(pod, c), Failures(pod, pod.containers[i + 1..]), seen);
  }

  lemma NoConditions(node: string, seen: set<string>)
    ensures After(seen, ConditionMarks(node, [])) == seen && Fired(seen, ConditionMarks(node, [])) == []
  {
  }

  /** One condition's turn: nothing unless it is watched, else one mark before those of the other conditions. */
  lemma NodeTurn(node: string, conditions: seq<Condition>, i: nat, seen: set<string>)
    requires i < |conditions|
    ensures
      var c := conditions[i];
      var all, rest := ConditionMarks(node, conditions[i..]), ConditionMarks(node, conditions[i + 1..]);
      if IsWatched(c.kind) then
        && |MarksOf(node, c)| == 1
        && After(seen, all) == After(MarkOne(seen, MarksOf(node, c)[0]), rest)
        && Fired(seen, all) == FiredOne(seen, MarksOf(node, c)[0]) + Fired(MarkOne(seen, MarksOf(node, c)[0]), rest)
      else After(seen, all) == After(seen, rest) && Fired(seen, all) == Fired(seen, rest)
    ensures ConditionEvent(node, conditions[i].kind).key == Key(ConditionPath(node, conditions[i].kind))
  {
    hide Key, ConditionPath, IsBad, IsWatched, After, Fired;
    var c := conditions[i];
    assert conditions[i..][0] == c && conditions[i..][1..] == conditions[i + 1..];
    EventKey(node, c.kind);
    hide ConditionEvent;
    Unfold(seen, MarksOf(node, c), ConditionMarks(node, conditions[i + 1..]));
  }

  lemma NoMarks(seen: set<string>)
    ensures After(seen, []) == seen && Fired(seen, []) == []
  {
  }

  /** At most one mark, then the others. */
  lemma Unfold(seen: set<string>, one: seq<Mark>, more: seq<Mark>)
    requires |one| <= 1
    ensures one == [] ==> After(seen, one + more) == After(seen, more) && Fired(seen, one + more) == Fired(seen, more)
    ensures one != [] ==>
      && After(seen, one + more) == After(MarkOne(seen, one[0]), more)
      && Fired(seen, one + more) == FiredOne(seen, one[0]) + Fired(MarkOne(seen, one[0]), more)
  {
    if one == [] {
      assert one + more == more;
    } else {
      assert (one + more)[1..] == more;
    }
  }

  lemma {:induction false} SkipSeen(a: seq<Event>, b: seq<Event>, seen: set<string>)
    ensures FirstUnseen(a + b, seen) == if FirstUnseen(a, seen).Some? then FirstUnseen(a, seen) else FirstUnseen(b, seen)
  {
    if a == [] {
      assert a + b == b;
    } else {
      assert (a + b)[1..] == a[1..] + b;
      SkipSeen(a[1..], b, seen);
    }
  }
}
