/** Who is on call: the ordered layers, the resolver of one user, and the resolver of all layers. */
module Resolvers {
  import opened Arithmetic
  import opened Common
  import opened OnCall
  import Sorting = StableSorting

  const HOUR := 3600
  const DEFAULT_INTERVAL_HOURS := 168

  /** layerOrder 1 is notified first; zero and negative orders come last. */
  datatype Layer = Layer(layerOrder: int, restriction: Restriction, members: seq<Uuid>)

  /** anchor: the parsed start of the rotation. */
  datatype Rotation = Rotation(anchor: int, intervalHours: int, layers: seq<Layer>)

  // ---- the order of layers ------------------------------------------------------

  predicate Before(a: Layer, b: Layer) {
    if a.layerOrder <= 0 then false
    else if b.layerOrder <= 0 then true
    else a.layerOrder < b.layerOrder
  }

  function SortedLayers(layers: seq<Layer>): seq<Layer> {
    Sorting.Sort(layers, Before)
  }

  lemma LayersSorted(layers: seq<Layer>)
    ensures Sorting.Sorted(SortedLayers(layers), Before)
  {
    Sorting.SortSorted(layers, Before);
  }

  function OfOrder(layers: seq<Layer>, o: int): seq<Layer> {
    Sorting.Filter(layers, (l: Layer) => l.layerOrder == o)
  }

  function Unordered(layers: seq<Layer>): seq<Layer> {
    Sorting.Filter(layers, (l: Layer) => l.layerOrder <= 0)
  }

  /**
   * A permutation with the positive orders ascending and all others last, in which layers of one
   * order, and layers without one, keep their places.
   */
  lemma SortedLayersOrder(layers: seq<Layer>)
    ensures
      var out := SortedLayers(layers);
      && multiset(out) == multiset(layers)
      && (forall i, j | 0 <= i < j < |out| && out[j].layerOrder > 0 :: 0 < out[i].layerOrder <= out[j].layerOrder)
      && (forall o | o > 0 :: OfOrder(out, o) == OfOrder(layers, o))
      && Unordered(out) == Unordered(layers)
  {
    var out := SortedLayers(layers);
    LayersSorted(layers);
    forall i, j | 0 <= i < j < |out| && out[j].layerOrder > 0 ensures 0 < out[i].layerOrder <= out[j].layerOrder {
      assert !Before(out[j], out[i]);
    }
    forall o | o > 0 ensures OfOrder(out, o) == OfOrder(layers, o) {
      Sorting.SortStable(layers, Before, (l: Layer) => l.layerOrder == o);
    }
    Sorting.SortStable(layers, Before, (l: Layer) => l.layerOrder <= 0);
  }

  // ---- one layer --------------------------------------------------------------------

  function Interval(r: Rotation): (i: int)
    ensures i > 0
  {
    (if r.intervalHours <= 0 then DEFAULT_INTERVAL_HOURS else r.intervalHours) * HOUR
  }

  function Elapsed(r: Rotation, t: int): nat {
    if t < r.anchor then 0 else t - r.anchor
  }

  predicate OnDuty(l: Layer, t: int) {
    l.members != [] && LayerActiveAt(l.restriction, t)
  }

  /** The member of a layer whose turn it is. */
  function TurnMember(r: Rotation, l: Layer, t: int): Uuid
    requires l.members != []
  {
    l.members[Turn(Elapsed(r, t), Interval(r), |l.members|)]
  }

  /** What a layer answers: NIL when it is not on duty. */
  function UserOf(r: Rotation, l: Layer, t: int): Uuid {
    if OnDuty(l, t) then TurnMember(r, l, t) else NIL
  }

  /** A layer is on duty when it has members and its restriction holds, spelled out by day and by window. */
  lemma OnDutyExactly(l: Layer, t: int)
    requires forall w | w in l.restriction.windows :: TimesOfDay(w)
    ensures
      var day := (t / 86400) % 7;
      OnDuty(l, t) <==> l.members != [] && match l.restriction.kind
        case "weekdays" => 0 <= day <= 4
        case "weekends" => 5 <= day <= 6
        case "custom" => exists w :: w in l.restriction.windows && InWindow(w, (t / 60) % 10080)
        case _ => true
  {
    RestrictionExactly(l.restriction, t);
  }

  /**
   * After the anchor member k has the turn exactly while a round of the rotation, one interval a member,
   * is in its k-th interval; before it member 0.  The interval is a week unless hours are given.
   */
  lemma TurnExactly(r: Rotation, l: Layer, t: int, k: nat, round: nat)
    requires k < |l.members|
    ensures
      var hours := if r.intervalHours > 0 then r.intervalHours else 168;
      var from := r.anchor + (round * |l.members| + k) * (hours * 3600);
      from <= t < from + hours * 3600 ==> TurnMember(r, l, t) == l.members[k]
    ensures t < r.anchor ==> TurnMember(r, l, t) == l.members[0]
  {
    var n, i := |l.members|, Interval(r);
    var q := round * n + k;
    MulMonotone(i, 0, q);
    if r.anchor + q * i <= t < r.anchor + q * i + i {
      assert q * i == i * q >= 0;
      Quotient(i, t - r.anchor, q, t - r.anchor - q * i);
      Quotient(n, q, round, k);
    }
    if t < r.anchor {
      Quotient(i, 0, 0, 0);
      Quotient(n, 0, 0, 0);
    }
  }

  // ---- the two resolvers -------------------------------------------------------------

  /** The first layer on duty. */
  function FirstOnDuty(layers: seq<Layer>, t: int): (l: Option<Layer>)
    ensures l.Some? ==> OnDuty(l.value, t)
  {
    if layers == [] then None
    else if OnDuty(layers[0], t) then Some(layers[0])
    else FirstOnDuty(layers[1..], t)
  }

  function OnCallUser(r: Rotation, t: int): Uuid {
    var l := FirstOnDuty(SortedLayers(r.layers), t);
    if l.None? then NIL else UserOf(r, l.value, t)
  }

  method ResolveLayered(r: Rotation, t: int) returns (user: Result<Uuid>)
    ensures user == if r.layers == [] then Err("layered rotation has no layers") else Ok(OnCallUser(r, t))
  {
    if |r.layers| == 0 {
      return Err("layered rotation has no layers");
    }
    var sorted := SortedLayers(r.layers);
    for k := 0 to |sorted|
      invariant FirstOnDuty(sorted, t) == FirstOnDuty(sorted[k..], t)
    {
      var layer := sorted[k];
      assert sorted[k..][1..] == sorted[k + 1..];
      if |layer.members| == 0 {
        continue;
      }
      if !LayerActiveAt(layer.restriction, t) {
        continue;
      }
      var elapsed := t - r.anchor;
      if elapsed < 0 {
        elapsed := 0;
      }
      var index := (elapsed / Interval(r)) % |layer.members|;
      return Ok(layer.members[index]);
    }
    user := Ok(NIL);
  }

  method ResolveLayeredAllLayers(r: Rotation, t: int) returns (results: seq<Uuid>)
    ensures |results| == |r.layers|
    ensures
      var sorted := SortedLayers(r.layers);
      |sorted| == |results| && forall k | 0 <= k < |results| :: results[k] == UserOf(r, sorted[k], t)
  {
    hide LayerActiveAt, Sorting.Sort;
    results := [];
    var elapsed := t - r.anchor;
    if elapsed < 0 {
      elapsed := 0;
    }
    var sorted := SortedLayers(r.layers);
    Sorting.SortElements(r.layers, Before);
    for k := 0 to |sorted|
      invariant |results| == k
      invariant forall j | 0 <= j < k :: results[j] == UserOf(r, sorted[j], t)
    {
      var layer := sorted[k];
      if |layer.members| == 0 || !LayerActiveAt(layer.restriction, t) {
        results := results + [NIL];
      } else {
        var index := (elapsed / Interval(r)) % |layer.members|;
        results := results + [layer.members[index]];
      }
    }
  }

  // ---- they agree ------------------------------------------------------------------------

  /** The first user of the all-layers answer that is not NIL. */
  function FirstUser(r: Rotation, layers: seq<Layer>, t: int): Uuid {
    if layers == [] then NIL
    else if UserOf(r, layers[0], t) != NIL then UserOf(r, layers[0], t)
    else FirstUser(r, layers[1..], t)
  }

  /** Some layer on duty has a user. */
  ghost predicate SomeoneOnDuty(r: Rotation, layers: seq<Layer>, t: int) {
    exists k :: k in layers && OnDuty(k, t) && TurnMember(r, k, t) != NIL
  }

  /**
   * The resolvers agree unless the member whose turn it is in the first layer on duty is NIL while
   * another layer on duty has a user.
   */
  lemma {:induction false} AgreeExactly(r: Rotation, layers: seq<Layer>, t: int)
    ensures
      var l := FirstOnDuty(layers, t);
      (if l.None? then NIL else UserOf(r, l.value, t)) == FirstUser(r, layers, t)
      <==> !(l.Some? && TurnMember(r, l.value, t) == NIL && SomeoneOnDuty(r, layers, t))
    ensures FirstUser(r, layers, t) != NIL <==> SomeoneOnDuty(r, layers, t)
  {
    if layers != [] {
      AgreeExactly(r, layers[1..], t);
      assert layers == [layers[0]] + layers[1..];
      assert SomeoneOnDuty(r, layers, t) <==>
        (OnDuty(layers[0], t) && TurnMember(r, layers[0], t) != NIL) || SomeoneOnDuty(r, layers[1..], t);
    }
  }

  /** Two layers always on duty, the first with a NIL member: one resolver finds nobody, the other user 7. */
  lemma ResolversDisagree(t: int) returns (r: Rotation)
    ensures OnCallUser(r, t) == NIL && FirstUser(r, SortedLayers(r.layers), t) == 7
  {
    var always := Restriction("always", []);
    var one, two := Layer(1, always, [NIL]), Layer(2, always, [7]);
    r := Rotation(0, 1, [one, two]);
    assert r.layers[1..] == [two];
    assert SortedLayers([two]) == [two];
    assert SortedLayers(r.layers) == [one, two];
    assert [one, two][1..] == [two];
  }

  ghost predicate NoNilMembers(layers: seq<Layer>) {
    forall l, m | l in layers && m in l.members :: m != NIL
  }

  /** Without NIL members the two resolvers name the same user at every time. */
  lemma ResolversAgree(r: Rotation, t: int)
    requires NoNilMembers(r.layers)
    ensures OnCallUser(r, t) == FirstUser(r, SortedLayers(r.layers), t)
  {
    var sorted := SortedLayers(r.layers);
    Sorting.SortElements(r.layers, Before);
    AgreeExactly(r, sorted, t);
    var l := FirstOnDuty(sorted, t);
    if l.Some? {
      FirstOnDutyIsOne(sorted, t);
      assert UserOf(r, l.value, t) in l.value.members;
    }
  }

  lemma {:induction false} FirstOnDutyIsOne(layers: seq<Layer>, t: int)
    ensures FirstOnDuty(layers, t).None? <==> forall l | l in layers :: !OnDuty(l, t)
    ensures FirstOnDuty(layers, t).Some? ==>
      FirstOnDuty(layers, t).value in layers && OnDuty(FirstOnDuty(layers, t).value, t)
  {
    if layers != [] {
      FirstOnDutyIsOne(layers[1..], t);
      assert layers == [layers[0]] + layers[1..];
    }
  }

  // ---- which layer answers, without sorting ---------------------------------------------------

  /** Position b's layer answers: it is on duty, none on duty comes before it, and ties go to the earlier. */
  ghost predicate Answers(layers: seq<Layer>, t: int, b: nat) {
    && b < |layers|
    && OnDuty(layers[b], t)
    && (forall j | 0 <= j < |layers| && OnDuty(layers[j], t) ::
          !Before(layers[j], layers[b]) && (j < b ==> Before(layers[b], layers[j])))
  }

  lemma {:induction false} InsertFirstOnDuty(x: Layer, s: seq<Layer>, t: int)
    requires Sorting.Sorted(s, Before)
    ensures
      var rest := FirstOnDuty(s, t);
      FirstOnDuty(Sorting.Insert(x, s, Before), t)
      == if OnDuty(x, t) && (rest.None? || !Before(rest.value, x)) then Some(x) else rest
  {
    if s != [] && Before(s[0], x) {
      InsertFirstOnDuty(x, s[1..], t);
    } else if s != [] {
      FirstOnDutyIsOne(s, t);
      assert ([x] + s)[1..] == s;
      if FirstOnDuty(s, t).Some? {
        var k :| 0 <= k < |s| && s[k] == FirstOnDuty(s, t).value;
        assert k > 0 ==> !Before(s[k], s[0]);
      }
    } else {
      assert ([x] + s)[1..] == s;
    }
  }

  /** The on-call user is the turn of the layer that answers; without one, nobody is on call. */
  lemma {:induction false} OnCallUserExactly(layers: seq<Layer>, t: int) returns (b: Option<nat>)
    ensures b.None? <==> forall l | l in layers :: !OnDuty(l, t)
    ensures b.None? ==> FirstOnDuty(SortedLayers(layers), t).None?
    ensures b.Some? ==> Answers(layers, t, b.value) && FirstOnDuty(SortedLayers(layers), t) == Some(layers[b.value])
  {
    hide LayerActiveAt, OnDuty, Answers, Before;
    if layers == [] {
      b := None;
    } else {
      var c := OnCallUserExactly(layers[1..], t);
      LayersSorted(layers[1..]);
      InsertFirstOnDuty(layers[0], SortedLayers(layers[1..]), t);
      assert layers == [layers[0]] + layers[1..];
      b := AnswerOneMore(layers, t, c);
    }
  }

  lemma AnswerOneMore(layers: seq<Layer>, t: int, c: Option<nat>) returns (b: Option<nat>)
    requires layers != []
    requires c.None? ==> forall l | l in layers[1..] :: !OnDuty(l, t)
    requires c.Some? ==> Answers(layers[1..], t, c.value)
    ensures b == if OnDuty(layers[0], t) && (c.None? || !Before(layers[1..][c.value], layers[0])) then Some(0)
                 else if c.None? then None else Some(c.value + 1)
    ensures b.Some? ==> Answers(layers, t, b.value)
  {
    b := if OnDuty(layers[0], t) && (c.None? || !Before(layers[1..][c.value], layers[0])) then Some(0)
         else if c.None? then None else Some(c.value + 1);
    assert forall j | 0 < j < |layers| :: layers[j] == layers[1..][j - 1];
    assert forall j | 0 < j < |layers| :: layers[j] in layers[1..];
  }
}
