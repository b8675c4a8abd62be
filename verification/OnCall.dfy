/** On-call schedules: weekly windows, the rotation index, and the two resolvers. */
module OnCall {
  import opened Arithmetic

  // ---- time -------------------------------------------------------------------

  /** Times are seconds since some Monday 00:00 on the clock of the schedule. */
  const DAY_MINUTES := 1440
  const WEEK: int := 10080

  function MinuteOfWeek(t: int): int {
    (t / 60) % WEEK
  }

  // ---- windows ------------------------------------------------------------------

  /** The minutes are what parsing "HH:MM" gives. */
  datatype Window = Window(startDay: string, startMinutes: int, endDay: string, endMinutes: int)

  /** Monday is 0; an unknown name counts as Monday. */
  function WeekdayIndex(name: string): int {
    match name
    case "tuesday" => 1
    case "wednesday" => 2
    case "thursday" => 3
    case "friday" => 4
    case "saturday" => 5
    case "sunday" => 6
    case _ => 0
  }

  function Start(w: Window): int {
    WeekdayIndex(w.startDay) * DAY_MINUTES + w.startMinutes
  }

  function End(w: Window): int {
    WeekdayIndex(w.endDay) * DAY_MINUTES + w.endMinutes
  }

  predicate CoversMinute(start: int, end: int, minute: int) {
    if start <= end then start <= minute < end
    else minute >= start || minute < end
  }

  predicate WindowCovers(w: Window, t: int) {
    CoversMinute(Start(w), End(w), MinuteOfWeek(t))
  }

  predicate TimesOfDay(w: Window) {
    0 <= w.startMinutes < DAY_MINUTES && 0 <= w.endMinutes < DAY_MINUTES
  }

  /** A minute is covered exactly when it is nearer after the start, going round the week, than the end is. */
  lemma WindowIsCyclic(w: Window, t: int)
    requires TimesOfDay(w)
    ensures WindowCovers(w, t) <==> (MinuteOfWeek(t) - Start(w)) % WEEK < (End(w) - Start(w)) % WEEK
  {
    CyclicMinute(Start(w), End(w), MinuteOfWeek(t));
  }

  lemma CyclicMinute(start: int, end: int, minute: int)
    requires 0 <= start < WEEK && 0 <= end < WEEK && 0 <= minute < WEEK
    ensures CoversMinute(start, end, minute) <==> (minute - start) % WEEK < (end - start) % WEEK
  {
    Wrap(minute - start);
    Wrap(end - start);
  }

  lemma Wrap(d: int)
    requires -WEEK < d < WEEK
    ensures d % WEEK == if d < 0 then d + WEEK else d
  {
  }

  /** The window from start to end covers exactly the minutes nearer after start, round the week, than end. */
  ghost predicate ReadAsMeant(start: int, end: int) {
    forall m | 0 <= m < WEEK :: CoversMinute(start, end, m) <==> (m - start) % WEEK < (end - start) % WEEK
  }

  /**
   * s and e are the minutes of the week that start and end fall on.  Each of start and end must lie in
   * the week or a whole number of weeks away from its first minute; if neither lies strictly inside the
   * week, they must fall on the same minute, in an order that leaves the window empty.
   */
  predicate Fit(start: int, end: int, s: int, e: int) {
    if 0 < start < WEEK || 0 < end < WEEK then (0 <= start < WEEK || s == 0) && (0 <= end < WEEK || e == 0)
    else s == e && if start <= 0 then start <= end <= 0 else end <= 0 || start <= end
  }

  predicate EndsFit(start: int, end: int) {
    Fit(start, end, start % WEEK, end % WEEK)
  }

  /** How far x lies after y, going round the week. */
  function After(x: int, y: int): int {
    if x < y then x - y + WEEK else x - y
  }

  lemma AfterIsModulo(x: int, y: int)
    ensures (x - y) % WEEK == After(x % WEEK, y % WEEK)
    ensures (x - y) % WEEK == 0 <==> x % WEEK == y % WEEK
  {
    var a, b := x % WEEK, y % WEEK;
    var q := x / WEEK - y / WEEK - (if a < b then 1 else 0);
    Quotient(WEEK, x - y, q, After(a, b));
  }

  lemma FittingEnds(start: int, end: int, s: int, e: int, m: int)
    requires 0 <= s < WEEK && 0 <= e < WEEK && 0 <= m < WEEK
    requires (0 <= start < WEEK ==> s == start) && (0 <= end < WEEK ==> e == end)
    requires Fit(start, end, s, e)
    ensures CoversMinute(start, end, m) <==> After(m, s) < After(e, s)
  {
  }

  predicate Misread(start: int, end: int, s: int, e: int, m: int) {
    CoversMinute(start, end, m) <==> After(m, s) >= After(e, s)
  }

  /** Ends that do not fit give a minute at which they are misread. */
  lemma MisreadEnds(start: int, end: int, s: int, e: int) returns (m: int)
    requires 0 <= s < WEEK && 0 <= e < WEEK
    requires (0 <= start < WEEK ==> s == start) && (0 <= end < WEEK ==> e == end)
    requires !Fit(start, end, s, e)
    ensures 0 <= m < WEEK && Misread(start, end, s, e, m)
  {
    var misread := (x: int) => Misread(start, end, s, e, x);
    m := if misread(0) then 0
         else if misread(WEEK - 1) then WEEK - 1
         else if misread(s) then s
         else if misread(After(s, 1)) then After(s, 1)
         else if misread(e) then e
         else After(e, 1);
  }

  lemma RuleByMinutes(start: int, end: int, m: int)
    requires 0 <= m < WEEK
    ensures (m - start) % WEEK < (end - start) % WEEK
        <==> After(m, start % WEEK) < After(end % WEEK, start % WEEK)
  {
    AfterIsModulo(m, start);
    AfterIsModulo(end, start);
  }

  /**
   * Parsing lets any hours and minutes through, "24:00" and "35:30" among them, so the ends can lie
   * anywhere.  They are read as meant exactly when they fit.
   */
  lemma ReadAsMeantExactly(start: int, end: int)
    ensures ReadAsMeant(start, end) <==> EndsFit(start, end)
  {
    hide Fit, CoversMinute, After;
    var s, e := start % WEEK, end % WEEK;
    if EndsFit(start, end) {
      forall m | 0 <= m < WEEK ensures CoversMinute(start, end, m) <==> (m - start) % WEEK < (end - start) % WEEK {
        RuleByMinutes(start, end, m);
        FittingEnds(start, end, s, e, m);
      }
    } else {
      var m := MisreadEnds(start, end, s, e);
      RuleByMinutes(start, end, m);
    }
  }

  /** With the start in range, an end past the week is read as meant only a whole number of weeks away. */
  lemma EndOfWeekExactly(start: int, end: int)
    requires 0 <= start < WEEK
    ensures ReadAsMeant(start, end) <==> 0 <= end < WEEK || (end % WEEK == 0 && start != 0)
  {
    ReadAsMeantExactly(start, end);
  }

  /** Monday 10:00 to Sunday "35:30", that is Monday 11:30, covers Monday 12:00 and should not. */
  lemma MisreadWindow()
    ensures var w := Window("monday", 600, "sunday", 2130);
      WindowCovers(w, 12 * 3600) && !ReadAsMeant(Start(w), End(w))
  {
    EndOfWeekExactly(600, 6 * DAY_MINUTES + 2130);
  }

  /** Swapping the two ends of a window gives the rest of the week. */
  lemma SwapIsComplement(w: Window, t: int)
    requires TimesOfDay(w) && Start(w) != End(w)
    ensures WindowCovers(Window(w.endDay, w.endMinutes, w.startDay, w.startMinutes), t) <==> !WindowCovers(w, t)
  {
    var m := MinuteOfWeek(t);
    assert 0 <= m < WEEK;
  }

  /** How many of the first n minutes of the week are covered. */
  function MinutesCovered(start: int, end: int, n: nat): nat {
    if n == 0 then 0
    else MinutesCovered(start, end, n - 1) + if CoversMinute(start, end, n - 1) then 1 else 0
  }

  function Clamp(x: int, lo: int, hi: int): int {
    if x < lo then lo else if x > hi then hi else x
  }

  lemma {:induction false} CoveredSoFar(start: int, end: int, n: nat)
    requires 0 <= start < WEEK && 0 <= end < WEEK && n <= WEEK
    ensures MinutesCovered(start, end, n)
         == if start <= end then Clamp(n - start, 0, end - start) else Clamp(n, 0, end) + Clamp(n - start, 0, WEEK)
  {
    if n > 0 {
      CoveredSoFar(start, end, n - 1);
    }
  }

  lemma WindowLength(w: Window)
    requires TimesOfDay(w)
    ensures MinutesCovered(Start(w), End(w), WEEK) == (End(w) - Start(w)) % WEEK
  {
    CoveredSoFar(Start(w), End(w), WEEK);
    Wrap(End(w) - Start(w));
  }

  // ---- restrictions -----------------------------------------------------------------

  datatype Restriction = Restriction(kind: string, windows: seq<Window>)

  predicate LayerActiveAt(r: Restriction, t: int) {
    match r.kind
    case "weekdays" => MinuteOfWeek(t) < 5 * DAY_MINUTES
    case "weekends" => MinuteOfWeek(t) >= 5 * DAY_MINUTES
    case "custom" => exists w :: w in r.windows && WindowCovers(w, t)
    case _ => true
  }

  /** Days are numbered from Monday. */
  lemma DayNumbers()
    ensures WeekdayIndex("monday") == 0 && WeekdayIndex("tuesday") == 1 && WeekdayIndex("wednesday") == 2
    ensures WeekdayIndex("thursday") == 3 && WeekdayIndex("friday") == 4
    ensures WeekdayIndex("saturday") == 5 && WeekdayIndex("sunday") == 6
    ensures forall name :: 0 <= WeekdayIndex(name) <= 6
  {
  }

  lemma DayOfMinute(t: int)
    ensures MinuteOfWeek(t) / DAY_MINUTES == (t / 86400) % 7
    ensures 0 <= MinuteOfWeek(t) < WEEK
  {
    var days, seconds := t / 86400, t % 86400;
    var weeks, day := days / 7, days % 7;
    Quotient(60, t, 1440 * days + seconds / 60, seconds % 60);
    Quotient(WEEK, t / 60, weeks, 1440 * day + seconds / 60);
    Quotient(DAY_MINUTES, MinuteOfWeek(t), day, seconds / 60);
  }

  /** "weekdays" is Monday to Friday, "weekends" the two other days, "custom" any of the windows, all else always. */
  lemma RestrictionExactly(r: Restriction, t: int)
    ensures r.kind == "weekdays" ==> (LayerActiveAt(r, t) <==> (t / 86400) % 7 <= 4)
    ensures r.kind == "weekends" ==> (LayerActiveAt(r, t) <==> (t / 86400) % 7 == 5 || (t / 86400) % 7 == 6)
    ensures r.kind == "custom" && (forall w | w in r.windows :: TimesOfDay(w)) ==>
      (LayerActiveAt(r, t) <==> exists w :: w in r.windows && InWindow(w, (t / 60) % 10080))
    ensures r.kind != "weekdays" && r.kind != "weekends" && r.kind != "custom" ==> LayerActiveAt(r, t)
  {
    DayOfMinute(t);
    Quotient(DAY_MINUTES, MinuteOfWeek(t), MinuteOfWeek(t) / DAY_MINUTES, MinuteOfWeek(t) % DAY_MINUTES);
    forall w | w in r.windows && TimesOfDay(w) ensures WindowCovers(w, t) <==> InWindow(w, (t / 60) % 10080) {
      WindowIsCyclic(w, t);
    }
  }

  /** A minute of the week lies in a window: nearer after its start, going round the week, than its end. */
  predicate InWindow(w: Window, minute: int) {
    var start := 1440 * WeekdayIndex(w.startDay) + w.startMinutes;
    var end := 1440 * WeekdayIndex(w.endDay) + w.endMinutes;
    (minute - start) % 10080 < (end - start) % 10080
  }

  // ---- the rotation ------------------------------------------------------------------

  /** Whose turn it is, elapsed seconds into a rotation of n members. */
  function Turn(elapsed: int, interval: int, n: int): int
    requires interval > 0 && n > 0
  {
    (elapsed / interval) % n
  }

  /** One interval later it is the next member's turn. */
  lemma NextTurn(elapsed: int, interval: int, n: int)
    requires elapsed >= 0 && interval > 0 && n > 0
    ensures Turn(elapsed + interval, interval, n) == (Turn(elapsed, interval, n) + 1) % n
  {
    var q := elapsed / interval;
    Quotient(interval, elapsed + interval, q + 1, elapsed % interval) by {
      assert interval * (q + 1) == interval * q + interval;
    }
    var r := q % n;
    if r + 1 < n {
      Quotient(n, q + 1, q / n, r + 1);
      Quotient(n, r + 1, 0, r + 1);
    } else {
      Quotient(n, q + 1, q / n + 1, 0) by {
        assert n * (q / n + 1) == n * (q / n) + n;
      }
      Quotient(n, n, 1, 0);
    }
  }

  /** A full round later it is the same member's turn. */
  lemma SameTurn(elapsed: int, interval: int, n: int)
    requires interval > 0 && n > 0
    ensures Turn(elapsed + n * interval, interval, n) == Turn(elapsed, interval, n)
  {
    var q := elapsed / interval;
    Quotient(interval, elapsed + n * interval, q + n, elapsed % interval) by {
      assert interval * (q + n) == interval * q + n * interval;
    }
    Quotient(n, q + n, q / n + 1, q % n) by {
      assert n * (q / n + 1) == n * (q / n) + n;
    }
  }

  /** Seconds of position p's turn among the length seconds from elapsed on. */
  function TurnTime(p: int, elapsed: int, length: nat, interval: int, n: int): nat
    requires interval > 0 && n > 0
  {
    if length == 0 then 0
    else TurnTime(p, elapsed, length - 1, interval, n)
         + if Turn(elapsed + length - 1, interval, n) == p then 1 else 0
  }

  lemma {:induction false} TurnTimeAdds(p: int, elapsed: int, a: nat, b: nat, interval: int, n: int)
    requires interval > 0 && n > 0
    ensures TurnTime(p, elapsed, a + b, interval, n)
         == TurnTime(p, elapsed, a, interval, n) + TurnTime(p, elapsed + a, b, interval, n)
  {
    if b > 0 {
      TurnTimeAdds(p, elapsed, a, b - 1, interval, n);
      assert TurnTime(p, elapsed, a + b, interval, n)
          == TurnTime(p, elapsed, a + (b - 1), interval, n)
             + if Turn(elapsed + a + b - 1, interval, n) == p then 1 else 0;
    }
  }

  lemma TurnWithin(q: nat, r: nat, interval: int, n: int)
    requires interval > 0 && n > 0 && r < interval
    ensures Turn(q * interval + r, interval, n) == q % n
  {
    Quotient(interval, q * interval + r, q, r);
  }

  /** Within one interval there is one turn. */
  lemma {:induction false} TurnTimeOfInterval(p: int, q: nat, length: nat, interval: int, n: int)
    requires interval > 0 && n > 0 && length <= interval
    ensures TurnTime(p, q * interval, length, interval, n) == if q % n == p then length else 0
  {
    hide Turn;
    if length > 0 {
      TurnTimeOfInterval(p, q, length - 1, interval, n);
      TurnWithin(q, length - 1, interval, n);
      assert q * interval + length - 1 == q * interval + (length - 1);
    }
  }

  lemma {:induction false} TurnTimeOfIntervals(p: int, m: nat, interval: int, n: int)
    requires interval > 0 && 0 <= p < n && m <= n
    ensures m * interval >= 0
    ensures TurnTime(p, 0, m * interval, interval, n) == if p < m then interval else 0
  {
    if m > 0 {
      TurnTimeOfIntervals(p, m - 1, interval, n);
      assert m * interval == (m - 1) * interval + interval;
      TurnTimeAdds(p, 0, (m - 1) * interval, interval, interval, n);
      TurnTimeOfInterval(p, m - 1, interval, interval, n);
      Quotient(n, m - 1, 0, m - 1);
    }
  }

  /** A full round gives every position one interval, wherever the round starts. */
  lemma {:induction false} TurnTimeOfRound(p: int, elapsed: nat, interval: int, n: int)
    requires interval > 0 && 0 <= p < n
    ensures n * interval >= 0
    ensures TurnTime(p, elapsed, n * interval, interval, n) == interval
  {
    if elapsed == 0 {
      TurnTimeOfIntervals(p, n, interval, n);
    } else {
      TurnTimeOfRound(p, elapsed - 1, interval, n);
      var round := n * interval;
      TurnTimeAdds(p, elapsed - 1, 1, round, interval, n);
      TurnTimeAdds(p, elapsed - 1, round, 1, interval, n);
      SameTurn(elapsed - 1, interval, n);
      assert TurnTime(p, elapsed - 1, 1, interval, n) == TurnTime(p, elapsed - 1 + round, 1, interval, n) by {
        assert elapsed - 1 + 1 - 1 == elapsed - 1;
      }
    }
  }

  /** Fairness: any k full rounds give every position exactly k intervals, aligned or not. */
  lemma {:induction false} RotationIsFair(p: int, elapsed: nat, k: nat, interval: int, n: int)
    requires interval > 0 && 0 <= p < n
    ensures k * (n * interval) >= 0
    ensures TurnTime(p, elapsed, k * (n * interval), interval, n) == k * interval
  {
    if k > 0 {
      var round := n * interval;
      RotationIsFair(p, elapsed, k - 1, interval, n);
      TurnTimeOfRound(p, elapsed + (k - 1) * round, interval, n);
      assert k * round == (k - 1) * round + round;
      assert k * interval == (k - 1) * interval + interval;
      TurnTimeAdds(p, elapsed, (k - 1) * round, round, interval, n);
    }
  }
}
