/** The bootstrap administrator's password, drawn and shuffled in place. */
module AdminPassword {
  const UPPER := "ABCDEFGHJKLMNPQRSTUVWXYZ"
  const LOWER := "abcdefghjkmnpqrstuvwxyz"
  const DIGITS := "23456789"
  const SPECIAL := "!@#$%^&*"
  const LENGTH := 16

  function AllCharacters(): string {
    UPPER + LOWER + DIGITS + SPECIAL
  }

  predicate IsUpper(c: char) { 'A' <= c <= 'Z' }
  predicate IsLower(c: char) { 'a' <= c <= 'z' }
  predicate IsDigit(c: char) { '0' <= c <= '9' }
  predicate IsSpecial(c: char) { !IsUpper(c) && !IsLower(c) && !IsDigit(c) }

  /** At least 12 characters, one of each class at least. */
  ghost predicate MeetsPolicy(s: seq<char>) {
    && |s| >= 12
    && (exists c :: c in s && IsUpper(c))
    && (exists c :: c in s && IsLower(c))
    && (exists c :: c in s && IsDigit(c))
    && (exists c :: c in s && IsSpecial(c))
  }

  method ValidateDefaultPolicy(pw: string) returns (ok: bool)
    ensures ok <==> MeetsPolicy(pw)
    ensures ok <==>
      && |pw| >= 12 && (exists c :: c in pw && 'A' <= c <= 'Z') && (exists c :: c in pw && 'a' <= c <= 'z')
      && (exists c :: c in pw && '0' <= c <= '9')
      && (exists c :: c in pw && !('A' <= c <= 'Z') && !('a' <= c <= 'z') && !('0' <= c <= '9'))
  {
    if |pw| < 12 {
      return false;
    }
    var hasUpper, hasLower, hasDigit, hasSpecial := false, false, false, false;
    for k := 0 to |pw|
      invariant hasUpper <==> exists j :: 0 <= j < k && IsUpper(pw[j])
      invariant hasLower <==> exists j :: 0 <= j < k && IsLower(pw[j])
      invariant hasDigit <==> exists j :: 0 <= j < k && IsDigit(pw[j])
      invariant hasSpecial <==> exists j :: 0 <= j < k && IsSpecial(pw[j])
    {
      var c := pw[k];
      if IsUpper(c) {
        hasUpper := true;
      } else if IsLower(c) {
        hasLower := true;
      } else if IsDigit(c) {
        hasDigit := true;
      } else {
        hasSpecial := true;
      }
    }
    ok := hasUpper && hasLower && hasDigit && hasSpecial;
  }

  /** The policy looks only at which characters occur, and how many there are. */
  lemma PolicyIgnoresOrder(s: seq<char>, t: seq<char>)
    requires multiset(s) == multiset(t) && MeetsPolicy(s)
    ensures MeetsPolicy(t)
  {
    assert |multiset(s)| == |s| && |multiset(t)| == |t|;
    forall c | c in s ensures c in t {
      assert c in multiset(s);
    }
  }

  /** Fisher-Yates: draws[i] picks the partner of position i. */
  method Shuffle(a: array<char>, draws: seq<nat>)
    requires |draws| == a.Length && forall i | 0 < i < a.Length :: draws[i] <= i
    modifies a
    ensures a[..] == Shuffled(old(a[..]), draws, a.Length)
  {
    ghost var s := a[..];
    var i := a.Length - 1;
    if i <= 0 {
      return;
    }
    while i > 0
      invariant 0 <= i < a.Length
      invariant Shuffled(a[..], draws, i + 1) == Shuffled(s, draws, |s|)
    {
      var j := draws[i];
      ghost var before := a[..];
      a[i], a[j] := a[j], a[i];
      assert a[..] == Swapped(before, i, j);
      i := i - 1;
    }
  }

  function Swapped<T>(s: seq<T>, i: nat, j: nat): (r: seq<T>)
    requires i < |s| && j < |s|
    ensures |r| == |s|
  {
    s[i := s[j]][j := s[i]]
  }

  /** What the draws make of positions n - 1, ..., 1, in that order. */
  function Shuffled<T>(s: seq<T>, draws: seq<nat>, n: nat): (r: seq<T>)
    requires n <= |s| == |draws| && forall i | 0 < i < |s| :: draws[i] <= i
    ensures |r| == |s|
    decreases n
  {
    if n <= 1 then s else Shuffled(Swapped(s, n - 1, draws[n - 1]), draws, n - 1)
  }

  lemma SwappedKeeps<T>(s: seq<T>, i: nat, j: nat)
    requires i < |s| && j < |s|
    ensures multiset(Swapped(s, i, j)) == multiset(s)
  {
  }

  /** Whatever the draws, the characters stay the same, each as often as before. */
  lemma {:induction false} ShuffledKeepsAll<T>(s: seq<T>, draws: seq<nat>, n: nat)
    requires n <= |s| == |draws| && forall i | 0 < i < |s| :: draws[i] <= i
    ensures multiset(Shuffled(s, draws, n)) == multiset(s)
    decreases n
  {
    if n > 1 {
      SwappedKeeps(s, n - 1, draws[n - 1]);
      ShuffledKeepsAll(Swapped(s, n - 1, draws[n - 1]), draws, n - 1);
    }
  }

  /** Positions n and up are settled: the remaining draws do not reach them. */
  lemma {:induction false} ShuffledKeepsTail<T>(s: seq<T>, draws: seq<nat>, n: nat)
    requires n <= |s| == |draws| && forall i | 0 < i < |s| :: draws[i] <= i
    ensures Shuffled(s, draws, n)[n..] == s[n..]
    decreases n
  {
    if n > 1 {
      ShuffledKeepsTail(Swapped(s, n - 1, draws[n - 1]), draws, n - 1);
    }
  }

  /** Every arrangement of the items can be drawn. */
  lemma {:induction false} EveryArrangementIsDrawn<T>(s: seq<T>, t: seq<T>, n: nat) returns (draws: seq<nat>)
    requires n <= |s| == |t| && multiset(s) == multiset(t) && s[n..] == t[n..]
    ensures |draws| == |s| && forall i | 0 < i < |s| :: draws[i] <= i
    ensures Shuffled(s, draws, n) == t
    decreases n
  {
    hide Swapped, Shuffled;
    if n <= 1 {
      draws := NoDraws(s, n);
      OneItemLeft(s, t, n);
    } else {
      var j := ItemForLast(s, t, n);
      SwappedKeeps(s, n - 1, j);
      var later := EveryArrangementIsDrawn(Swapped(s, n - 1, j), t, n - 1);
      draws := DrawBefore(s, n - 1, j, later);
    }
  }

  lemma NoDraws<T>(s: seq<T>, n: nat) returns (draws: seq<nat>)
    requires n <= 1 && n <= |s|
    ensures |draws| == |s| && forall i | 0 < i < |s| :: draws[i] <= i
    ensures Shuffled(s, draws, n) == s
  {
    draws := seq(|s|, _ => 0);
  }

  /** Drawing j for position k, and then as in later. */
  lemma DrawBefore<T>(s: seq<T>, k: nat, j: nat, later: seq<nat>) returns (draws: seq<nat>)
    requires 0 < k < |s| == |later| && j <= k && forall i | 0 < i < |s| :: later[i] <= i
    ensures |draws| == |s| && forall i | 0 < i < |s| :: draws[i] <= i
    ensures Shuffled(s, draws, k + 1) == Shuffled(Swapped(s, k, j), later, k)
  {
    hide Swapped;
    draws := later[k := j];
    DrawsBeyondIgnored(Swapped(s, k, j), later, draws, k);
  }

  lemma PrefixesAgree<T>(s: seq<T>, t: seq<T>, n: nat)
    requires n <= |s| == |t| && multiset(s) == multiset(t) && s[n..] == t[n..]
    ensures multiset(s[..n]) == multiset(t[..n])
  {
    assert s == s[..n] + s[n..] && t == t[..n] + t[n..];
    assert multiset(s) == multiset(s[..n]) + multiset(s[n..]);
    assert multiset(t) == multiset(t[..n]) + multiset(t[n..]);
    assert multiset(s[..n]) == multiset(s) - multiset(s[n..]);
    assert multiset(t[..n]) == multiset(t) - multiset(t[n..]);
  }

  lemma OneItemLeft<T>(s: seq<T>, t: seq<T>, n: nat)
    requires n <= 1 && n <= |s| == |t| && multiset(s) == multiset(t) && s[n..] == t[n..]
    ensures s == t
  {
    PrefixesAgree(s, t, n);
    assert s == s[..n] + s[n..] && t == t[..n] + t[n..];
    if n == 1 {
      assert s[..1] == [s[0]] && t[..1] == [t[0]];
      assert s[0] in multiset(t[..1]);
    }
  }

  /** Among the unsettled items is the one that belongs last. */
  lemma ItemForLast<T>(s: seq<T>, t: seq<T>, n: nat) returns (j: nat)
    requires 1 < n <= |s| == |t| && multiset(s) == multiset(t) && s[n..] == t[n..]
    ensures j < n && s[j] == t[n - 1]
    ensures Swapped(s, n - 1, j)[n - 1..] == t[n - 1..]
  {
    PrefixesAgree(s, t, n);
    assert t[n - 1] in t[..n] && t[n - 1] in multiset(s[..n]);
    j :| 0 <= j < n && s[..n][j] == t[n - 1];
    forall i | n <= i < |s| ensures s[i] == t[i] {
      assert s[n..][i - n] == s[i] && t[n..][i - n] == t[i];
    }
  }

  /** Draws for positions n and up do not matter. */
  lemma {:induction false} DrawsBeyondIgnored<T>(s: seq<T>, c: seq<nat>, d: seq<nat>, n: nat)
    requires n <= |s| == |c| == |d|
    requires forall i | 0 < i < |s| :: c[i] <= i && d[i] <= i
    requires forall i | 0 < i < n :: c[i] == d[i]
    ensures Shuffled(s, c, n) == Shuffled(s, d, n)
    decreases n
  {
    if n > 1 {
      DrawsBeyondIgnored(Swapped(s, n - 1, c[n - 1]), c, d, n - 1);
    }
  }

  /**
   * No two series of draws give the same arrangement of distinct items: with EveryArrangementIsDrawn
   * each arrangement is reached in exactly one way, which is why uniform draws leave no bias.
   */
  lemma {:induction false} DrawsAreDetermined<T>(s: seq<T>, c: seq<nat>, d: seq<nat>, n: nat)
    requires n <= |s| == |c| == |d|
    requires forall i | 0 < i < |s| :: c[i] <= i && d[i] <= i
    requires forall i, j | 0 <= i < j < |s| :: s[i] != s[j]
    requires Shuffled(s, c, n) == Shuffled(s, d, n)
    ensures forall i | 0 < i < n :: c[i] == d[i]
    decreases n
  {
    if n > 1 {
      var k := n - 1;
      var x, y := Swapped(s, k, c[k]), Swapped(s, k, d[k]);
      ShuffledKeepsTail(x, c, k);
      ShuffledKeepsTail(y, d, k);
      assert x[k..][0] == y[k..][0];
      assert x[k] == s[c[k]] && y[k] == s[d[k]];
      DrawsAreDetermined(x, c, d, k);
    }
  }

  predicate IsDrawable(c: char) {
    c in AllCharacters()
  }

  /** What the four guaranteed picks are. */
  lemma PicksOfEachClass(picks: seq<nat>)
    requires |picks| == LENGTH
    requires picks[0] < |UPPER| && picks[1] < |LOWER| && picks[2] < |DIGITS| && picks[3] < |SPECIAL|
    ensures IsUpper(UPPER[picks[0]]) && IsLower(LOWER[picks[1]])
    ensures IsDigit(DIGITS[picks[2]]) && IsSpecial(SPECIAL[picks[3]])
    ensures IsDrawable(UPPER[picks[0]]) && IsDrawable(LOWER[picks[1]])
    ensures IsDrawable(DIGITS[picks[2]]) && IsDrawable(SPECIAL[picks[3]])
  {
    ClassesOfCharsets();
    InOneOfFour(UPPER, LOWER, DIGITS, SPECIAL);
  }

  lemma InOneOfFour(a: string, b: string, c: string, d: string)
    ensures forall x :: x in a + b + c + d <==> x in a || x in b || x in c || x in d
  {
  }

  lemma DrawnMeetsPolicy(drawn: seq<char>)
    requires |drawn| == LENGTH
    requires IsUpper(drawn[0]) && IsLower(drawn[1]) && IsDigit(drawn[2]) && IsSpecial(drawn[3])
    ensures MeetsPolicy(drawn)
  {
    assert drawn[0] in drawn && drawn[1] in drawn && drawn[2] in drawn && drawn[3] in drawn;
  }

  lemma SameCharacters(s: seq<char>, t: seq<char>)
    requires multiset(s) == multiset(t)
    ensures forall c :: c in s <==> c in t
  {
    forall c ensures c in s <==> c in t {
      assert c in multiset(s) <==> c in multiset(t);
    }
  }

  /** Shuffling does not matter: what the characters drawn meet, the password meets. */
  lemma ShuffledMeetsPolicy(drawn: seq<char>, draws: seq<nat>)
    requires |drawn| == |draws| == LENGTH && forall i | 0 < i < LENGTH :: draws[i] <= i
    ensures IsUpper(drawn[0]) && IsLower(drawn[1]) && IsDigit(drawn[2]) && IsSpecial(drawn[3])
      ==> MeetsPolicy(Shuffled(drawn, draws, LENGTH))
    ensures (forall k | 0 <= k < LENGTH :: IsDrawable(drawn[k]))
      ==> forall c | c in Shuffled(drawn, draws, LENGTH) :: IsDrawable(c)
  {
    hide MeetsPolicy, Shuffled, IsDrawable, IsUpper, IsLower, IsDigit, IsSpecial;
    ShuffledKeepsAll(drawn, draws, LENGTH);
    SameCharacters(drawn, Shuffled(drawn, draws, LENGTH));
    if IsUpper(drawn[0]) && IsLower(drawn[1]) && IsDigit(drawn[2]) && IsSpecial(drawn[3]) {
      DrawnMeetsPolicy(drawn);
      PolicyIgnoresOrder(drawn, Shuffled(drawn, draws, LENGTH));
    }
  }

  /** picks draws the 16 characters, draws the shuffle. */
  method GenerateAdminPassword(picks: seq<nat>, draws: seq<nat>) returns (pw: string)
    requires |picks| == LENGTH && |draws| == LENGTH
    requires picks[0] < |UPPER| && picks[1] < |LOWER| && picks[2] < |DIGITS| && picks[3] < |SPECIAL|
    requires forall i | 4 <= i < LENGTH :: picks[i] < |AllCharacters()|
    requires forall i | 0 < i < LENGTH :: draws[i] <= i
    ensures |pw| == 16 && MeetsPolicy(pw)
    ensures forall c | c in pw :: IsDrawable(c)
  {
    hide MeetsPolicy, Shuffled, IsDrawable, IsUpper, IsLower, IsDigit, IsSpecial, AllCharacters;
    PicksOfEachClass(picks);
    var buf := new char[LENGTH](_ => ' ');
    buf[0], buf[1], buf[2], buf[3] := UPPER[picks[0]], LOWER[picks[1]], DIGITS[picks[2]], SPECIAL[picks[3]];
    for i := 4 to LENGTH
      invariant IsUpper(buf[0]) && IsLower(buf[1]) && IsDigit(buf[2]) && IsSpecial(buf[3])
      invariant forall k | 0 <= k < i :: IsDrawable(buf[k])
    {
      AllAreDrawable(picks[i]);
      buf[i] := AllCharacters()[picks[i]];
    }
    ghost var drawn := buf[..];
    Shuffle(buf, draws);
    pw := buf[..];
    ShuffledMeetsPolicy(drawn, draws);
  }

  lemma AllAreDrawable(k: nat)
    requires k < |AllCharacters()|
    ensures IsDrawable(AllCharacters()[k])
  {
  }

  /** The characters that are easily confused, I, O, i, l, o, 0 and 1, are not drawn; all others of their kinds are. */
  lemma CharsetsExactly(c: char)
    ensures c in UPPER <==> 'A' <= c <= 'Z' && c != 'I' && c != 'O'
    ensures c in LOWER <==> 'a' <= c <= 'z' && c != 'i' && c != 'l' && c != 'o'
    ensures c in DIGITS <==> '2' <= c <= '9'
    ensures c in SPECIAL <==> c == '!' || '#' <= c <= '&' || c == '@' || c == '^' || c == '*'
    ensures IsDrawable(c) <==> c in UPPER || c in LOWER || c in DIGITS || c in SPECIAL
  {
    UpperExactly(c);
    LowerExactly(c);
    InOneOfFour(UPPER, LOWER, DIGITS, SPECIAL);
    assert DIGITS == ['2', '3', '4', '5', '6', '7', '8', '9'];
    assert SPECIAL == ['!', '@', '#', '$', '%', '^', '&', '*'];
  }

  lemma UpperExactly(c: char)
    ensures c in UPPER <==> 'A' <= c <= 'Z' && c != 'I' && c != 'O'
  {
    assert UPPER == ['A', 'B', 'C', 'D', 'E', 'F', 'G', 'H', 'J', 'K', 'L', 'M', 'N', 'P', 'Q', 'R', 'S', 'T', 'U', 'V', 'W', 'X', 'Y', 'Z'];
  }

  lemma LowerExactly(c: char)
    ensures c in LOWER <==> 'a' <= c <= 'z' && c != 'i' && c != 'l' && c != 'o'
  {
    assert LOWER == ['a', 'b', 'c', 'd', 'e', 'f', 'g', 'h', 'j', 'k', 'm', 'n', 'p', 'q', 'r', 's', 't', 'u', 'v', 'w', 'x', 'y', 'z'];
  }

  lemma ClassesOfCharsets()
    ensures forall c | c in UPPER :: IsUpper(c)
    ensures forall c | c in LOWER :: IsLower(c)
    ensures forall c | c in DIGITS :: IsDigit(c)
    ensures forall c | c in SPECIAL :: IsSpecial(c)
  {
  }
}
