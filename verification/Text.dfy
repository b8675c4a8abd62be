/** Tokens of a text, how much two texts share, and the canonical phrase of a token set. */
module Text {
  import opened Common
  import opened Segments
  import Sorting = StableSorting

  predicate IsLetter(c: char) {
    'a' <= c <= 'z' || 'A' <= c <= 'Z'
  }

  predicate IsTokenChar(c: char) {
    IsLetter(c) || '0' <= c <= '9'
  }

  function LowerChar(c: char): char {
    if 'A' <= c <= 'Z' then (c as int - 'A' as int + 'a' as int) as char else c
  }

  function ToLower(s: string): string {
    seq(|s|, i requires 0 <= i < |s| => LowerChar(s[i]))
  }

  /** Lower-casing moves the 26 capitals, each to its small letter, and nothing else. */
  lemma ToLowerExactly(s: string, k: nat)
    requires k < |s|
    ensures |ToLower(s)| == |s|
    ensures ToLower(s)[k] as int == if 'A' <= s[k] <= 'Z' then s[k] as int + 32 else s[k] as int
  {
  }

  predicate IsStopWord(w: string) {
    w in {
      "a", "an", "and", "are", "as", "at", "be", "by", "for", "from", "has", "have", "in", "is", "it", "of", "on",
      "or", "that", "the", "this", "to", "was", "were", "with", "after", "before", "during", "service", "alert",
      "error", "errors", "failure", "failed"}
  }

  /** strings.FieldsFunc: word is the field being read. */
  function Fields(s: string, word: string): seq<string> {
    if s == "" then Flush(word)
    else if IsTokenChar(s[0]) then Fields(s[1..], word + [s[0]])
    else Flush(word) + Fields(s[1..], "")
  }

  function Flush(word: string): seq<string> {
    if word == "" then [] else [word]
  }

  function TokenSet(text: string): set<string> {
    set w | w in Fields(ToLower(text), "") && !IsStopWord(w)
  }

  // ---- tokens are the maximal runs of token characters ---------------------------------

  ghost predicate AllTokenChars(s: string) {
    forall k | 0 <= k < |s| :: IsTokenChar(s[k])
  }

  /** s[i..j] is a run of token characters that cannot be extended. */
  ghost predicate IsRun(s: string, i: nat, j: nat) {
    && i < j <= |s|
    && (forall k | i <= k < j :: IsTokenChar(s[k]))
    && (i > 0 ==> !IsTokenChar(s[i - 1]))
    && (j < |s| ==> !IsTokenChar(s[j]))
  }

  ghost predicate HasRun(s: string, w: string) {
    exists i: nat, j: nat :: IsRun(s, i, j) && w == s[i..j]
  }

  lemma RunsOfWord(word: string, w: string)
    requires AllTokenChars(word)
    ensures HasRun(word, w) <==> word != "" && w == word
  {
    if word != "" {
      assert word[0..|word|] == word;
      assert IsRun(word, 0, |word|);
    }
    if HasRun(word, w) {
      var i: nat, j: nat :| IsRun(word, i, j) && w == word[i..j];
      assert i == 0 && j == |word|;
    }
  }

  lemma RunsBeforeAndAfter(word: string, c: char, rest: string, w: string)
    requires AllTokenChars(word) && !IsTokenChar(c)
    requires (word != "" && w == word) || HasRun(rest, w)
    ensures HasRun(word + [c] + rest, w)
  {
    var t, n := word + [c] + rest, |word| + 1;
    assert t[|word|] == c;
    assert forall k | 0 <= k < |word| :: t[k] == word[k];
    assert forall k | n <= k < |t| :: t[k] == rest[k - n];
    if word != "" && w == word {
      assert t[0..|word|] == word;
      assert IsRun(t, 0, |word|);
    } else {
      var i: nat, j: nat :| IsRun(rest, i, j) && w == rest[i..j];
      assert t[i + n..j + n] == rest[i..j];
      assert IsRun(t, i + n, j + n);
    }
  }

  lemma RunsStayApart(word: string, c: char, rest: string, i: nat, j: nat)
    requires AllTokenChars(word) && !IsTokenChar(c)
    requires IsRun(word + [c] + rest, i, j)
    ensures (i == 0 && j == |word|) || (i > |word| && IsRun(rest, i - |word| - 1, j - |word| - 1))
  {
    var t, n := word + [c] + rest, |word| + 1;
    assert t[|word|] == c;
    assert forall k | 0 <= k < |word| :: t[k] == word[k];
    assert forall k | 0 <= k < |rest| :: rest[k] == t[k + n];
  }

  lemma RunIsBeforeOrAfter(word: string, c: char, rest: string, i: nat, j: nat)
    requires AllTokenChars(word) && !IsTokenChar(c) && IsRun(word + [c] + rest, i, j)
    ensures var w := (word + [c] + rest)[i..j]; (word != "" && w == word) || HasRun(rest, w)
  {
    hide AllTokenChars;
    var t, n := word + [c] + rest, |word| + 1;
    RunsStayApart(word, c, rest, i, j);
    if i == 0 {
      assert t[0..|word|] == word;
    } else {
      assert t[i..j] == rest[i - n..j - n];
      assert IsRun(rest, i - n, j - n);
    }
  }

  /** A separator splits the runs into those before it and those after it. */
  lemma RunsAround(word: string, c: char, rest: string, w: string)
    requires AllTokenChars(word) && !IsTokenChar(c)
    ensures HasRun(word + [c] + rest, w) <==> (word != "" && w == word) || HasRun(rest, w)
  {
    hide AllTokenChars;
    var t := word + [c] + rest;
    if HasRun(t, w) {
      var i: nat, j: nat :| IsRun(t, i, j) && w == t[i..j];
      hide HasRun, IsRun;
      RunIsBeforeOrAfter(word, c, rest, i, j);
    } else if (word != "" && w == word) || HasRun(rest, w) {
      hide HasRun, IsRun;
      RunsBeforeAndAfter(word, c, rest, w);
    }
  }

  lemma {:induction false} FieldsAreRuns(s: string, word: string, w: string)
    requires AllTokenChars(word)
    ensures w in Fields(s, word) <==> HasRun(word + s, w)
    decreases |s|
  {
    if s == "" {
      assert word + s == word;
      RunsOfWord(word, w);
    } else if IsTokenChar(s[0]) {
      FieldsAreRuns(s[1..], word + [s[0]], w);
      assert word + [s[0]] + s[1..] == word + s;
    } else {
      FieldsAreRuns(s[1..], "", w);
      assert "" + s[1..] == s[1..];
      RunsAround(word, s[0], s[1..], w);
      assert word + [s[0]] + s[1..] == word + s;
    }
  }

  /** A token is a maximal run of letters and digits of the lower-cased text, and no stop word. */
  lemma TokensExactly(text: string, w: string)
    ensures w in TokenSet(text) <==> HasRun(ToLower(text), w) && !IsStopWord(w)
  {
    hide IsStopWord, HasRun;
    FieldsAreRuns(ToLower(text), "", w);
    assert "" + ToLower(text) == ToLower(text);
  }

  lemma TokensAreWords(text: string)
    ensures forall w | w in TokenSet(text) :: w != "" && FreeOf(w, ' ')
  {
    hide IsStopWord;
    forall w | w in TokenSet(text) ensures w != "" && FreeOf(w, ' ') {
      TokensExactly(text, w);
      var i: nat, j: nat :| IsRun(ToLower(text), i, j) && w == ToLower(text)[i..j];
      assert forall k | 0 <= k < |w| :: IsTokenChar(w[k]);
    }
  }

  // ---- Dice's coefficient -----------------------------------------------------------------

  ghost function Dice(a: set<string>, b: set<string>): real {
    if |a * b| == 0 then 0.0 else (2 * |a * b|) as real / (|a| + |b|) as real
  }

  lemma PartsOf(a: set<string>, b: set<string>)
    ensures |a| == |a * b| + |a - b| && |b| == |a * b| + |b - a|
  {
    assert a == (a * b) + (a - b) && (a * b) !! (a - b);
    assert b == (a * b) + (b - a) && (a * b) !! (b - a);
  }

  lemma Ratio(n: real, d: real)
    requires 0.0 <= n <= d && d > 0.0
    ensures 0.0 <= n / d <= 1.0
    ensures n / d == 1.0 <==> n == d
    ensures n / d == 0.0 <==> n == 0.0
  {
    assert n == (n / d) * d;
  }

  /** Full marks for equal sets only, none for disjoint ones only, and no side is favoured. */
  lemma DiceLaws(a: set<string>, b: set<string>)
    ensures 0.0 <= Dice(a, b) <= 1.0
    ensures Dice(a, b) == 1.0 <==> a == b && a != {}
    ensures Dice(a, b) == 0.0 <==> a * b == {}
    ensures Dice(a, b) == Dice(b, a)
  {
    PartsOf(a, b);
    assert a * b == b * a;
    if |a * b| > 0 {
      Ratio((2 * |a * b|) as real, (|a| + |b|) as real);
      if |a - b| == 0 && |b - a| == 0 {
        assert a - b == {} && b - a == {};
        assert a == b;
      }
    }
  }

  method TokenSimilarity(left: string, right: string) returns (r: real)
    ensures r == Dice(TokenSet(left), TokenSet(right))
  {
    hide TokenSet;
    var leftTokens, rightTokens := TokenSet(left), TokenSet(right);
    if leftTokens == {} || rightTokens == {} {
      assert leftTokens * rightTokens == {};
      return 0.0;
    }
    var intersection := 0;
    var rest := leftTokens;
    while rest != {}
      invariant rest <= leftTokens
      invariant intersection == |(leftTokens - rest) * rightTokens|
      decreases |rest|
    {
      var token := Pick(rest);
      var next := rest - {token};
      if token in rightTokens {
        assert (leftTokens - next) * rightTokens == (leftTokens - rest) * rightTokens + {token};
        intersection := intersection + 1;
      } else {
        assert (leftTokens - next) * rightTokens == (leftTokens - rest) * rightTokens;
      }
      rest := next;
    }
    assert leftTokens - rest == leftTokens;
    if intersection == 0 {
      return 0.0;
    }
    r := (2 * intersection) as real / (|leftTokens| + |rightTokens|) as real;
  }

  // ---- the canonical phrase -----------------------------------------------------------------

  /** Go's order of strings. */
  predicate Less(a: string, b: string) {
    b != "" && (a == "" || a[0] < b[0] || (a[0] == b[0] && Less(a[1..], b[1..])))
  }

  /** The first place at which two strings differ decides; a proper prefix comes first. */
  lemma {:induction false} LessExactly(a: string, b: string, k: nat)
    requires k <= |a| && k <= |b| && a[..k] == b[..k]
    requires (k < |a| && k < |b| ==> a[k] != b[k]) && a != b
    ensures Less(a, b) <==> k < |b| && (k == |a| || a[k] < b[k])
    decreases k
  {
    if k > 0 {
      assert a[..k][0] == a[0] && b[..k][0] == b[0];
      assert a[1..][..k - 1] == a[..k][1..] && b[1..][..k - 1] == b[..k][1..];
      assert a == [a[0]] + a[1..] && b == [b[0]] + b[1..];
      LessExactly(a[1..], b[1..], k - 1);
    }
  }

  lemma {:induction false} LessAsymmetric(a: string, b: string)
    ensures !(Less(a, b) && Less(b, a))
    ensures !Less(a, b) && !Less(b, a) ==> a == b
  {
    if a != "" && b != "" {
      LessAsymmetric(a[1..], b[1..]);
      assert a == [a[0]] + a[1..] && b == [b[0]] + b[1..];
    }
  }

  lemma {:induction false} NotLessTransitive(a: string, b: string, c: string)
    requires !Less(a, b) && !Less(b, c)
    ensures !Less(a, c)
    decreases |c|
  {
    if a != "" && b != "" && c != "" && a[0] == b[0] == c[0] {
      NotLessTransitive(a[1..], b[1..], c[1..]);
    }
  }

  lemma LessIsWeakOrder()
    ensures Sorting.StrictWeakOrder(Less)
  {
    forall a: string, b: string ensures Less(a, b) ==> !Less(b, a) {
      LessAsymmetric(a, b);
    }
    forall a: string, b: string, c: string | !Less(a, b) && !Less(b, c) ensures !Less(a, c) {
      NotLessTransitive(a, b, c);
    }
  }

  /** parts lists the tokens once each, in order. */
  ghost predicate Lists(parts: seq<string>, tokens: set<string>) {
    NoDuplicates(parts) && Sorting.Sorted(parts, Less) && forall w :: w in parts <==> w in tokens
  }

  lemma FirstIsLeast(parts: seq<string>, w: string)
    requires Sorting.Sorted(parts, Less) && w in parts
    ensures !Less(w, parts[0])
  {
    var j :| 0 <= j < |parts| && parts[j] == w;
    LessAsymmetric(w, w);
  }

  lemma {:induction false} ListingIsUnique(a: seq<string>, b: seq<string>, tokens: set<string>)
    requires Lists(a, tokens) && Lists(b, tokens)
    ensures a == b
    decreases |a|
  {
    assert (a != [] ==> a[0] in tokens) && (b != [] ==> b[0] in tokens);
    if a != [] && b != [] {
      assert a[0] in b && b[0] in a;
      FirstIsLeast(b, a[0]);
      FirstIsLeast(a, b[0]);
      LessAsymmetric(a[0], b[0]);
      var rest := tokens - {a[0]};
      assert Lists(a[1..], rest) && Lists(b[1..], rest);
      ListingIsUnique(a[1..], b[1..], rest);
      assert a == [a[0]] + a[1..] && b == [b[0]] + b[1..];
    }
  }

  ghost predicate IsPhrase(tokens: set<string>, phrase: string) {
    exists parts :: Lists(parts, tokens) && phrase == Join(parts, ' ')
  }

  lemma WordsReadBack(s: seq<string>, t: seq<string>)
    requires forall i | 0 <= i < |s| :: s[i] != "" && FreeOf(s[i], ' ')
    requires forall i | 0 <= i < |t| :: t[i] != "" && FreeOf(t[i], ' ')
    requires Join(s, ' ') == Join(t, ' ')
    ensures s == t
  {
    if s != [] && t != [] {
      JoinInjective(s, t, ' ');
    }
  }

  /** The phrase does not depend on the order in which the tokens were met, and tells token sets apart. */
  lemma PhraseExactly(a: set<string>, p: string, b: set<string>, q: string)
    requires IsPhrase(a, p) && IsPhrase(b, q)
    requires forall w | w in a + b :: w != "" && FreeOf(w, ' ')
    ensures p == q <==> a == b
  {
    hide Join, Sorting.Sorted, FreeOf, Less;
    var s :| Lists(s, a) && p == Join(s, ' ');
    var t :| Lists(t, b) && q == Join(t, ' ');
    if a == b {
      ListingIsUnique(s, t, a);
    } else if p == q {
      assert forall i | 0 <= i < |s| :: s[i] in a + b;
      assert forall i | 0 <= i < |t| :: t[i] in a + b;
      WordsReadBack(s, t);
    }
  }

  lemma Listing(tokens: set<string>) returns (parts: seq<string>)
    ensures Lists(parts, tokens)
  {
    parts := Listed(tokens);
    LessIsWeakOrder();
    Sorting.SortSorted(parts, Less);
    Sorting.SortElements(parts, Less);
    Sorting.SortDistinct(parts, Less);
    parts := Sorting.Sort(parts, Less);
  }

  method NormalizePhrase(text: string) returns (phrase: string)
    ensures IsPhrase(TokenSet(text), phrase)
  {
    var parts := Enumerate(TokenSet(text));
    LessIsWeakOrder();
    Sorting.SortSorted(parts, Less);
    Sorting.SortElements(parts, Less);
    Sorting.SortDistinct(parts, Less);
    parts := Sorting.Sort(parts, Less);
    assert Lists(parts, TokenSet(text));
    phrase := Join(parts, ' ');
  }
}
