/** The score of a candidate node against a source node. */
module Similarity {
  import opened Common
  import opened GraphModel
  import opened Text

  datatype Signal = Signal(weight: real, source: string, candidate: string, exactMatch: bool)

  /** The signals compared, title first; the weights add up to one. */
  function Signals(source: Node, candidate: Node): seq<Signal> {
    var s, c := source.fields, candidate.fields;
    [ Signal(0.20, source.title, candidate.title, false),
      Signal(0.25, s.rootCause, c.rootCause, false),
      Signal(0.20, s.logPattern, c.logPattern, false),
      Signal(0.15, s.service, c.service, true),
      Signal(0.10, s.metricAnomaly, c.metricAnomaly, false),
      Signal(0.05, s.deployment, c.deployment, false),
      Signal(0.05, s.resolution, c.resolution, false)]
  }

  // ---- one field ------------------------------------------------------------------------

  predicate OccursAt(t: string, s: string, i: int) {
    0 <= i <= |s| - |t| && s[i..i + |t|] == t
  }

  predicate Contains(s: string, t: string) {
    exists i | 0 <= i <= |s| - |t| :: OccursAt(t, s, i)
  }

  ghost function Phrase(text: string): (p: string)
    ensures IsPhrase(TokenSet(text), p)
  {
    PhraseExists(text);
    var p :| IsPhrase(TokenSet(text), p);
    p
  }

  ghost function FieldScore(source: string, candidate: string, exactMatch: bool): real {
    var s, c := Trim(source), Trim(candidate);
    if s == "" || c == "" then 0.0
    else if exactMatch && Phrase(s) == Phrase(c) then 1.0
    else if exactMatch && Phrase(s) != "" && Phrase(c) != "" && (Contains(Phrase(s), Phrase(c)) || Contains(Phrase(c), Phrase(s))) then 0.75
    else Dice(TokenSet(s), TokenSet(c))
  }

  /** Nothing left to compare once the blanks are trimmed. */
  predicate IsBlank(s: string) {
    Trim(s) == ""
  }

  lemma PhrasesExactly(s: string, c: string, p: string, q: string)
    requires IsPhrase(TokenSet(s), p) && IsPhrase(TokenSet(c), q)
    ensures p == q <==> TokenSet(s) == TokenSet(c)
  {
    TokensAreWords(s);
    TokensAreWords(c);
    PhraseExactly(TokenSet(s), p, TokenSet(c), q);
  }

  /**
   * A field scores full marks exactly when both texts have the same tokens: two texts of stop
   * words alone then still match as service names, though not as prose.
   */
  lemma FieldScoreLaws(source: string, candidate: string, exactMatch: bool)
    ensures 0.0 <= FieldScore(source, candidate, exactMatch) <= 1.0
    ensures FieldScore(source, candidate, exactMatch) == 1.0 <==>
      && !IsBlank(source) && !IsBlank(candidate)
      && TokenSet(Trim(source)) == TokenSet(Trim(candidate))
      && (exactMatch || TokenSet(Trim(source)) != {})
  {
    hide TokenSet, Dice, Trim;
    var s, c := Trim(source), Trim(candidate);
    DiceLaws(TokenSet(s), TokenSet(c));
    PhrasesExactly(s, c, Phrase(s), Phrase(c));
  }

  /** Two services named by stop words alone count as the same. */
  lemma StopWordsMatch()
    ensures FieldScore("alert", "error", true) == 1.0
  {
    OneStopWord("alert");
    OneStopWord("error");
    FieldScoreLaws("alert", "error", true);
  }

  lemma OneStopWord(w: string)
    requires |w| == 5 && IsStopWord(w) && forall k | 0 <= k < 5 :: 'a' <= w[k] <= 'z'
    ensures Trim(w) == w && TokenSet(w) == {}
  {
    hide IsStopWord, HasRun, TokenSet;
    assert ToLower(w) == w;
    forall t | t in TokenSet(w) ensures false {
      TokensExactly(w, t);
      RunsOfWord(w, t);
    }
  }

  lemma PhraseExists(text: string)
    ensures exists p :: IsPhrase(TokenSet(text), p)
  {
    hide TokenSet;
    var parts := Listing(TokenSet(text));
    assert IsPhrase(TokenSet(text), Segments.Join(parts, ' '));
  }

  method FieldSimilarity(source: string, candidate: string, exactMatch: bool) returns (r: real)
    ensures r == FieldScore(source, candidate, exactMatch)
  {
    hide TokenSet, Dice, Trim;
    var s, c := Trim(source), Trim(candidate);
    if s == "" || c == "" {
      return 0.0;
    }
    if exactMatch {
      var sourceNorm := NormalizePhrase(s);
      var candidateNorm := NormalizePhrase(c);
      PhrasesExactly(s, s, sourceNorm, Phrase(s));
      PhrasesExactly(c, c, candidateNorm, Phrase(c));
      if sourceNorm == candidateNorm {
        return 1.0;
      }
      if sourceNorm != "" && candidateNorm != "" && (Contains(sourceNorm, candidateNorm) || Contains(candidateNorm, sourceNorm)) {
        return 0.75;
      }
    }
    r := TokenSimilarity(s, c);
  }

  // ---- the weighted mean ------------------------------------------------------------------

  function Weight(s: Signal): real {
    if IsBlank(s.source) then 0.0 else s.weight
  }

  ghost function Points(s: Signal): real {
    if IsBlank(s.source) then 0.0 else s.weight * FieldScore(s.source, s.candidate, s.exactMatch)
  }

  ghost function Available(signals: seq<Signal>): real {
    if signals == [] then 0.0 else Available(signals[..|signals| - 1]) + Weight(signals[|signals| - 1])
  }

  ghost function Weighted(signals: seq<Signal>): real {
    if signals == [] then 0.0 else Weighted(signals[..|signals| - 1]) + Points(signals[|signals| - 1])
  }

  function Min(x: real, y: real): real { if x <= y then x else y }

  function Max(x: real, y: real): real { if x >= y then x else y }

  function Clamp(x: real, low: real, high: real): real {
    Max(low, Min(high, x))
  }

  /** math.Round: halves go away from zero. */
  function Round(x: real): int {
    if x >= 0.0 then (x + 0.5).Floor else -((0.5 - x).Floor)
  }

  function RoundScore(x: real): real {
    Round(x * 1000.0) as real / 1000.0
  }

  ghost function Score(source: Node, candidate: Node): real {
    var signals := Signals(source, candidate);
    if Available(signals) == 0.0 then 0.0
    else RoundScore(Clamp(Weighted(signals) / Available(signals), 0.0, 1.0))
  }

  ghost predicate PositiveWeights(signals: seq<Signal>) {
    forall s | s in signals :: s.weight > 0.0
  }

  ghost predicate FullMarks(s: Signal) {
    IsBlank(s.source) || FieldScore(s.source, s.candidate, s.exactMatch) == 1.0
  }

  lemma Share(weight: real, score: real, points: real)
    requires weight > 0.0 && 0.0 <= score <= 1.0 && points == weight * score
    ensures 0.0 <= points <= weight
    ensures points == weight <==> score == 1.0
  {
    var missing := weight * (1.0 - score);
    assert missing >= 0.0;
    assert points == weight - missing;
    if score < 1.0 {
      assert missing > 0.0;
    }
  }

  /** A signal earns between nothing and its weight, and its weight only for full marks. */
  lemma PointsLaws(s: Signal)
    requires s.weight > 0.0
    ensures 0.0 <= Points(s) <= Weight(s)
    ensures Points(s) == Weight(s) <==> FullMarks(s)
  {
    hide FieldScore, IsBlank;
    if !IsBlank(s.source) {
      FieldScoreLaws(s.source, s.candidate, s.exactMatch);
      Share(s.weight, FieldScore(s.source, s.candidate, s.exactMatch), Points(s));
    }
  }

  lemma {:induction false} WeightedIsMean(signals: seq<Signal>)
    requires PositiveWeights(signals)
    ensures 0.0 <= Weighted(signals) <= Available(signals)
    ensures Weighted(signals) == Available(signals) <==> forall s | s in signals :: FullMarks(s)
  {
    hide Points, Weight, FullMarks;
    if signals != [] {
      var init, last := signals[..|signals| - 1], signals[|signals| - 1];
      assert signals == init + [last];
      WeightedIsMean(init);
      PointsLaws(last);
      assert (forall s | s in signals :: FullMarks(s)) <==> (forall s | s in init :: FullMarks(s)) && FullMarks(last);
    }
  }

  lemma SignalsPositive(source: Node, candidate: Node)
    ensures PositiveWeights(Signals(source, candidate))
  {
  }

  /** The mean is in [0, 1] before it is clamped, and one exactly when every signal has full marks. */
  lemma ClampIsIdle(source: Node, candidate: Node)
    requires Available(Signals(source, candidate)) != 0.0
    ensures
      var signals := Signals(source, candidate);
      var mean := Weighted(signals) / Available(signals);
      && 0.0 <= mean <= 1.0
      && Clamp(mean, 0.0, 1.0) == mean
      && (mean == 1.0 <==> forall s | s in signals :: FullMarks(s))
  {
    hide Signals, Weighted, Available, FullMarks;
    var signals := Signals(source, candidate);
    SignalsPositive(source, candidate);
    WeightedIsMean(signals);
    Ratio(Weighted(signals), Available(signals));
  }

  lemma Thousandths(n: int)
    ensures n <= 1000 ==> n as real / 1000.0 <= 1.0
    ensures n >= 0 ==> n as real / 1000.0 >= 0.0
  {
  }

  /** Rounding stays within half a thousandth, keeps [0, 1], and never reverses two scores. */
  lemma RoundScoreLaws(x: real, y: real)
    requires 0.0 <= x <= y <= 1.0
    ensures 0.0 <= RoundScore(x) <= RoundScore(y) <= 1.0
    ensures -0.0005 <= RoundScore(x) - x <= 0.0005
    ensures RoundScore(1.0) == 1.0
  {
    var a, b := Round(x * 1000.0), Round(y * 1000.0);
    assert 0 <= a <= b <= 1000;
    Thousandths(a);
    Thousandths(b);
  }

  lemma ScoreInUnit(source: Node, candidate: Node)
    ensures 0.0 <= Score(source, candidate) <= 1.0
  {
    hide Signals, Weighted, Available, RoundScore, Clamp, FullMarks;
    var signals := Signals(source, candidate);
    if Available(signals) != 0.0 {
      ClampIsIdle(source, candidate);
      RoundScoreLaws(Weighted(signals) / Available(signals), 1.0);
    }
  }

  /** A node that repeats the source's texts scores one, if each of them says something. */
  lemma RepetitionScoresOne(source: Node, candidate: Node)
    requires candidate.title == source.title && candidate.fields == source.fields
    requires Available(Signals(source, candidate)) != 0.0
    requires forall s | s in Signals(source, candidate) ::
      IsBlank(s.source) || s.exactMatch || TokenSet(Trim(s.source)) != {}
    ensures Score(source, candidate) == 1.0
  {
    hide IsBlank, FieldScore, TokenSet, Weighted, Available, RoundScore;
    var signals := Signals(source, candidate);
    forall s | s in signals ensures FullMarks(s) {
      assert s.candidate == s.source;
      FieldScoreLaws(s.source, s.candidate, s.exactMatch);
    }
    ClampIsIdle(source, candidate);
    RoundScoreLaws(1.0, 1.0);
  }

  // ---- the weights, and a contained name ------------------------------------------------

  /** A text's share of the score: nothing when the source's text is blank. */
  ghost function Part(weight: real, source: string, candidate: string, exactMatch: bool): real {
    if Trim(source) == "" then 0.0 else weight * FieldScore(source, candidate, exactMatch)
  }

  function Counted(weight: real, source: string): real {
    if Trim(source) == "" then 0.0 else weight
  }

  /** The score is the mean of the seven texts, each with its weight: only the service is matched as a name. */
  lemma WeightsExactly(source: Node, candidate: Node)
    ensures
      var s, c := source.fields, candidate.fields;
      && Weighted(Signals(source, candidate))
         == Part(0.20, source.title, candidate.title, false) + Part(0.25, s.rootCause, c.rootCause, false)
            + Part(0.20, s.logPattern, c.logPattern, false) + Part(0.15, s.service, c.service, true)
            + Part(0.10, s.metricAnomaly, c.metricAnomaly, false) + Part(0.05, s.deployment, c.deployment, false)
            + Part(0.05, s.resolution, c.resolution, false)
      && Available(Signals(source, candidate))
         == Counted(0.20, source.title) + Counted(0.25, s.rootCause) + Counted(0.20, s.logPattern)
            + Counted(0.15, s.service) + Counted(0.10, s.metricAnomaly) + Counted(0.05, s.deployment)
            + Counted(0.05, s.resolution)
  {
    hide FieldScore;
    var l := Signals(source, candidate);
    Seven(l, l[0], l[1], l[2], l[3], l[4], l[5], l[6]);
  }

  lemma Seven(l: seq<Signal>, a: Signal, b: Signal, c: Signal, d: Signal, e: Signal, f: Signal, g: Signal)
    requires l == [a, b, c, d, e, f, g]
    ensures Weighted(l) == Points(a) + Points(b) + Points(c) + Points(d) + Points(e) + Points(f) + Points(g)
    ensures Available(l) == Weight(a) + Weight(b) + Weight(c) + Weight(d) + Weight(e) + Weight(f) + Weight(g)
  {
    hide Points, Weight;
    More([], a);
    More([a], b);
    More([a, b], c);
    More([a, b, c], d);
    More([a, b, c, d], e);
    More([a, b, c, d, e], f);
    More([a, b, c, d, e, f], g);
    assert l == [a, b, c, d, e, f] + [g];
    assert [] + [a] == [a] && [a] + [b] == [a, b] && [a, b] + [c] == [a, b, c] && [a, b, c] + [d] == [a, b, c, d];
    assert [a, b, c, d] + [e] == [a, b, c, d, e] && [a, b, c, d, e] + [f] == [a, b, c, d, e, f];
  }

  lemma More(l: seq<Signal>, x: Signal)
    ensures Weighted(l + [x]) == Weighted(l) + Points(x) && Available(l + [x]) == Available(l) + Weight(x)
    ensures Weighted([]) == 0.0 && Available([]) == 0.0
  {
    assert (l + [x])[..|l|] == l;
  }

  /** Service names of different tokens, of which one's phrase contains the other's, score three quarters. */
  lemma ContainedNameScores(source: string, candidate: string)
    requires !IsBlank(source) && !IsBlank(candidate)
    requires TokenSet(Trim(source)) != TokenSet(Trim(candidate))
    ensures
      var p, q := Phrase(Trim(source)), Phrase(Trim(candidate));
      var contained := && p != "" && q != ""
                       && ((exists i, j :: 0 <= i <= j <= |p| && p[i..j] == q)
                           || (exists i, j :: 0 <= i <= j <= |q| && q[i..j] == p));
      FieldScore(source, candidate, true) == if contained then 0.75 else Dice(TokenSet(Trim(source)), TokenSet(Trim(candidate)))
  {
    hide TokenSet, Dice, Trim;
    var p, q := Phrase(Trim(source)), Phrase(Trim(candidate));
    PhrasesExactly(Trim(source), Trim(candidate), p, q);
    ContainsExactly(p, q);
    ContainsExactly(q, p);
  }

  lemma ContainsExactly(s: string, t: string)
    ensures Contains(s, t) <==> exists i, j :: 0 <= i <= j <= |s| && s[i..j] == t
  {
    if i, j :| 0 <= i <= j <= |s| && s[i..j] == t {
      assert OccursAt(t, s, i);
    }
    if Contains(s, t) {
      var i :| 0 <= i <= |s| - |t| && OccursAt(t, s, i);
      assert s[i..i + |t|] == t;
    }
  }

  method ScoreNodeSimilarity(source: Node, candidate: Node) returns (score: real)
    ensures score == Score(source, candidate)
  {
    hide FieldScore, IsBlank, Signals;
    var signals := Signals(source, candidate);
    var weightedScore, availableWeight := 0.0, 0.0;
    for k := 0 to |signals|
      invariant weightedScore == Weighted(signals[..k])
      invariant availableWeight == Available(signals[..k])
    {
      var signal := signals[k];
      assert signals[..k + 1][..k] == signals[..k];
      if !IsBlank(signal.source) {
        availableWeight := availableWeight + signal.weight;
        var s := FieldSimilarity(signal.source, signal.candidate, signal.exactMatch);
        weightedScore := weightedScore + signal.weight * s;
      }
    }
    assert signals[..|signals|] == signals;
    if availableWeight == 0.0 {
      return 0.0;
    }
    score := RoundScore(Clamp(weightedScore / availableWeight, 0.0, 1.0));
  }
}
