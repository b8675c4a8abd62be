/** The similarity search: the best matches of a node among the permanent nodes of its type. */
module SimilarSearch {
  import opened Common
  import opened GraphModel
  import opened Similarity
  import Sorting = StableSorting

  datatype Match = Match(id: Uuid, score: real, createdAt: int)

  /** Higher scores first, newer nodes first among equals. */
  predicate RanksBefore(a: Match, b: Match) {
    if a.score == b.score then a.createdAt > b.createdAt else a.score > b.score
  }

  ghost function MatchOf(g: Graph, source: Uuid, id: Uuid): Match
    requires source in g.nodes && id in g.nodes
  {
    Match(id, Score(g.nodes[source], g.nodes[id]), g.nodes[id].createdAt)
  }

  ghost predicate Qualifies(g: Graph, team: Uuid, source: Uuid, minScore: real, m: Match) {
    Candidate(g, team, source, m.id) && m == MatchOf(g, source, m.id) && m.score >= minScore
  }

  /** A ranking of qualifying matches, with none left out that ranks before one taken. */
  ghost predicate IsTop(g: Graph, team: Uuid, source: Uuid, minScore: real, limit: int, r: seq<Match>) {
    && |r| <= limit && NoDuplicates(r) && Sorting.Sorted(r, RanksBefore)
    && (forall m | m in r :: Qualifies(g, team, source, minScore, m))
    && (forall m | Qualifies(g, team, source, minScore, m) && m !in r ::
          |r| == limit && forall x | x in r :: !RanksBefore(m, x))
  }

  lemma RanksBeforeIsWeakOrder()
    ensures Sorting.StrictWeakOrder(RanksBefore)
  {
  }

  lemma TopOfSorted(all: seq<Match>, limit: nat)
    requires limit <= |all| && NoDuplicates(all) && Sorting.Sorted(all, RanksBefore)
    ensures Sorting.Sorted(all[..limit], RanksBefore) && NoDuplicates(all[..limit])
    ensures forall m, x | m in all && m !in all[..limit] && x in all[..limit] :: !RanksBefore(m, x)
  {
    assert forall j | 0 <= j < limit :: all[..limit][j] == all[j];
    forall m, x | m in all && m !in all[..limit] && x in all[..limit] ensures !RanksBefore(m, x) {
      var k :| 0 <= k < |all| && all[k] == m;
      var i :| 0 <= i < limit && all[i] == x;
      assert k >= limit;
    }
  }

  /** The permanent nodes of the team and of the source's type, other than the source, that score enough. */
  ghost function QualifyingNodes(g: Graph, team: Uuid, source: Uuid, minScore: real): set<Uuid>
    requires source in g.nodes
  {
    set id | id in g.nodes && id != source && g.nodes[id].team == team && g.nodes[id].kind == g.nodes[source].kind
      && g.nodes[id].status.Permanent? && Score(g.nodes[source], g.nodes[id]) >= minScore
  }

  /**
   * What the answer is, in scores and creation times: qualifying nodes, each once, by falling score and,
   * among equals, from newer to older; as many as there are up to the limit; and nothing left out that
   * scores higher than a node taken, or equal and newer.
   */
  ghost predicate IsRanking(g: Graph, team: Uuid, source: Uuid, minScore: real, limit: int, r: seq<Match>) {
    && source in g.nodes
    && (forall m | m in r ::
          && m.id in QualifyingNodes(g, team, source, minScore)
          && m.score == Score(g.nodes[source], g.nodes[m.id]) && m.createdAt == g.nodes[m.id].createdAt)
    && (forall i, j | 0 <= i < j < |r| ::
          && r[i].id != r[j].id
          && (r[i].score > r[j].score || (r[i].score == r[j].score && r[i].createdAt >= r[j].createdAt)))
    && (forall id, m | id in QualifyingNodes(g, team, source, minScore) && m in r && (forall x | x in r :: x.id != id) ::
          var score := Score(g.nodes[source], g.nodes[id]);
          score < m.score || (score == m.score && g.nodes[id].createdAt <= m.createdAt))
    && (|r| == if |QualifyingNodes(g, team, source, minScore)| < limit
               then |QualifyingNodes(g, team, source, minScore)| else limit)
  }

  lemma TopIsRanking(g: Graph, team: Uuid, source: Uuid, minScore: real, limit: int, r: seq<Match>)
    requires limit > 0 && source in g.nodes && g.nodes[source].team == team
    requires IsTop(g, team, source, minScore, limit, r)
    ensures IsRanking(g, team, source, minScore, limit, r)
  {
    hide Score;
    var ids := QualifyingNodes(g, team, source, minScore);
    forall i, j | 0 <= i < j < |r|
      ensures r[i].id != r[j].id
      ensures r[i].score > r[j].score || (r[i].score == r[j].score && r[i].createdAt >= r[j].createdAt)
    {
      assert r[i] in r && r[j] in r && !RanksBefore(r[j], r[i]);
    }
    forall id | id in ids && (forall x | x in r :: x.id != id)
      ensures |r| == limit
      ensures forall m | m in r :: !RanksBefore(MatchOf(g, source, id), m)
    {
      assert Qualifies(g, team, source, minScore, MatchOf(g, source, id));
      assert MatchOf(g, source, id).id == id;
    }
    CountTaken(ids, r, limit);
  }

  /** Distinct ids, taken from a set, until it or the limit runs out. */
  lemma CountTaken(ids: set<Uuid>, r: seq<Match>, limit: int)
    requires |r| <= limit && forall i, j | 0 <= i < j < |r| :: r[i].id != r[j].id
    requires forall m | m in r :: m.id in ids
    requires forall id | id in ids && (forall x | x in r :: x.id != id) :: |r| == limit
    ensures |r| == if |ids| < limit then |ids| else limit
  {
    var taken := seq(|r|, i requires 0 <= i < |r| => r[i].id);
    DistinctSize(taken);
    forall id | id in Elements(taken) ensures id in ids {
      var i :| 0 <= i < |taken| && taken[i] == id;
      assert r[i] in r;
    }
    SubsetSize(Elements(taken), ids);
    if |r| < limit {
      forall id | id in ids ensures id in Elements(taken) {
        var x :| x in r && x.id == id;
        var i :| 0 <= i < |r| && r[i] == x;
        assert taken[i] == id;
      }
      assert Elements(taken) == ids;
    }
  }

  method FindSimilar(g: Graph, team: Uuid, nodeId: Uuid, limit: int, minScore: real) returns (r: Result<seq<Match>>)
    ensures team == NIL ==> r == Err("team id is required")
    ensures team != NIL && nodeId == NIL ==> r == Err("node id is required")
    ensures team != NIL && nodeId != NIL && limit <= 0 ==> r == Ok([])
    ensures team != NIL && nodeId != NIL && limit > 0 ==>
      if NodeOfTeam(g, team, nodeId) then r.Ok? && IsTop(g, team, nodeId, minScore, limit, r.value)
      else r == Err("graph node not found")
    ensures team != NIL && nodeId != NIL && limit > 0 && r.Ok? ==>
      IsRanking(g, team, nodeId, minScore, limit, r.value)
    ensures r.Ok? ==> forall m | m in r.value :: 0.0 <= m.score <= 1.0
  {
    hide Score;
    if team == NIL {
      return Err("team id is required");
    }
    if nodeId == NIL {
      return Err("node id is required");
    }
    if limit <= 0 {
      return Ok([]);
    }
    if !NodeOfTeam(g, team, nodeId) {
      return Err("graph node not found");
    }
    var found := Matches(g, team, nodeId, minScore);
    RanksBeforeIsWeakOrder();
    Sorting.SortSorted(found, RanksBefore);
    Sorting.SortElements(found, RanksBefore);
    Sorting.SortDistinct(found, RanksBefore);
    var all := Sorting.Sort(found, RanksBefore);
    if |all| > limit {
      TopOfSorted(all, limit);
      r := Ok(all[..limit]);
    } else {
      r := Ok(all);
    }
    TopIsRanking(g, team, nodeId, minScore, limit, r.value);
  }

  /** The rows of the query, scored, in whatever order the database returns them. */
  method Matches(g: Graph, team: Uuid, source: Uuid, minScore: real) returns (found: seq<Match>)
    requires source in g.nodes
    ensures NoDuplicates(found)
    ensures forall m :: m in found <==> Qualifies(g, team, source, minScore, m)
    ensures forall m | m in found :: 0.0 <= m.score <= 1.0
  {
    hide Score;
    var rows := Enumerate(set id | id in g.nodes && Candidate(g, team, source, id));
    found := [];
    for k := 0 to |rows|
      invariant NoDuplicates(found)
      invariant forall m :: m in found <==> Qualifies(g, team, source, minScore, m) && m.id in rows[..k]
      invariant forall m | m in found :: 0.0 <= m.score <= 1.0
    {
      var id := rows[k];
      assert id in rows && id !in rows[..k];
      var score := ScoreNodeSimilarity(g.nodes[source], g.nodes[id]);
      ScoreInUnit(g.nodes[source], g.nodes[id]);
      assert forall i :: i in rows[..k + 1] <==> i in rows[..k] || i == id;
      if score >= minScore {
        found := found + [Match(id, score, g.nodes[id].createdAt)];
      }
    }
    assert rows[..|rows|] == rows;
    forall m | Qualifies(g, team, source, minScore, m) ensures m in found {
      assert m.id in rows;
    }
  }

  // ---- the answer does not depend on the order of the rows -----------------------------

  lemma PrefixSize(s: seq<Match>, k: nat)
    requires k <= |s| && NoDuplicates(s)
    ensures |Elements(s[..k])| == k
  {
    DistinctSize(s[..k]);
  }

  /** The k-th match of one answer never ranks before the k-th match of another. */
  lemma NoBetterAnswer(g: Graph, team: Uuid, source: Uuid, minScore: real, limit: int, a: seq<Match>, b: seq<Match>, k: nat)
    requires IsTop(g, team, source, minScore, limit, a) && IsTop(g, team, source, minScore, limit, b)
    requires k < |a| && k < |b|
    ensures !RanksBefore(a[k], b[k])
  {
    hide Qualifies;
    if RanksBefore(a[k], b[k]) {
      forall m | m in Elements(a[..k + 1]) ensures m in Elements(b[..k]) {
        var i :| 0 <= i <= k && a[i] == m;
        assert i == k || !RanksBefore(a[k], a[i]);
        assert RanksBefore(m, b[k]);
        assert b[k] in b && m in a && m in b;
        var j :| 0 <= j < |b| && b[j] == m;
        assert j < k;
        assert b[..k][j] == m;
      }
      PrefixSize(a, k + 1);
      PrefixSize(b, k);
      SubsetSize(Elements(a[..k + 1]), Elements(b[..k]));
    }
  }

  /** Two answers to one search have the same length, scores and creation times, place by place. */
  lemma AnswersAgree(g: Graph, team: Uuid, source: Uuid, minScore: real, limit: int, a: seq<Match>, b: seq<Match>)
    requires IsTop(g, team, source, minScore, limit, a) && IsTop(g, team, source, minScore, limit, b)
    ensures |a| == |b|
    ensures forall k | 0 <= k < |a| :: a[k].score == b[k].score && a[k].createdAt == b[k].createdAt
  {
    SameLength(g, team, source, minScore, limit, a, b);
    SameLength(g, team, source, minScore, limit, b, a);
    forall k | 0 <= k < |a| ensures a[k].score == b[k].score && a[k].createdAt == b[k].createdAt {
      NoBetterAnswer(g, team, source, minScore, limit, a, b, k);
      NoBetterAnswer(g, team, source, minScore, limit, b, a, k);
    }
  }

  lemma SameLength(g: Graph, team: Uuid, source: Uuid, minScore: real, limit: int, a: seq<Match>, b: seq<Match>)
    requires IsTop(g, team, source, minScore, limit, a) && IsTop(g, team, source, minScore, limit, b)
    ensures |a| <= |b|
  {
    hide Qualifies, RanksBefore;
    if |b| < limit {
      assert forall m | m in Elements(a) :: m in Elements(b);
      DistinctSize(a);
      DistinctSize(b);
      SubsetSize(Elements(a), Elements(b));
    }
  }
}
