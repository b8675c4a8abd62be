/** SELECT ... ORDER BY key LIMIT n, over a set of row ids. */
module Queries {
  import opened Common
  import Sorting = StableSorting

  /** r may be the answer: the first ids by key, at most limit of them. */
  ghost predicate IsFirst(ids: set<Uuid>, key: Uuid -> int, limit: nat, r: seq<Uuid>) {
    && NoDuplicates(r) && |r| <= limit
    && (forall id | id in r :: id in ids)
    && (forall i, j | 0 <= i < j < |r| :: key(r[i]) <= key(r[j]))
    && (forall id | id in ids && id !in r :: |r| == limit && forall x | x in r :: key(x) <= key(id))
  }

  function SortedBy(found: seq<Uuid>, key: Uuid -> int): seq<Uuid> {
    Sorting.Sort(found, (i, j) => key(i) < key(j))
  }

  lemma SortedByKey(found: seq<Uuid>, key: Uuid -> int)
    requires NoDuplicates(found)
    ensures
      var all := SortedBy(found, key);
      && NoDuplicates(all)
      && (forall id :: id in all <==> id in found)
      && (forall i, j | 0 <= i < j < |all| :: key(all[i]) <= key(all[j]))
  {
    var less := (i, j) => key(i) < key(j);
    Sorting.SortSorted(found, less);
    Sorting.SortElements(found, less);
    Sorting.SortDistinct(found, less);
    var all := Sorting.Sort(found, less);
    assert forall i, j | 0 <= i < j < |all| :: !less(all[j], all[i]);
  }

  function Truncated(all: seq<Uuid>, limit: nat): seq<Uuid> {
    if |all| <= limit then all else all[..limit]
  }

  /** Whatever order the rows are found in, the first of them after sorting are an answer. */
  lemma SortedFirst(ids: set<Uuid>, found: seq<Uuid>, key: Uuid -> int, limit: nat)
    requires NoDuplicates(found) && forall id :: id in found <==> id in ids
    ensures IsFirst(ids, key, limit, Truncated(SortedBy(found, key), limit))
  {
    hide SortedBy;
    SortedByKey(found, key);
    var all := SortedBy(found, key);
    if |all| > limit {
      FirstOfSorted(all, key, limit);
    }
  }

  method OrderByLimit(ids: set<Uuid>, key: Uuid -> int, limit: nat) returns (r: seq<Uuid>)
    ensures IsFirst(ids, key, limit, r)
  {
    var found := Enumerate(ids);
    SortedFirst(ids, found, key, limit);
    r := Truncated(SortedBy(found, key), limit);
  }

  /** Every query has an answer. */
  lemma FirstExists(ids: set<Uuid>, key: Uuid -> int, limit: nat) returns (r: seq<Uuid>)
    ensures IsFirst(ids, key, limit, r)
  {
    var found := Listed(ids);
    SortedFirst(ids, found, key, limit);
    r := Truncated(SortedBy(found, key), limit);
  }

  lemma FirstOfSorted(all: seq<Uuid>, key: Uuid -> int, limit: nat)
    requires limit <= |all|
    requires forall i, j | 0 <= i < j < |all| :: key(all[i]) <= key(all[j])
    ensures forall id, x | id in all && id !in all[..limit] && x in all[..limit] :: key(x) <= key(id)
  {
    assert forall j | 0 <= j < limit :: all[..limit][j] == all[j];
    forall id, x | id in all && id !in all[..limit] && x in all[..limit] ensures key(x) <= key(id) {
      var k :| 0 <= k < |all| && all[k] == id;
      var i :| 0 <= i < limit && all[i] == x;
    }
  }
}
