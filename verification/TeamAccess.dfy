/** Reconciling an SSO identity's team access with its groups. */
module TeamAccess {
  import opened Common

  datatype Mapping = Mapping(groupId: string, provider: string, ssoProvider: Option<Uuid>, team: Uuid, role: string)

  datatype Grant = Grant(team: Uuid, role: string)

  /** (identity, team) -> role */
  type Access = map<(Uuid, Uuid), string>

  predicate Matches(m: Mapping, groupIds: seq<string>, provider: Uuid) {
    && m.groupId in groupIds
    && ((m.ssoProvider == Some(provider) && provider != NIL) || (m.ssoProvider.None? && m.provider == "entra"))
  }

  function Trimmed(groupIds: seq<string>): seq<string> {
    seq(|groupIds|, i requires 0 <= i < |groupIds| => Trim(groupIds[i]))
  }

  /** The matching grants, in the order the query returns them. */
  function GrantsFor(mappings: seq<Mapping>, groupIds: seq<string>, provider: Uuid): seq<Grant> {
    if mappings == [] then []
    else
      (if Matches(mappings[0], groupIds, provider) then [Grant(mappings[0].team, mappings[0].role)] else [])
      + GrantsFor(mappings[1..], groupIds, provider)
  }

  lemma {:induction false} NoGroupsNoGrants(mappings: seq<Mapping>, provider: Uuid)
    ensures GrantsFor(mappings, [], provider) == []
  {
    if mappings != [] {
      NoGroupsNoGrants(mappings[1..], provider);
    }
  }

  // ---- what the reconciliation is for ----------------------------------------------

  /** role is that of the last grant for the team. */
  ghost predicate LastGrant(grants: seq<Grant>, team: Uuid, role: string) {
    exists k :: 0 <= k < |grants| && grants[k] == Grant(team, role) && forall j | k < j < |grants| :: grants[j].team != team
  }

  ghost predicate HasTeam(grants: seq<Grant>, team: Uuid) {
    exists g :: g in grants && g.team == team
  }

  /** Exactly the granted teams, each with the role of its last grant; other identities untouched. */
  ghost predicate Reconciled(before: Access, after: Access, identity: Uuid, grants: seq<Grant>) {
    && (forall team :: (identity, team) in after <==> HasTeam(grants, team))
    && (forall team | (identity, team) in after :: LastGrant(grants, team, after[(identity, team)]))
    && (forall other, team | other != identity ::
          ((other, team) in after <==> (other, team) in before)
          && ((other, team) in after ==> after[(other, team)] == before[(other, team)]))
  }

  lemma LastGrantUnique(grants: seq<Grant>, team: Uuid, r: string, s: string)
    requires LastGrant(grants, team, r) && LastGrant(grants, team, s)
    ensures r == s
  {
    var k :| 0 <= k < |grants| && grants[k] == Grant(team, r) && forall j | k < j < |grants| :: grants[j].team != team;
    var l :| 0 <= l < |grants| && grants[l] == Grant(team, s) && forall j | l < j < |grants| :: grants[j].team != team;
    assert grants[k].team == team && grants[l].team == team;
  }

  /** Reconciling again with the same grants changes nothing. */
  lemma Idempotent(before: Access, once: Access, twice: Access, identity: Uuid, grants: seq<Grant>)
    requires Reconciled(before, once, identity, grants) && Reconciled(once, twice, identity, grants)
    ensures twice == once
  {
    forall x | x in once ensures x in twice && twice[x] == once[x] {
      var (i, team) := x;
      if i == identity {
        assert (identity, team) in twice;
        LastGrantUnique(grants, team, once[x], twice[x]);
      } else {
        assert (i, team) in twice;
      }
    }
    forall x | x in twice ensures x in once {
      var (i, team) := x;
      if i == identity {
        assert (identity, team) in once;
      } else {
        assert (i, team) in once;
      }
    }
    assert twice.Keys == once.Keys;
  }

  // ---- the procedure -------------------------------------------------------------------

  /** Grants upserted on top of an access map. */
  ghost predicate Upserted(before: Access, after: Access, identity: Uuid, grants: seq<Grant>) {
    && (forall i, team :: (i, team) in after <==> (i, team) in before || (i == identity && HasTeam(grants, team)))
    && (forall team | HasTeam(grants, team) && (identity, team) in after ::
          LastGrant(grants, team, after[(identity, team)]))
    && (forall i, team | (i, team) in after && !(i == identity && HasTeam(grants, team)) ::
          (i, team) in before && after[(i, team)] == before[(i, team)])
  }

  lemma UpsertOne(before: Access, after: Access, identity: Uuid, grants: seq<Grant>, g: Grant)
    requires Upserted(before, after, identity, grants)
    ensures Upserted(before, after[(identity, g.team) := g.role], identity, grants + [g])
  {
    var more := grants + [g];
    forall team ensures HasTeam(more, team) <==> HasTeam(grants, team) || team == g.team {
      if HasTeam(grants, team) {
        var x :| x in grants && x.team == team;
        assert x in more;
      }
      assert g in more;
    }
    assert more[|grants|] == g;
    forall team, role | LastGrant(grants, team, role) && team != g.team ensures LastGrant(more, team, role) {
      var k :| 0 <= k < |grants| && grants[k] == Grant(team, role) && forall j | k < j < |grants| :: grants[j].team != team;
      assert more[k] == Grant(team, role);
    }
  }

  // ---- when the order of the grants matters ---------------------------------------------

  /** Nobody granted a team twice with different roles. */
  ghost predicate Consistent(grants: seq<Grant>) {
    forall g, h | g in grants && h in grants && g.team == h.team :: g.role == h.role
  }

  /** after may result from these grants, in whatever order the query returns them. */
  ghost predicate MayResult(before: Access, after: Access, identity: Uuid, grants: seq<Grant>) {
    exists order :: multiset(order) == multiset(grants) && Reconciled(before, after, identity, order)
  }

  lemma ReconciledExists(before: Access, identity: Uuid, grants: seq<Grant>) returns (after: Access)
    ensures Reconciled(before, after, identity, grants)
  {
    var others := map x | x in before && x.0 != identity :: before[x];
    after := others;
    for k := 0 to |grants|
      invariant Upserted(others, after, identity, grants[..k])
    {
      UpsertOne(others, after, identity, grants[..k], grants[k]);
      assert grants[..k + 1] == grants[..k] + [grants[k]];
      after := after[(identity, grants[k].team) := grants[k].role];
    }
    assert grants[..|grants|] == grants;
  }

  lemma SameTeams(a: seq<Grant>, b: seq<Grant>)
    requires multiset(a) == multiset(b)
    ensures forall g :: g in a <==> g in b
    ensures forall team :: HasTeam(a, team) <==> HasTeam(b, team)
  {
    forall g ensures g in a <==> g in b {
      assert g in multiset(a) <==> g in multiset(b);
    }
  }

  /** g can come last. */
  lemma MovedLast(grants: seq<Grant>, g: Grant) returns (order: seq<Grant>)
    requires g in grants
    ensures multiset(order) == multiset(grants) && LastGrant(order, g.team, g.role)
  {
    var k :| 0 <= k < |grants| && grants[k] == g;
    order := grants[..k] + grants[k + 1..] + [g];
    assert grants == grants[..k] + [grants[k]] + grants[k + 1..];
    assert order[|order| - 1] == g;
  }

  lemma ConsistentResults(before: Access, a: Access, b: Access, identity: Uuid, s: seq<Grant>, t: seq<Grant>)
    requires Consistent(s) && multiset(s) == multiset(t)
    requires Reconciled(before, a, identity, s) && Reconciled(before, b, identity, t)
    ensures a == b
  {
    SameTeams(s, t);
    forall x | x in a ensures x in b && b[x] == a[x] {
      var (i, team) := x;
      assert (i, team) in a ==> (i, team) in b;
      if i == identity {
        assert LastGrant(s, team, a[x]) && LastGrant(t, team, b[x]);
        assert Grant(team, a[x]) in s && Grant(team, b[x]) in s;
      }
    }
    forall x | x in b ensures x in a {
      var (i, team) := x;
      assert (i, team) in b ==> (i, team) in a;
    }
    assert a.Keys == b.Keys;
  }

  /** The result is independent of the order of the rows exactly if no team is granted two roles. */
  lemma OrderIrrelevantExactly(before: Access, identity: Uuid, grants: seq<Grant>)
    ensures
      (forall a, b | MayResult(before, a, identity, grants) && MayResult(before, b, identity, grants) :: a == b)
      <==> Consistent(grants)
  {
    if Consistent(grants) {
      forall a, b | MayResult(before, a, identity, grants) && MayResult(before, b, identity, grants) ensures a == b {
        var s :| multiset(s) == multiset(grants) && Reconciled(before, a, identity, s);
        var t :| multiset(t) == multiset(grants) && Reconciled(before, b, identity, t);
        SameTeams(s, grants);
        ConsistentResults(before, a, b, identity, s, t);
      }
    } else {
      var g, h :| g in grants && h in grants && g.team == h.team && g.role != h.role;
      var a := ResultWith(before, identity, grants, g);
      var b := ResultWith(before, identity, grants, h);
      assert a[(identity, g.team)] != b[(identity, g.team)];
    }
  }

  /** Any grant can be the one that decides its team's role. */
  lemma ResultWith(before: Access, identity: Uuid, grants: seq<Grant>, g: Grant) returns (after: Access)
    requires g in grants
    ensures MayResult(before, after, identity, grants)
    ensures (identity, g.team) in after && after[(identity, g.team)] == g.role
  {
    var order := MovedLast(grants, g);
    after := ReconciledExists(before, identity, order);
    SameTeams(order, grants);
    assert HasTeam(order, g.team) && (identity, g.team) in after;
    LastGrantUnique(order, g.team, g.role, after[(identity, g.team)]);
  }

  /** Two groups that map one team to two roles: a member of both may end up with either. */
  lemma RoleDependsOnOrder() returns (mappings: seq<Mapping>, a: Access, b: Access)
    ensures var grants := GrantsFor(mappings, ["g", "h"], 9);
      && MayResult(map[], a, 5, grants) && MayResult(map[], b, 5, grants)
      && a == map[(5, 1) := "admin"] && b == map[(5, 1) := "viewer"]
  {
    mappings := [Mapping("g", "entra", None, 1, "admin"), Mapping("h", "entra", None, 1, "viewer")];
    var admin, viewer := Grant(1, "admin"), Grant(1, "viewer");
    assert mappings[1..] == [mappings[1]] && mappings[1..][1..] == [];
    assert GrantsFor(mappings, ["g", "h"], 9) == [admin, viewer];
    a := OnlyTeam(5, [admin, viewer], admin);
    b := OnlyTeam(5, [admin, viewer], viewer);
  }

  /** Where every grant is for one team, that team is all the identity gets. */
  lemma OnlyTeam(identity: Uuid, grants: seq<Grant>, g: Grant) returns (after: Access)
    requires g in grants && forall h | h in grants :: h.team == g.team
    ensures MayResult(map[], after, identity, grants) && after == map[(identity, g.team) := g.role]
  {
    var nobody: Access := map[];
    after := ResultWith(nobody, identity, grants, g);
    var order :| multiset(order) == multiset(grants) && Reconciled(nobody, after, identity, order);
    SameTeams(order, grants);
    forall x | x in after ensures x == (identity, g.team) {
      var (i, team) := x;
      assert i == identity ==> HasTeam(grants, team);
      assert i != identity ==> ((i, team) in after <==> (i, team) in nobody);
    }
  }

  // ---- which mappings grant, column by column -----------------------------------------------

  /** A mapping of one of the groups, for this provider, or for none when it is an entra mapping. */
  ghost predicate Grants(m: Mapping, groupIds: seq<string>, provider: Uuid) {
    && (exists g :: g in groupIds && m.groupId == Trim(g))
    && (if m.ssoProvider.Some? then provider != NIL && m.ssoProvider.value == provider else m.provider == "entra")
  }

  lemma TrimmedExactly(groupIds: seq<string>, id: string)
    ensures id in Trimmed(groupIds) <==> exists g :: g in groupIds && id == Trim(g)
  {
    if id in Trimmed(groupIds) {
      var k :| 0 <= k < |groupIds| && Trimmed(groupIds)[k] == id;
      assert groupIds[k] in groupIds;
    }
    if g :| g in groupIds && id == Trim(g) {
      var k :| 0 <= k < |groupIds| && groupIds[k] == g;
      assert Trimmed(groupIds)[k] == id;
    }
  }

  lemma {:induction false} GrantsForExactly(mappings: seq<Mapping>, groupIds: seq<string>, provider: Uuid, g: Grant)
    ensures g in GrantsFor(mappings, Trimmed(groupIds), provider)
      <==> exists m :: m in mappings && Grants(m, groupIds, provider) && m.team == g.team && m.role == g.role
  {
    if mappings != [] {
      var first := mappings[0];
      GrantsForExactly(mappings[1..], groupIds, provider, g);
      TrimmedExactly(groupIds, first.groupId);
      assert mappings == [first] + mappings[1..];
      hide Grants;
      assert Matches(first, Trimmed(groupIds), provider) <==> Grants(first, groupIds, provider) by {
        MatchesExactly(first, groupIds, provider);
      }
      hide Matches;
    }
  }

  lemma MatchesExactly(m: Mapping, groupIds: seq<string>, provider: Uuid)
    ensures Matches(m, Trimmed(groupIds), provider) <==> Grants(m, groupIds, provider)
  {
    TrimmedExactly(groupIds, m.groupId);
  }

  /** Afterwards the identity has exactly the teams that some mapping grants it, each with a role it grants. */
  lemma SyncedExactly(before: Access, after: Access, identity: Uuid, mappings: seq<Mapping>, groupIds: seq<string>, provider: Uuid)
    requires Reconciled(before, after, identity, GrantsFor(mappings, Trimmed(groupIds), provider))
    ensures forall team ::
      (identity, team) in after
      <==> exists m :: m in mappings && Grants(m, groupIds, provider) && m.team == team
    ensures forall team | (identity, team) in after ::
      exists m :: m in mappings && Grants(m, groupIds, provider) && m.team == team && m.role == after[(identity, team)]
  {
    hide Grants;
    var grants := GrantsFor(mappings, Trimmed(groupIds), provider);
    forall team
      ensures HasTeam(grants, team) <==> exists m :: m in mappings && Grants(m, groupIds, provider) && m.team == team
    {
      if HasTeam(grants, team) {
        var g :| g in grants && g.team == team;
        GrantsForExactly(mappings, groupIds, provider, g);
      }
      if m :| m in mappings && Grants(m, groupIds, provider) && m.team == team {
        GrantsForExactly(mappings, groupIds, provider, Grant(m.team, m.role));
      }
    }
    forall team | (identity, team) in after
      ensures exists m :: m in mappings && Grants(m, groupIds, provider) && m.team == team && m.role == after[(identity, team)]
    {
      assert LastGrant(grants, team, after[(identity, team)]);
      GrantsForExactly(mappings, groupIds, provider, Grant(team, after[(identity, team)]));
    }
  }

  // ---- the table ---------------------------------------------------------------------------

  class AccessDB {
    var access: Access
    var mappings: seq<Mapping>

    method SyncTeamAccess(identity: Uuid, groupIds: seq<string>, provider: Uuid)
      modifies this`access
      ensures Reconciled(old(access), access, identity, GrantsFor(mappings, Trimmed(groupIds), provider))
    {
      hide Upserted, Matches, LastGrant, HasTeam;
      ghost var before := access;
      NoGrantsNoTeams();
      if |groupIds| == 0 {
        access := map x | x in access && x.0 != identity :: access[x];
        NoGroupsNoGrants(mappings, provider);
        assert Trimmed(groupIds) == [];
        return;
      }
      var grants := GrantsFor(mappings, Trimmed(groupIds), provider);
      UpsertGrants(identity, grants);
      ghost var upserted := access;
      var keep: set<Uuid> := {};
      assert grants[..0] == [];
      for k := 0 to |grants|
        invariant forall team :: team in keep <==> HasTeam(grants[..k], team)
      {
        assert forall team :: HasTeam(grants[..k + 1], team) <==> HasTeam(grants[..k], team) || team == grants[k].team by {
          OneMoreTeam(grants, k);
        }
        keep := keep + {grants[k].team};
      }
      assert grants[..|grants|] == grants;
      var toRevoke := set x | x in access && x.0 == identity && x.1 !in keep :: x.1;
      Revoke(identity, toRevoke);
      assert forall x | x in upserted && x.0 == identity :: x.1 in toRevoke <==> x.1 !in keep;
      RevokedIsReconciled(before, upserted, access, identity, grants, keep);
    }

    method UpsertGrants(identity: Uuid, grants: seq<Grant>)
      modifies this`access
      ensures Upserted(old(access), access, identity, grants)
    {
      ghost var before := access;
      for k := 0 to |grants|
        invariant Upserted(before, access, identity, grants[..k])
      {
        UpsertOne(before, access, identity, grants[..k], grants[k]);
        assert grants[..k + 1] == grants[..k] + [grants[k]];
        access := access[(identity, grants[k].team) := grants[k].role];
      }
      assert grants[..|grants|] == grants;
    }

    method Revoke(identity: Uuid, teams: set<Uuid>)
      modifies this`access
      ensures access == map x | x in old(access) && !(x.0 == identity && x.1 in teams) :: old(access)[x]
    {
      ghost var before := access;
      var rest := teams;
      while rest != {}
        invariant rest <= teams
        invariant forall x | x in access :: x in before && access[x] == before[x]
        invariant forall x | x in before :: x in access <==> !(x.0 == identity && x.1 in teams && x.1 !in rest)
        decreases |rest|
      {
        var team := Pick(rest);
        access := map x | x in access && x != (identity, team) :: access[x];
        rest := rest - {team};
      }
    }
  }

  lemma NoGrantsNoTeams()
    ensures forall team :: !HasTeam([], team)
  {
  }

  /** Upserting, and then revoking every team that has no grant, reconciles. */
  lemma RevokedIsReconciled(before: Access, upserted: Access, after: Access, identity: Uuid, grants: seq<Grant>,
    keep: set<Uuid>)
    requires Upserted(before, upserted, identity, grants)
    requires forall team :: team in keep <==> HasTeam(grants, team)
    requires after == map x | x in upserted && (x.0 == identity ==> x.1 in keep) :: upserted[x]
    ensures Reconciled(before, after, identity, grants)
  {
    hide LastGrant, HasTeam;
    forall team ensures (identity, team) in after <==> HasTeam(grants, team) {
      assert (identity, team) in upserted <==> (identity, team) in before || HasTeam(grants, team);
    }
  }

  lemma OneMoreTeam(grants: seq<Grant>, k: nat)
    requires k < |grants|
    ensures forall team :: HasTeam(grants[..k + 1], team) <==> HasTeam(grants[..k], team) || team == grants[k].team
  {
    assert grants[..k + 1] == grants[..k] + [grants[k]];
    forall team ensures HasTeam(grants[..k + 1], team) <==> HasTeam(grants[..k], team) || team == grants[k].team {
      if HasTeam(grants[..k], team) {
        var x :| x in grants[..k] && x.team == team;
        assert x in grants[..k + 1];
      }
      assert grants[k] in grants[..k + 1];
    }
  }
}
