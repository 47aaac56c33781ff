/** `SimpleAclAuthorizer::authorize`: the loop over the index decides as the oracle over the raw list. */
module AclAuthorizer {
  import opened Bytes
  import opened Acl
  import opened AclIndex
  import Utf8

  /** Some of the first `n` listed entries with `permission` concerns the subject. */
  ghost predicate Seen(entries: seq<AclEntry>, ps: seq<nat>, n: nat, who: Subject, permission: PermissionType)
    requires n <= |ps| && forall i :: 0 <= i < |ps| ==> ps[i] < |entries|
  {
    exists k :: 0 <= k < n && entries[ps[k]].permission == permission && Concerns(entries[ps[k]], who)
  }

  lemma PicksDecide(entries: seq<AclEntry>, ps: seq<nat>, who: Subject, rt: ResourceType, name: seq<u8>, permission: PermissionType)
    requires Picks(ps, entries, MatchingAny(rt, name))
    ensures forall i :: 0 <= i < |ps| ==> ps[i] < |entries| && MatchesResource(entries[ps[i]], rt, name)
    ensures Seen(entries, ps, |ps|, who, permission) <==> AnyApplies(entries, who, rt, name, permission)
    ensures ps != [] <==> Covered(entries, rt, name)
  {
    hide Concerns, OracleConcerns, MatchesResource, OracleCovers;
    forall i | 0 <= i < |entries|
      ensures Concerns(entries[i], who) == OracleConcerns(entries[i], who)
      ensures MatchesResource(entries[i], rt, name) == OracleCovers(entries[i], rt, name)
    {
      MatchersAgree(entries[i], who, rt, name);
    }
    assert forall i :: 0 <= i < |ps| ==> ps[i] in ps;
    if ps != [] {
      assert OracleCovers(entries[ps[0]], rt, name);
    }
    if AnyApplies(entries, who, rt, name, permission) {
      var i :| 0 <= i < |entries| && entries[i].permission == permission
        && OracleCovers(entries[i], rt, name) && OracleConcerns(entries[i], who);
      assert i in ps;
      var k :| 0 <= k < |ps| && ps[k] == i;
    }
    if Covered(entries, rt, name) {
      var i :| 0 <= i < |entries| && OracleCovers(entries[i], rt, name);
      assert i in ps;
    }
  }

  /** `authorize`: one pass over the matching entries, stopping at the first DENY that applies. */
  method Authorize(c: Config, cache: AclCache, who: Subject, rt: ResourceType, name: seq<u8>) returns (d: Decision)
    requires Indexed(cache) && TextNames(cache.entries) && Utf8.Valid(name)
    ensures d == Oracle(c, cache.entries, who, rt, name)
  {
    hide Picks, Indexed, AnyApplies, Covered, Concerns, MatchesResource, Utf8.Valid;
    var superUser := who.user in c.superUsers;
    var sawAllow, sawDeny, hasResourceAcls := false, false, false;
    if !superUser {
      var entries := cache.entries;
      var ps := MatchingPositions(cache, rt, name);
      PicksDecide(entries, ps, who, rt, name, Allow);
      PicksDecide(entries, ps, who, rt, name, Deny);
      var i := 0;
      while i < |ps|
        invariant i <= |ps| && !Seen(entries, ps, i, who, Deny)
        invariant sawAllow == Seen(entries, ps, i, who, Allow) && !sawDeny && hasResourceAcls == (i > 0)
      {
        var entry := entries[ps[i]];
        hasResourceAcls := true;
        if Concerns(entry, who) {
          match entry.permission
          case Allow =>
            sawAllow := true;
          case Deny =>
            sawDeny := true;
            assert Seen(entries, ps, |ps|, who, Deny);
            break;
        }
        i := i + 1;
      }
    }
    d := Decide(superUser, sawAllow, sawDeny, c.allowIfNoAcl && !hasResourceAcls);
  }

  /** The decision does not depend on the order of the entries. */
  lemma OrderDoesNotMatter(c: Config, a: seq<AclEntry>, b: seq<AclEntry>, who: Subject, rt: ResourceType, name: seq<u8>)
    requires forall e :: e in a <==> e in b
    ensures Oracle(c, a, who, rt, name) == Oracle(c, b, who, rt, name)
  {
    hide OracleConcerns, OracleCovers;
    AppliesIn(a, b, who, rt, name, Allow);
    AppliesIn(b, a, who, rt, name, Allow);
    AppliesIn(a, b, who, rt, name, Deny);
    AppliesIn(b, a, who, rt, name, Deny);
    CoveredIn(a, b, rt, name);
    CoveredIn(b, a, rt, name);
  }

  lemma AppliesIn(a: seq<AclEntry>, b: seq<AclEntry>, who: Subject, rt: ResourceType, name: seq<u8>, permission: PermissionType)
    requires forall e :: e in a ==> e in b
    ensures AnyApplies(a, who, rt, name, permission) ==> AnyApplies(b, who, rt, name, permission)
  {
    hide OracleConcerns, OracleCovers;
    if AnyApplies(a, who, rt, name, permission) {
      var i :| 0 <= i < |a| && a[i].permission == permission && OracleCovers(a[i], rt, name) && OracleConcerns(a[i], who);
      assert a[i] in b;
      var j :| 0 <= j < |b| && b[j] == a[i];
    }
  }

  lemma CoveredIn(a: seq<AclEntry>, b: seq<AclEntry>, rt: ResourceType, name: seq<u8>)
    requires forall e :: e in a ==> e in b
    ensures Covered(a, rt, name) ==> Covered(b, rt, name)
  {
    hide OracleCovers;
    if Covered(a, rt, name) {
      var i :| 0 <= i < |a| && OracleCovers(a[i], rt, name);
      assert a[i] in b;
      var j :| 0 <= j < |b| && b[j] == a[i];
    }
  }

  /** The no-ACL default allows exactly the resources no entry covers, and then only when nothing else
      decides. */
  lemma DefaultOnlyWhenUncovered(c: Config, entries: seq<AclEntry>, who: Subject, rt: ResourceType, name: seq<u8>)
    ensures Oracle(c, entries, who, rt, name) == AllowNoAcl
       <==> c.allowIfNoAcl && who.user !in c.superUsers && !Covered(entries, rt, name)
  {
    hide OracleConcerns, OracleCovers;
  }
}
