/** `authorize_by_resource_type`, and how its answer relates to the per-name decision. */
module AclByType {
  import opened Bytes
  import opened Numerals
  import opened Acl
  import opened AclIndex
  import opened AclAuthorizer
  import Utf8

  const HARDCODED_NAME := Ascii("hardcode")

  // ----- The dominating DENYs -----

  /** The entries of type `rt` that concern the subject, with `permission`. */
  predicate Applicable(e: AclEntry, who: Subject, rt: ResourceType, permission: PermissionType) {
    e.resourceType == rt && Concerns(e, who) && e.permission == permission
  }

  datatype DeniedNames = DeniedNames(wildcard: bool, literals: set<seq<u8>>, prefixes: seq<seq<u8>>) {
    predicate AllowsPrefix(prefix: seq<u8>) {
      !wildcard && forall i :: 0 <= i < |prefixes| ==> !Utf8.StartsWith(prefix, prefixes[i])
    }

    predicate AllowsLiteral(name: seq<u8>) { name !in literals && AllowsPrefix(name) }

    predicate AllowsWildcard() { !wildcard }

    /** The check `authorize_by_resource_type` makes of one ALLOW entry. */
    predicate Allows(e: AclEntry) {
      match e.patternType
      case Literal => if e.resourceName == WILDCARD then AllowsWildcard() else AllowsLiteral(e.resourceName)
      case Prefixed => AllowsPrefix(e.resourceName)
    }
  }

  /** An applicable DENY of the given pattern and name. */
  ghost predicate Denied(entries: seq<AclEntry>, who: Subject, rt: ResourceType, pattern: PatternType, name: seq<u8>) {
    exists e :: e in entries && Applicable(e, who, rt, Deny) && e.patternType == pattern && e.resourceName == name
  }

  ghost predicate Collected(d: DeniedNames, entries: seq<AclEntry>, who: Subject, rt: ResourceType) {
    && d.wildcard == Denied(entries, who, rt, Literal, WILDCARD)
    && (forall name :: name in d.literals <==> name != WILDCARD && Denied(entries, who, rt, Literal, name))
    && (forall name :: name in d.prefixes <==> Denied(entries, who, rt, Prefixed, name))
  }

  function AddDenied(d: DeniedNames, e: AclEntry): DeniedNames {
    match e.patternType
    case Literal => if e.resourceName == WILDCARD then d.(wildcard := true) else d.(literals := d.literals + {e.resourceName})
    case Prefixed => d.(prefixes := d.prefixes + [e.resourceName])
  }

  lemma DeniedSnoc(entries: seq<AclEntry>, e: AclEntry, who: Subject, rt: ResourceType, pattern: PatternType, name: seq<u8>)
    ensures Denied(entries + [e], who, rt, pattern, name)
       <==> || Denied(entries, who, rt, pattern, name)
            || (Applicable(e, who, rt, Deny) && e.patternType == pattern && e.resourceName == name)
  {
    hide Applicable;
    assert forall x :: x in entries + [e] <==> x in entries || x == e;
  }

  lemma CollectedSnoc(d: DeniedNames, entries: seq<AclEntry>, e: AclEntry, who: Subject, rt: ResourceType)
    requires Collected(d, entries, who, rt)
    ensures Collected(if Applicable(e, who, rt, Deny) then AddDenied(d, e) else d, entries + [e], who, rt)
  {
    hide Applicable, Denied;
    var d' := if Applicable(e, who, rt, Deny) then AddDenied(d, e) else d;
    DeniedSnoc(entries, e, who, rt, Literal, WILDCARD);
    forall name
      ensures name in d'.literals <==> name != WILDCARD && Denied(entries + [e], who, rt, Literal, name)
      ensures name in d'.prefixes <==> Denied(entries + [e], who, rt, Prefixed, name)
    {
      DeniedSnoc(entries, e, who, rt, Literal, name);
      DeniedSnoc(entries, e, who, rt, Prefixed, name);
    }
  }

  /** `DeniedNames::new` over the applicable DENYs. */
  method CollectDenied(applicable: seq<AclEntry>, who: Subject, rt: ResourceType) returns (d: DeniedNames)
    requires forall i :: 0 <= i < |applicable| ==> applicable[i].resourceType == rt && Concerns(applicable[i], who)
    ensures Collected(d, applicable, who, rt)
  {
    hide Concerns, Denied, Collected, AddDenied;
    d := DeniedNames(false, {}, []);
    NothingCollected(who, rt);
    assert applicable[..0] == [];
    for i := 0 to |applicable|
      invariant Collected(d, applicable[..i], who, rt)
    {
      CollectedSnoc(d, applicable[..i], applicable[i], who, rt);
      assert applicable[..i + 1] == applicable[..i] + [applicable[i]];
      if applicable[i].permission == Deny {
        d := AddDenied(d, applicable[i]);
      }
    }
    assert applicable[..|applicable|] == applicable;
  }

  lemma NothingCollected(who: Subject, rt: ResourceType)
    ensures Collected(DeniedNames(false, {}, []), [], who, rt)
  {
  }

  // ----- The query -----

  /** A DENY dominates every name that starts with `name`. */
  ghost predicate Dominated(entries: seq<AclEntry>, who: Subject, rt: ResourceType, name: seq<u8>) {
    || Denied(entries, who, rt, Literal, WILDCARD)
    || exists k :: 0 <= k <= |name| && Denied(entries, who, rt, Prefixed, name[..k])
  }

  ghost predicate Uncovered(entries: seq<AclEntry>, who: Subject, rt: ResourceType, e: AclEntry) {
    match e.patternType
    case Literal =>
      if e.resourceName == WILDCARD then !Denied(entries, who, rt, Literal, WILDCARD)
      else !Denied(entries, who, rt, Literal, e.resourceName) && !Dominated(entries, who, rt, e.resourceName)
    case Prefixed => !Dominated(entries, who, rt, e.resourceName)
  }

  ghost predicate Grants(entries: seq<AclEntry>, who: Subject, rt: ResourceType, e: AclEntry) {
    Applicable(e, who, rt, Allow) && Uncovered(entries, who, rt, e)
  }

  /** The answer to "is some resource of this type allowed". */
  ghost predicate ByType(c: Config, entries: seq<AclEntry>, who: Subject, rt: ResourceType) {
    || who.user in c.superUsers
    || Oracle(c, entries, who, rt, Ascii("hardcode")).Allows()
    || exists e :: e in entries && Grants(entries, who, rt, e)
  }

  lemma CollectedAllows(d: DeniedNames, entries: seq<AclEntry>, who: Subject, rt: ResourceType, e: AclEntry)
    requires Collected(d, entries, who, rt)
    ensures d.Allows(e) <==> Uncovered(entries, who, rt, e)
  {
    hide Denied;
    var name := e.resourceName;
    if exists k :: 0 <= k <= |name| && Denied(entries, who, rt, Prefixed, name[..k]) {
      var k :| 0 <= k <= |name| && Denied(entries, who, rt, Prefixed, name[..k]);
      assert name[..k] in d.prefixes;
    }
    if exists i :: 0 <= i < |d.prefixes| && Utf8.StartsWith(name, d.prefixes[i]) {
      var i :| 0 <= i < |d.prefixes| && Utf8.StartsWith(name, d.prefixes[i]);
      assert d.prefixes[i] in d.prefixes && name[..|d.prefixes[i]|] == d.prefixes[i];
    }
  }

  /** `acls_of_type`, filtered to the entries that concern the subject. */
  method ApplicableEntries(cache: AclCache, who: Subject, rt: ResourceType) returns (es: seq<AclEntry>)
    requires Indexed(cache)
    ensures forall i :: 0 <= i < |es| ==> es[i].resourceType == rt && Concerns(es[i], who)
    ensures forall e :: e in es <==> e in cache.entries && e.resourceType == rt && Concerns(e, who)
  {
    hide Concerns;
    var (all, entries) := (IndexOf(cache.byType, rt).all, cache.entries);
    assert Lists(entries, rt, IndexOf(cache.byType, rt));
    es := [];
    for i := 0 to |all|
      invariant forall k :: 0 <= k < |es| ==> es[k].resourceType == rt && Concerns(es[k], who)
      invariant forall e :: e in es ==> e in entries
      invariant forall k :: 0 <= k < i && Concerns(entries[all[k]], who) ==> entries[all[k]] in es
    {
      if Concerns(entries[all[i]], who) {
        es := es + [entries[all[i]]];
      }
    }
    forall e | e in entries && e.resourceType == rt && Concerns(e, who) ensures e in es {
      var i :| 0 <= i < |entries| && entries[i] == e;
      WhereIsComplete(entries, OfType(rt), i);
      var k :| 0 <= k < |all| && all[k] == i;
    }
  }

  lemma SameDenied(a: seq<AclEntry>, entries: seq<AclEntry>, who: Subject, rt: ResourceType)
    requires forall e :: e in a <==> e in entries && e.resourceType == rt && Concerns(e, who)
    ensures forall pattern, name :: Denied(a, who, rt, pattern, name) == Denied(entries, who, rt, pattern, name)
    ensures forall e :: Uncovered(a, who, rt, e) == Uncovered(entries, who, rt, e)
  {
    hide Concerns;
    forall pattern, name ensures Denied(a, who, rt, pattern, name) == Denied(entries, who, rt, pattern, name) {
    }
    forall e ensures Uncovered(a, who, rt, e) == Uncovered(entries, who, rt, e) {
      hide Denied;
    }
  }

  /** `authorize_by_resource_type`. */
  method AuthorizeByType(c: Config, cache: AclCache, who: Subject, rt: ResourceType) returns (allowed: bool)
    requires Indexed(cache) && TextNames(cache.entries)
    ensures allowed <==> ByType(c, cache.entries, who, rt)
  {
    hide Indexed, Oracle, Collected, Concerns, Uncovered, Denied, Dominated, DeniedNames.Allows, Utf8.Valid;
    if who.user in c.superUsers {
      return true;
    }
    Utf8.AsciiIsText(HARDCODED_NAME);
    var probe := Authorize(c, cache, who, rt, HARDCODED_NAME);
    if probe.Allows() {
      return true;
    }
    var applicable := ApplicableEntries(cache, who, rt);
    var denied := CollectDenied(applicable, who, rt);
    SameDenied(applicable, cache.entries, who, rt);
    for i := 0 to |applicable|
      invariant forall k :: 0 <= k < i ==> !Grants(cache.entries, who, rt, applicable[k])
    {
      var e := applicable[i];
      CollectedAllows(denied, applicable, who, rt, e);
      if e.permission == Allow && denied.Allows(e) {
        assert e in cache.entries && Grants(cache.entries, who, rt, e);
        return true;
      }
    }
    return false;
  }
}
