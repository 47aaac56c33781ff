/** The by-type query against the per-name decision: what it never misses, what it overstates, and
    exactly when. */
module AclTheorems {
  import opened Bytes
  import opened Acl
  import opened AclIndex
  import opened AclByType
  import opened Unicode
  import Utf8

  /** An applicable DENY covers exactly the names it should: its own, every name, or its extensions. */
  lemma DenyCovers(entries: seq<AclEntry>, who: Subject, rt: ResourceType, name: seq<u8>)
    ensures AnyApplies(entries, who, rt, name, Deny)
       <==> || Denied(entries, who, rt, Literal, name)
            || Denied(entries, who, rt, Literal, WILDCARD)
            || exists k :: 0 <= k <= |name| && Denied(entries, who, rt, Prefixed, name[..k])
  {
    hide Concerns, OracleConcerns;
    if AnyApplies(entries, who, rt, name, Deny) {
      var i :| 0 <= i < |entries| && entries[i].permission == Deny
        && OracleCovers(entries[i], rt, name) && OracleConcerns(entries[i], who);
      var e := entries[i];
      MatchersAgree(e, who, rt, name);
      assert Denied(entries, who, rt, e.patternType, e.resourceName);
      assert e.patternType == Prefixed ==> name[..|e.resourceName|] == e.resourceName;
    }
    if Denied(entries, who, rt, Literal, name) {
      DenyApplies(entries, who, rt, Literal, name, name);
    }
    if Denied(entries, who, rt, Literal, WILDCARD) {
      DenyApplies(entries, who, rt, Literal, WILDCARD, name);
    }
    if exists k :: 0 <= k <= |name| && Denied(entries, who, rt, Prefixed, name[..k]) {
      var k :| 0 <= k <= |name| && Denied(entries, who, rt, Prefixed, name[..k]);
      DenyApplies(entries, who, rt, Prefixed, name[..k], name);
    }
  }

  lemma DenyApplies(entries: seq<AclEntry>, who: Subject, rt: ResourceType, pattern: PatternType, denied: seq<u8>, name: seq<u8>)
    requires Denied(entries, who, rt, pattern, denied)
    requires pattern == Literal ==> denied == name || denied == WILDCARD
    requires pattern == Prefixed ==> Utf8.StartsWith(name, denied)
    ensures AnyApplies(entries, who, rt, name, Deny)
  {
    hide Concerns, OracleConcerns;
    var e :| e in entries && Applicable(e, who, rt, Deny) && e.patternType == pattern && e.resourceName == denied;
    MatchersAgree(e, who, rt, name);
    var i :| 0 <= i < |entries| && entries[i] == e;
  }

  lemma AllowApplies(entries: seq<AclEntry>, who: Subject, rt: ResourceType, e: AclEntry, name: seq<u8>)
    requires e in entries && Applicable(e, who, rt, Allow) && MatchesResource(e, rt, name)
    ensures AnyApplies(entries, who, rt, name, Allow)
  {
    hide Concerns, OracleConcerns;
    MatchersAgree(e, who, rt, name);
    var i :| 0 <= i < |entries| && entries[i] == e;
  }

  /** An ALLOW that covers a name no DENY covers is itself undominated. */
  lemma AllowedEntryIsUncovered(entries: seq<AclEntry>, who: Subject, rt: ResourceType, e: AclEntry, name: seq<u8>)
    requires MatchesResource(e, rt, name) && !AnyApplies(entries, who, rt, name, Deny)
    ensures Uncovered(entries, who, rt, e)
  {
    hide Denied, AnyApplies;
    DenyCovers(entries, who, rt, name);
    if e.patternType == Prefixed {
      var prefix := e.resourceName;
      forall k | 0 <= k <= |prefix| ensures !Denied(entries, who, rt, Prefixed, prefix[..k]) {
        assert prefix[..k] == name[..k];
      }
    }
  }

  /** With the no-ACL default off, the query never understates: if any name is allowed, so is the type. */
  lemma AllowedNameImpliesByType(c: Config, entries: seq<AclEntry>, who: Subject, rt: ResourceType, name: seq<u8>)
    requires !c.allowIfNoAcl && Oracle(c, entries, who, rt, name).Allows()
    ensures ByType(c, entries, who, rt)
  {
    if who.user !in c.superUsers {
      hide Concerns, OracleConcerns, MatchesResource, OracleCovers, Uncovered;
      var i :| 0 <= i < |entries| && entries[i].permission == Allow
        && OracleCovers(entries[i], rt, name) && OracleConcerns(entries[i], who);
      MatchersAgree(entries[i], who, rt, name);
      AllowedEntryIsUncovered(entries, who, rt, entries[i], name);
      TypeOfMatch(entries[i], rt, name);
      assert Grants(entries, who, rt, entries[i]);
    }
  }

  lemma TypeOfMatch(e: AclEntry, rt: ResourceType, name: seq<u8>)
    requires MatchesResource(e, rt, name)
    ensures e.resourceType == rt
  {
  }

  /** A literal ALLOW that the query counts names a resource the authorizer really allows. */
  lemma UncoveredLiteralIsReal(c: Config, entries: seq<AclEntry>, who: Subject, rt: ResourceType, e: AclEntry)
    requires e in entries && Grants(entries, who, rt, e) && e.patternType == Literal && e.resourceName != WILDCARD
    ensures Oracle(c, entries, who, rt, e.resourceName).Allows()
  {
    hide Concerns, Denied, AnyApplies;
    DenyCovers(entries, who, rt, e.resourceName);
    AllowApplies(entries, who, rt, e, e.resourceName);
  }

  // ----- Where it overstates -----

  /** A wildcard ALLOW beside a DENY of the empty prefix: the query allows, and no name is allowed. */
  lemma WildcardBesideEmptyPrefix(c: Config, who: Subject, rt: ResourceType)
    requires !c.allowIfNoAcl && who.user !in c.superUsers && who.hosts(WILDCARD)
    ensures var anyone := USER_PREFIX + WILDCARD;
      var entries := [AclEntry(rt, Literal, WILDCARD, anyone, WILDCARD, All, Allow), AclEntry(rt, Prefixed, [], anyone, WILDCARD, All, Deny)];
      ByType(c, entries, who, rt) && forall name :: !Oracle(c, entries, who, rt, name).Allows()
  {
    var anyone := USER_PREFIX + WILDCARD;
    var (a, d) := (AclEntry(rt, Literal, WILDCARD, anyone, WILDCARD, All, Allow), AclEntry(rt, Prefixed, [], anyone, WILDCARD, All, Deny));
    var entries := [a, d];
    PrincipalAgrees(anyone, WILDCARD);
    hide StoredName;
    assert Applicable(a, who, rt, Allow) && Applicable(d, who, rt, Deny);
    assert a in entries && d in entries;
    assert Grants(entries, who, rt, a);
    assert Denied(entries, who, rt, Prefixed, []);
    forall name ensures !Oracle(c, entries, who, rt, name).Allows() {
      DenyApplies(entries, who, rt, Prefixed, [], name);
    }
  }

  function Denying(who: Subject, rt: ResourceType): AclEntry -> bool { (e: AclEntry) => Applicable(e, who, rt, Deny) }

  /** How many DENYs apply to the subject and type. */
  function DenyCount(entries: seq<AclEntry>, who: Subject, rt: ResourceType): nat { |Where(entries, Denying(who, rt))| }

  ghost predicate SomeNameAllowed(c: Config, entries: seq<AclEntry>, who: Subject, rt: ResourceType) {
    exists name :: Utf8.Valid(name) && Oracle(c, entries, who, rt, name).Allows()
  }

  function NamesAt(entries: seq<AclEntry>, ps: seq<nat>): (names: seq<seq<u8>>)
    requires forall i :: 0 <= i < |ps| ==> ps[i] < |entries|
    ensures |names| == |ps|
  {
    seq(|ps|, i requires 0 <= i < |ps| => entries[ps[i]].resourceName)
  }

  lemma DeniedIsListed(entries: seq<AclEntry>, who: Subject, rt: ResourceType, pattern: PatternType, name: seq<u8>)
    requires Denied(entries, who, rt, pattern, name)
    ensures name in NamesAt(entries, Where(entries, Denying(who, rt)))
  {
    hide Concerns;
    var e :| e in entries && Applicable(e, who, rt, Deny) && e.patternType == pattern && e.resourceName == name;
    var i :| 0 <= i < |entries| && entries[i] == e;
    var ps := Where(entries, Denying(who, rt));
    WhereIsComplete(entries, Denying(who, rt), i);
    var k :| 0 <= k < |ps| && ps[k] == i;
    assert NamesAt(entries, ps)[k] == name;
  }

  /** A stored prefix of `q` extended by one character is all of it, or ends within `q`. */
  lemma NoPrefixInsideTheChar(q: seq<u8>, cp: nat, k: nat)
    requires IsScalar(cp) && Utf8.Valid(q) && |q| < k < |q| + |EncodeChar(cp)|
    ensures !Utf8.Valid((q + EncodeChar(cp))[..k])
  {
    hide EncodeChar, Utf8.Valid;
    var name := q + EncodeChar(cp);
    EncodeIsOneChar(cp);
    Utf8.TextAppend(q, EncodeChar(cp));
    assert name[k] == EncodeChar(cp)[k - |q|];
    if Utf8.Valid(name[..k]) {
      Utf8.PrefixEndsOnBoundary(name, name[..k]);
    }
  }

  lemma DeniedIsText(entries: seq<AclEntry>, who: Subject, rt: ResourceType, pattern: PatternType, name: seq<u8>)
    requires Denied(entries, who, rt, pattern, name) && TextNames(entries)
    ensures Utf8.Valid(name)
  {
    hide Applicable, Utf8.Valid;
    var e :| e in entries && Applicable(e, who, rt, Deny) && e.patternType == pattern && e.resourceName == name;
    var i :| 0 <= i < |entries| && entries[i] == e;
  }

  /** With fewer DENYs than there are characters, an undominated prefix has an extension none covers. */
  lemma UndeniedExtension(entries: seq<AclEntry>, who: Subject, rt: ResourceType, q: seq<u8>) returns (name: seq<u8>)
    requires TextNames(entries) && Utf8.Valid(q)
    requires DenyCount(entries, who, rt) < SCALARS && !Dominated(entries, who, rt, q)
    ensures Utf8.Valid(name) && Utf8.StartsWith(name, q) && !AnyApplies(entries, who, rt, name, Deny)
  {
    hide Denied, AnyApplies, Where, Utf8.Valid, EncodeChar;
    var cp := FreshChar(NamesAt(entries, Where(entries, Denying(who, rt))), q);
    name := q + EncodeChar(cp);
    EncodeIsOneChar(cp);
    Utf8.TextAppend(q, EncodeChar(cp));
    DenyCovers(entries, who, rt, name);
    if Denied(entries, who, rt, Literal, name) {
      DeniedIsListed(entries, who, rt, Literal, name);
    }
    forall k | 0 <= k <= |name| ensures !Denied(entries, who, rt, Prefixed, name[..k]) {
      if k <= |q| {
        assert name[..k] == q[..k];
      } else if Denied(entries, who, rt, Prefixed, name[..k]) {
        DeniedIsText(entries, who, rt, Prefixed, name[..k]);
        if k < |name| {
          NoPrefixInsideTheChar(q, cp, k);
        }
        assert name[..k] == name;
        DeniedIsListed(entries, who, rt, Prefixed, name);
      }
    }
  }

  lemma GrantIsReal(c: Config, entries: seq<AclEntry>, who: Subject, rt: ResourceType, e: AclEntry)
    requires e in entries && Grants(entries, who, rt, e) && TextNames(entries) && Utf8.Valid(e.resourceName)
    requires DenyCount(entries, who, rt) < SCALARS && !Denied(entries, who, rt, Prefixed, [])
    ensures SomeNameAllowed(c, entries, who, rt)
  {
    hide Denied, AnyApplies, DenyCount, Concerns, Utf8.Valid;
    if e.patternType == Literal && e.resourceName != WILDCARD {
      UncoveredLiteralIsReal(c, entries, who, rt, e);
    } else {
      var q := if e.patternType == Literal then [] else e.resourceName;
      Utf8.AsciiIsText([]);
      assert e.patternType == Literal ==> forall k :: 0 <= k <= |q| ==> q[..k] == [];
      var name := UndeniedExtension(entries, who, rt, q);
      AllowApplies(entries, who, rt, e, name);
      assert Oracle(c, entries, who, rt, name).Allows();
    }
  }

  /** When the query's answer is not backed by any name: exactly when an applicable DENY has the empty
      prefix, as long as fewer DENYs apply than there are Unicode scalar values. (That many could deny
      every first character one by one.) */
  lemma ByTypeIsRealIff(c: Config, entries: seq<AclEntry>, who: Subject, rt: ResourceType)
    requires TextNames(entries) && ByType(c, entries, who, rt) && DenyCount(entries, who, rt) < SCALARS
    ensures SomeNameAllowed(c, entries, who, rt) <==> who.user in c.superUsers || !Denied(entries, who, rt, Prefixed, [])
  {
    hide Denied, AnyApplies, DenyCount, Grants, Utf8.Valid;
    Utf8.AsciiIsText(HARDCODED_NAME);
    if who.user in c.superUsers {
      assert Oracle(c, entries, who, rt, HARDCODED_NAME).Allows();
    } else if Denied(entries, who, rt, Prefixed, []) {
      forall name ensures !Oracle(c, entries, who, rt, name).Allows() {
        DenyApplies(entries, who, rt, Prefixed, [], name);
      }
    } else if !Oracle(c, entries, who, rt, HARDCODED_NAME).Allows() {
      var e :| e in entries && Grants(entries, who, rt, e);
      var i :| 0 <= i < |entries| && entries[i] == e;
      GrantIsReal(c, entries, who, rt, e);
    }
  }

  /** Every stored entry has a name: `CreateAcls` refuses an empty one, whatever its pattern. */
  predicate NoEmptyNames(entries: seq<AclEntry>) { forall e :: e in entries ==> e.resourceName != [] }

  /** On the entries a broker stores, with the no-ACL default off, the query answers exactly whether some
      name is allowed. */
  lemma ByTypeIffSomeName(c: Config, entries: seq<AclEntry>, who: Subject, rt: ResourceType)
    requires TextNames(entries) && NoEmptyNames(entries) && !c.allowIfNoAcl && DenyCount(entries, who, rt) < SCALARS
    ensures ByType(c, entries, who, rt) <==> SomeNameAllowed(c, entries, who, rt)
  {
    hide Oracle, DenyCount, Applicable, Utf8.Valid;
    if ByType(c, entries, who, rt) {
      ByTypeIsRealIff(c, entries, who, rt);
    }
    if SomeNameAllowed(c, entries, who, rt) {
      var name :| Utf8.Valid(name) && Oracle(c, entries, who, rt, name).Allows();
      AllowedNameImpliesByType(c, entries, who, rt, name);
    }
  }

  // ----- The no-ACL default -----

  /** The no-ACL default reaches the query through its probe alone. */
  lemma DefaultActsThroughTheProbe(c: Config, entries: seq<AclEntry>, who: Subject, rt: ResourceType)
    requires c.allowIfNoAcl
    ensures ByType(c, entries, who, rt)
       <==> ByType(c.(allowIfNoAcl := false), entries, who, rt) || !Covered(entries, rt, HARDCODED_NAME)
  {
    hide OracleConcerns, OracleCovers, Grants;
  }

  /** Some entry of the type covers every name. */
  predicate Blanket(entries: seq<AclEntry>, rt: ResourceType) {
    exists e :: e in entries && e.resourceType == rt
      && (if e.patternType == Literal then e.resourceName == WILDCARD else e.resourceName == [])
  }

  lemma BlanketCovers(entries: seq<AclEntry>, rt: ResourceType, name: seq<u8>)
    requires Blanket(entries, rt)
    ensures Covered(entries, rt, name)
  {
    var e :| e in entries && e.resourceType == rt
      && (if e.patternType == Literal then e.resourceName == WILDCARD else e.resourceName == []);
    var i :| 0 <= i < |entries| && entries[i] == e;
    assert name == [] + name;
  }

  /** With fewer entries than there are characters, and none that covers every name, some one-character
      name is covered by none. */
  lemma UncoveredName(entries: seq<AclEntry>, rt: ResourceType) returns (name: seq<u8>)
    requires TextNames(entries) && |entries| < SCALARS && !Blanket(entries, rt)
    ensures Utf8.Valid(name) && !Covered(entries, rt, name)
  {
    hide Utf8.Valid, EncodeChar, OracleCovers;
    var names := seq(|entries|, i requires 0 <= i < |entries| => entries[i].resourceName);
    var cp := FreshChar(names, []);
    name := EncodeChar(cp);
    assert [] + name == name;
    EncodeIsOneChar(cp);
    Utf8.AsciiIsText([]);
    forall i | 0 <= i < |entries| ensures !OracleCovers(entries[i], rt, name) {
      assert names[i] == entries[i].resourceName && entries[i] in entries;
      NotCovering(entries[i], rt, cp);
    }
  }

  lemma NotCovering(e: AclEntry, rt: ResourceType, cp: nat)
    requires IsScalar(cp) && Utf8.Valid(e.resourceName) && e.resourceName != EncodeChar(cp) && Utf8.Valid([])
    requires e.resourceType == rt ==> if e.patternType == Literal then e.resourceName != WILDCARD else e.resourceName != []
    ensures !OracleCovers(e, rt, EncodeChar(cp))
  {
    hide Utf8.Valid, EncodeChar;
    var name := EncodeChar(cp);
    if OracleCovers(e, rt, name) && e.patternType == Prefixed {
      var rest :| name == e.resourceName + rest;
      var k := |e.resourceName|;
      assert name[..k] == e.resourceName && [] + name == name;
      if k < |name| {
        NoPrefixInsideTheChar([], cp, k);
      }
    }
  }

  /** With the default on the query can understate. It does exactly when no ALLOW answers, some entry covers
      the probed name, and none covers every name: then a name outside the list is allowed and unasked. */
  lemma UnderstatesIff(c: Config, entries: seq<AclEntry>, who: Subject, rt: ResourceType)
    requires TextNames(entries) && |entries| < SCALARS && c.allowIfNoAcl
    ensures SomeNameAllowed(c, entries, who, rt) && !ByType(c, entries, who, rt)
       <==> && !ByType(c.(allowIfNoAcl := false), entries, who, rt)
            && Covered(entries, rt, HARDCODED_NAME) && !Blanket(entries, rt)
  {
    hide ByType, Covered, AnyApplies, TextNames, Blanket, Utf8.Valid;
    var off := c.(allowIfNoAcl := false);
    DefaultActsThroughTheProbe(c, entries, who, rt);
    if !ByType(off, entries, who, rt) {
      forall name ensures Oracle(c, entries, who, rt, name).Allows() ==> !Covered(entries, rt, name) {
        if Oracle(off, entries, who, rt, name).Allows() {
          AllowedNameImpliesByType(off, entries, who, rt, name);
        }
      }
      NoSuperUser(off, entries, who, rt);
      if Blanket(entries, rt) {
        forall name ensures Covered(entries, rt, name) { BlanketCovers(entries, rt, name); }
      } else {
        var name := UncoveredName(entries, rt);
        NothingApplies(entries, who, rt, name, Deny);
        assert Oracle(c, entries, who, rt, name).Allows();
      }
    }
  }

  lemma NoSuperUser(c: Config, entries: seq<AclEntry>, who: Subject, rt: ResourceType)
    requires !ByType(c, entries, who, rt)
    ensures who.user !in c.superUsers
  {
  }

  lemma NothingApplies(entries: seq<AclEntry>, who: Subject, rt: ResourceType, name: seq<u8>, permission: PermissionType)
    requires !Covered(entries, rt, name)
    ensures !AnyApplies(entries, who, rt, name, permission)
  {
    hide OracleCovers, OracleConcerns;
  }

  /** One such list: a DENY of the probed name alone leaves every other name allowed and the type denied. */
  lemma ProbeDeniedUnderstates(c: Config, who: Subject, rt: ResourceType, name: seq<u8>)
    requires c.allowIfNoAcl && who.user !in c.superUsers && who.hosts(WILDCARD) && name != HARDCODED_NAME
    ensures var entries := [AclEntry(rt, Literal, HARDCODED_NAME, USER_PREFIX + WILDCARD, WILDCARD, All, Deny)];
      Oracle(c, entries, who, rt, name) == AllowNoAcl && !ByType(c, entries, who, rt)
  {
    var d := AclEntry(rt, Literal, HARDCODED_NAME, USER_PREFIX + WILDCARD, WILDCARD, All, Deny);
    var entries := [d];
    assert |HARDCODED_NAME| != |WILDCARD|;
    assert entries[0] == d && OracleCovers(d, rt, HARDCODED_NAME) && OracleConcerns(d, who);
    assert !Covered(entries, rt, name);
    assert forall e :: e in entries ==> e == d;
  }
}
