/** ACL entries and when one applies to a request, as the authorizer tests it and as its oracle does. */
module Acl {
  import opened Bytes
  import opened Numerals
  import Utf8

  /** A resource type by its wire code; nothing here depends on which there are. */
  datatype ResourceType = ResourceType(code: nat)
  datatype PatternType = Literal | Prefixed
  datatype PermissionType = Allow | Deny
  datatype AclOperation =
    | All | Read | Write | Create | Delete | Alter | Describe | ClusterAction | DescribeConfigs | AlterConfigs
    | IdempotentWrite | TwoPhaseCommit | CreateTokens | DescribeTokens

  /** Every name is the bytes of a Rust string. */
  datatype AclEntry = AclEntry(
    resourceType: ResourceType, patternType: PatternType, resourceName: seq<u8>,
    principal: seq<u8>, host: seq<u8>, operation: AclOperation, permission: PermissionType)

  const WILDCARD := Ascii("*")

  predicate TextNames(entries: seq<AclEntry>) {
    forall i :: 0 <= i < |entries| ==> Utf8.Valid(entries[i].resourceName)
  }

  /** Who asks, from where, to do what; the peer is the set of stored hosts that name it. */
  datatype Subject = Subject(user: seq<u8>, hosts: seq<u8> -> bool, operation: AclOperation)

  // ----- As the authorizer tests it -----

  predicate MatchesResource(e: AclEntry, rt: ResourceType, name: seq<u8>) {
    && e.resourceType == rt
    && match e.patternType
       case Literal => e.resourceName == name || e.resourceName == WILDCARD
       case Prefixed => Utf8.StartsWith(name, e.resourceName)
  }

  const USER_PREFIX := Ascii("User:")

  /** The stored principal split into its type and name. */
  function StoredName(principal: seq<u8>): Option<seq<u8>> {
    if Utf8.StartsWith(principal, USER_PREFIX) then Some(principal[|USER_PREFIX|..]) else None
  }

  predicate MatchesPrincipal(e: AclEntry, user: seq<u8>) {
    StoredName(e.principal) == Some(WILDCARD) || StoredName(e.principal) == Some(user)
  }

  predicate MatchesOperation(stored: AclOperation, requested: AclOperation, allow: bool) {
    match stored
    case All => true
    case Read => requested == Read || (allow && requested == Describe)
    case Write => requested == Write || (allow && requested == Describe)
    case Delete => requested == Delete || (allow && requested == Describe)
    case Alter => requested == Alter || (allow && requested == Describe)
    case AlterConfigs => requested == AlterConfigs || (allow && requested == DescribeConfigs)
    case _ => requested == stored
  }

  /** The entry's principal, host and operation all match the subject. */
  predicate Concerns(e: AclEntry, who: Subject) {
    && MatchesPrincipal(e, who.user)
    && who.hosts(e.host)
    && MatchesOperation(e.operation, who.operation, e.permission == Allow)
  }

  // ----- As the oracle does -----

  const ARROWS := {(Read, Describe), (Write, Describe), (Delete, Describe), (Alter, Describe), (AlterConfigs, DescribeConfigs)}

  ghost predicate OracleConcerns(e: AclEntry, who: Subject) {
    && (e.principal == Ascii("User:*") || e.principal == Ascii("User:") + who.user)
    && who.hosts(e.host)
    && (|| e.operation == who.operation
        || e.operation == All
        || (e.permission == Allow && (e.operation, who.operation) in ARROWS))
  }

  ghost predicate OracleCovers(e: AclEntry, rt: ResourceType, name: seq<u8>) {
    && e.resourceType == rt
    && (|| (e.patternType == Literal && e.resourceName in [name, Ascii("*")])
        || (e.patternType == Prefixed && exists rest :: name == e.resourceName + rest))
  }

  /** The two readings of an entry agree on every input. */
  lemma MatchersAgree(e: AclEntry, who: Subject, rt: ResourceType, name: seq<u8>)
    ensures Concerns(e, who) == OracleConcerns(e, who)
    ensures MatchesResource(e, rt, name) == OracleCovers(e, rt, name)
  {
    PrincipalAgrees(e.principal, WILDCARD);
    assert USER_PREFIX + WILDCARD == Ascii("User:*");
    PrincipalAgrees(e.principal, who.user);
    OperationAgrees(e.operation, who.operation, e.permission == Allow);
    if e.patternType == Prefixed && Utf8.StartsWith(name, e.resourceName) {
      assert name == e.resourceName + name[|e.resourceName|..];
    }
  }

  lemma PrincipalAgrees(principal: seq<u8>, user: seq<u8>)
    ensures StoredName(principal) == Some(user) <==> principal == USER_PREFIX + user
  {
    if Utf8.StartsWith(principal, USER_PREFIX) {
      assert principal == USER_PREFIX + principal[|USER_PREFIX|..];
    }
    assert (USER_PREFIX + user)[|USER_PREFIX|..] == user;
  }

  lemma OperationAgrees(stored: AclOperation, requested: AclOperation, allow: bool)
    ensures MatchesOperation(stored, requested, allow)
       <==> || stored == requested || stored == All
            || (allow && requested == Describe && stored in {Read, Write, Delete, Alter})
            || (allow && requested == DescribeConfigs && stored == AlterConfigs)
    ensures MatchesOperation(stored, requested, allow)
       <==> stored == requested || stored == All || (allow && (stored, requested) in ARROWS)
  {
  }

  // ----- The decision -----

  datatype Decision = AllowSuperuser | DenyExplicit | AllowAcl | AllowNoAcl | DenyDefault {
    predicate Allows() { this != DenyExplicit && this != DenyDefault }
  }

  /** `acl_decision`. */
  function Decide(superUser: bool, sawAllow: bool, sawDeny: bool, defaultAllow: bool): Decision {
    if superUser then AllowSuperuser
    else if sawDeny then DenyExplicit
    else if sawAllow then AllowAcl
    else if defaultAllow then AllowNoAcl
    else DenyDefault
  }

  /** Which facts each decision stands for: a super user first, then a DENY, then an ALLOW, then the default. */
  lemma DecisionMeans(superUser: bool, sawAllow: bool, sawDeny: bool, defaultAllow: bool)
    ensures match Decide(superUser, sawAllow, sawDeny, defaultAllow)
      case AllowSuperuser => superUser
      case DenyExplicit => !superUser && sawDeny
      case AllowAcl => !superUser && !sawDeny && sawAllow
      case AllowNoAcl => !superUser && !sawDeny && !sawAllow && defaultAllow
      case DenyDefault => !superUser && !sawDeny && !sawAllow && !defaultAllow
  {
  }

  /** Some entry with `permission` covers the name and concerns the subject. */
  ghost predicate AnyApplies(entries: seq<AclEntry>, who: Subject, rt: ResourceType, name: seq<u8>, permission: PermissionType) {
    exists i :: 0 <= i < |entries| && entries[i].permission == permission
      && OracleCovers(entries[i], rt, name) && OracleConcerns(entries[i], who)
  }

  ghost predicate Covered(entries: seq<AclEntry>, rt: ResourceType, name: seq<u8>) {
    exists i :: 0 <= i < |entries| && OracleCovers(entries[i], rt, name)
  }

  datatype Config = Config(superUsers: set<seq<u8>>, allowIfNoAcl: bool)

  /** The deny-wins oracle over the raw list: a super user is allowed, then any DENY denies, then any
      ALLOW allows, then the default decides, which is to allow only a resource no entry covers. */
  ghost function Oracle(c: Config, entries: seq<AclEntry>, who: Subject, rt: ResourceType, name: seq<u8>): Decision {
    if who.user in c.superUsers then AllowSuperuser
    else if AnyApplies(entries, who, rt, name, Deny) then DenyExplicit
    else if AnyApplies(entries, who, rt, name, Allow) then AllowAcl
    else if c.allowIfNoAcl && !Covered(entries, rt, name) then AllowNoAcl
    else DenyDefault
  }
}
