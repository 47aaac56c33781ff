/** The ACL snapshot's index, and that a lookup in it is a full scan of the entries. */
module AclIndex {
  import opened Bytes
  import opened Acl
  import Utf8

  // ----- Positions -----

  /** The positions of the entries that satisfy `p`, ascending. */
  function Where(entries: seq<AclEntry>, p: AclEntry -> bool): (ps: seq<nat>)
    ensures forall i :: 0 <= i < |ps| ==> ps[i] < |entries| && p(entries[ps[i]])
    ensures forall i, j :: 0 <= i < j < |ps| ==> ps[i] < ps[j]
  {
    if entries == [] then []
    else
      var n := |entries| - 1;
      var front := Where(entries[..n], p);
      assert forall i :: 0 <= i < |front| ==> entries[..n][front[i]] == entries[front[i]];
      front + (if p(entries[n]) then [n] else [])
  }

  lemma {:induction false} WhereIsComplete(entries: seq<AclEntry>, p: AclEntry -> bool, i: nat)
    requires i < |entries| && p(entries[i])
    ensures i in Where(entries, p)
  {
    if i < |entries| - 1 {
      assert entries[..|entries| - 1][i] == entries[i];
      WhereIsComplete(entries[..|entries| - 1], p, i);
    }
  }

  function OfType(rt: ResourceType): AclEntry -> bool { (e: AclEntry) => e.resourceType == rt }

  function Named(rt: ResourceType, pattern: PatternType, name: seq<u8>): AclEntry -> bool {
    (e: AclEntry) => e.resourceType == rt && e.patternType == pattern && e.resourceName == name
  }

  // ----- The index -----

  datatype TypeIndex = TypeIndex(
    all: seq<nat>, literal: map<seq<u8>, seq<nat>>, prefixed: map<seq<u8>, seq<nat>>, prefixLens: seq<nat>)

  datatype AclCache = AclCache(entries: seq<AclEntry>, byType: map<ResourceType, TypeIndex>)

  function Get(m: map<seq<u8>, seq<nat>>, name: seq<u8>): seq<nat> { if name in m then m[name] else [] }

  function IndexOf(byType: map<ResourceType, TypeIndex>, rt: ResourceType): TypeIndex {
    if rt in byType then byType[rt] else TypeIndex([], map[], map[], [])
  }

  /** The position lists of one type are exactly the positions they should be. */
  ghost predicate Lists(entries: seq<AclEntry>, rt: ResourceType, index: TypeIndex) {
    && index.all == Where(entries, OfType(rt))
    && (forall name :: Get(index.literal, name) == Where(entries, Named(rt, Literal, name)))
    && (forall name :: Get(index.prefixed, name) == Where(entries, Named(rt, Prefixed, name)))
  }

  predicate Ascending(lens: seq<nat>) { forall i, j :: 0 <= i < j < |lens| ==> lens[i] < lens[j] }

  /** `prefix_lens`: the distinct byte lengths of the stored prefixes, ascending. */
  ghost predicate LensOf(index: TypeIndex) {
    && Ascending(index.prefixLens)
    && (forall name :: name in index.prefixed ==> |name| in index.prefixLens)
    && (forall n :: n in index.prefixLens ==> exists name :: name in index.prefixed && |name| == n)
  }

  ghost predicate Indexed(c: AclCache) {
    forall rt :: Lists(c.entries, rt, IndexOf(c.byType, rt)) && LensOf(IndexOf(c.byType, rt))
  }

  // ----- Building it -----

  function Push(m: map<seq<u8>, seq<nat>>, name: seq<u8>, position: nat): map<seq<u8>, seq<nat>> {
    m[name := Get(m, name) + [position]]
  }

  /** One turn of the loop of `AclCache::new`. */
  function AddEntry(index: TypeIndex, e: AclEntry, position: nat): TypeIndex {
    var listed := index.(all := index.all + [position]);
    match e.patternType
    case Literal => listed.(literal := Push(index.literal, e.resourceName, position))
    case Prefixed => listed.(prefixed := Push(index.prefixed, e.resourceName, position))
  }

  lemma WhereSnoc(entries: seq<AclEntry>, i: nat, p: AclEntry -> bool)
    requires i < |entries|
    ensures Where(entries[..i + 1], p) == Where(entries[..i], p) + (if p(entries[i]) then [i] else [])
  {
    assert entries[..i + 1][..i] == entries[..i];
  }

  lemma AddedEntry(entries: seq<AclEntry>, i: nat, rt: ResourceType, index: TypeIndex)
    requires i < |entries| && Lists(entries[..i], rt, index)
    ensures Lists(entries[..i + 1], rt, if entries[i].resourceType == rt then AddEntry(index, entries[i], i) else index)
  {
    hide Where;
    WhereSnoc(entries, i, OfType(rt));
    forall name, pattern
      ensures Where(entries[..i + 1], Named(rt, pattern, name))
           == Where(entries[..i], Named(rt, pattern, name)) + (if Named(rt, pattern, name)(entries[i]) then [i] else [])
    {
      WhereSnoc(entries, i, Named(rt, pattern, name));
    }
  }

  lemma NothingListed(rt: ResourceType)
    ensures Lists([], rt, TypeIndex([], map[], map[], []))
  {
  }

  /** The lists of every type, for the entries so far. */
  method ListEntries(entries: seq<AclEntry>) returns (byType: map<ResourceType, TypeIndex>)
    ensures forall rt :: Lists(entries, rt, IndexOf(byType, rt))
  {
    hide Lists, AddEntry, Where;
    byType := map[];
    forall rt ensures Lists(entries[..0], rt, IndexOf(byType, rt)) {
      NothingListed(rt);
      assert entries[..0] == [];
    }
    for i := 0 to |entries|
      invariant forall rt :: Lists(entries[..i], rt, IndexOf(byType, rt))
    {
      var e := entries[i];
      var added := byType[e.resourceType := AddEntry(IndexOf(byType, e.resourceType), e, i)];
      forall rt ensures Lists(entries[..i + 1], rt, IndexOf(added, rt)) {
        AddedEntry(entries, i, rt, IndexOf(byType, rt));
      }
      byType := added;
    }
    assert entries[..|entries|] == entries;
  }

  // ----- The prefix lengths: collect, sort, dedup -----

  method Collect(keys: set<seq<u8>>) returns (lens: seq<nat>)
    ensures forall k :: k in keys ==> |k| in lens
    ensures forall n :: n in lens ==> exists k :: k in keys && |k| == n
  {
    lens := [];
    var left := keys;
    while left != {}
      invariant left <= keys
      invariant forall k :: k in keys && k !in left ==> |k| in lens
      invariant forall n :: n in lens ==> exists k :: k in keys && |k| == n
      decreases |left|
    {
      var k :| k in left;
      left := left - {k};
      lens := lens + [|k|];
    }
  }

  predicate Sorted(lens: seq<nat>) { forall i, j :: 0 <= i < j < |lens| ==> lens[i] <= lens[j] }

  /** `sort_unstable`, as an insertion of each length where it belongs. */
  method Sort(lens: seq<nat>) returns (sorted: seq<nat>)
    ensures Sorted(sorted) && multiset(sorted) == multiset(lens)
  {
    sorted := [];
    for i := 0 to |lens|
      invariant Sorted(sorted) && multiset(sorted) == multiset(lens[..i])
    {
      var j: nat := |sorted|;
      while j > 0 && sorted[j - 1] > lens[i]
        invariant j <= |sorted| && forall k :: j <= k < |sorted| ==> sorted[k] > lens[i]
      {
        j := j - 1;
      }
      sorted := Insert(sorted, j, lens[i]);
      assert lens[..i + 1] == lens[..i] + [lens[i]];
    }
    assert lens[..|lens|] == lens;
  }

  function Insert(s: seq<nat>, j: nat, n: nat): (r: seq<nat>)
    requires j <= |s|
    ensures multiset(r) == multiset(s) + multiset{n}
  {
    assert s == s[..j] + s[j..];
    s[..j] + [n] + s[j..]
  }

  /** `dedup` of a sorted list. */
  method Dedup(lens: seq<nat>) returns (distinct: seq<nat>)
    requires Sorted(lens)
    ensures Ascending(distinct) && forall n :: n in lens <==> n in distinct
  {
    distinct := [];
    for i := 0 to |lens|
      invariant Ascending(distinct)
      invariant forall n :: n in lens[..i] <==> n in distinct
      invariant i > 0 ==> distinct != [] && distinct[|distinct| - 1] == lens[i - 1]
      invariant i == 0 ==> distinct == []
    {
      if distinct == [] || distinct[|distinct| - 1] != lens[i] {
        distinct := distinct + [lens[i]];
      }
      assert lens[..i + 1] == lens[..i] + [lens[i]];
    }
    assert lens[..|lens|] == lens;
  }

  /** `AclCache::new`. */
  method NewCache(entries: seq<AclEntry>) returns (c: AclCache)
    ensures c.entries == entries && Indexed(c)
  {
    hide Lists;
    var lists := ListEntries(entries);
    var byType: map<ResourceType, TypeIndex> := map[];
    var left := lists.Keys;
    while left != {}
      invariant left <= lists.Keys && byType.Keys == lists.Keys - left
      invariant forall rt :: rt in byType ==> LensOf(byType[rt]) && byType[rt] == lists[rt].(prefixLens := byType[rt].prefixLens)
      decreases |left|
    {
      var rt :| rt in left;
      var lens := Collect(lists[rt].prefixed.Keys);
      var sorted := Sort(lens);
      assert forall n :: n in lens <==> n in multiset(lens);
      assert forall n :: n in sorted <==> n in multiset(sorted);
      lens := Dedup(sorted);
      byType := byType[rt := lists[rt].(prefixLens := lens)];
      left := left - {rt};
    }
    c := AclCache(entries, byType);
    forall rt ensures Lists(entries, rt, IndexOf(byType, rt)) && LensOf(IndexOf(byType, rt)) {
      LensDoNotMatter(entries, rt, IndexOf(lists, rt), IndexOf(byType, rt).prefixLens);
    }
  }

  lemma LensDoNotMatter(entries: seq<AclEntry>, rt: ResourceType, index: TypeIndex, lens: seq<nat>)
    requires Lists(entries, rt, index)
    ensures Lists(entries, rt, index.(prefixLens := lens))
  {
  }

  // ----- Looking up -----

  predicate Distinct(ps: seq<nat>) { forall i, j :: 0 <= i < j < |ps| ==> ps[i] != ps[j] }

  /** `ps` lists the positions of the entries that satisfy `p`, each once. */
  ghost predicate Picks(ps: seq<nat>, entries: seq<AclEntry>, p: AclEntry -> bool) {
    Distinct(ps) && forall i :: i in ps <==> 0 <= i < |entries| && p(entries[i])
  }

  lemma WherePicks(entries: seq<AclEntry>, p: AclEntry -> bool)
    ensures Picks(Where(entries, p), entries, p)
  {
    forall i | 0 <= i < |entries| && p(entries[i]) ensures i in Where(entries, p) {
      WhereIsComplete(entries, p, i);
    }
  }

  lemma PicksEither(a: seq<nat>, b: seq<nat>, entries: seq<AclEntry>, p: AclEntry -> bool, q: AclEntry -> bool, r: AclEntry -> bool)
    requires Picks(a, entries, p) && Picks(b, entries, q)
    requires forall e :: !(p(e) && q(e))
    requires forall i :: 0 <= i < |entries| ==> (r(entries[i]) <==> p(entries[i]) || q(entries[i]))
    ensures Picks(a + b, entries, r)
  {
    forall i, j | 0 <= i < j < |a + b| ensures (a + b)[i] != (a + b)[j] {
      if i < |a| <= j {
        assert a[i] in a && b[j - |a|] in b;
      }
    }
  }

  /** The prefixed entries of `rt` that `name` starts with and whose own name has a length in `lens`. */
  function PrefixOf(rt: ResourceType, name: seq<u8>, lens: seq<nat>): AclEntry -> bool {
    (e: AclEntry) => e.resourceType == rt && e.patternType == Prefixed
      && Utf8.StartsWith(name, e.resourceName) && |e.resourceName| in lens
  }

  lemma PrefixOfOneMore(e: AclEntry, rt: ResourceType, name: seq<u8>, lens: seq<nat>, len: nat)
    requires len <= |name| && len !in lens
    ensures PrefixOf(rt, name, lens + [len])(e) <==> PrefixOf(rt, name, lens)(e) || Named(rt, Prefixed, name[..len])(e)
    ensures !(PrefixOf(rt, name, lens)(e) && Named(rt, Prefixed, name[..len])(e))
  {
  }

  lemma PrefixOfSnoc(entries: seq<AclEntry>, rt: ResourceType, name: seq<u8>, lens: seq<nat>, len: nat, ps: seq<nat>, bucket: seq<nat>)
    requires TextNames(entries) && Utf8.Valid(name) && len <= |name| && len !in lens
    requires Picks(ps, entries, PrefixOf(rt, name, lens))
    requires bucket == if Utf8.IsBoundary(name, len) then Where(entries, Named(rt, Prefixed, name[..len])) else []
    ensures Picks(ps + bucket, entries, PrefixOf(rt, name, lens + [len]))
  {
    hide Where, Picks, PrefixOf, Named;
    var (p, q, r) := (PrefixOf(rt, name, lens), Named(rt, Prefixed, name[..len]), PrefixOf(rt, name, lens + [len]));
    forall e ensures (r(e) <==> p(e) || q(e)) && !(p(e) && q(e)) {
      PrefixOfOneMore(e, rt, name, lens, len);
    }
    if Utf8.IsBoundary(name, len) {
      WherePicks(entries, q);
      PicksEither(ps, bucket, entries, p, q, r);
    } else {
      forall i | 0 <= i < |entries| ensures !q(entries[i]) {
        NotInsideACharacter(entries[i], rt, name, len);
      }
      PicksSame(ps, entries, p, r);
      assert ps + bucket == ps;
    }
  }

  lemma NotInsideACharacter(e: AclEntry, rt: ResourceType, name: seq<u8>, len: nat)
    requires Utf8.Valid(e.resourceName) && Utf8.Valid(name) && len <= |name| && !Utf8.IsBoundary(name, len)
    ensures !Named(rt, Prefixed, name[..len])(e)
  {
    if e.resourceName == name[..len] {
      Utf8.PrefixEndsOnBoundary(name, e.resourceName);
    }
  }

  lemma PicksSame(ps: seq<nat>, entries: seq<AclEntry>, p: AclEntry -> bool, q: AclEntry -> bool)
    requires Picks(ps, entries, p) && forall i :: 0 <= i < |entries| ==> p(entries[i]) == q(entries[i])
    ensures Picks(ps, entries, q)
  {
  }

  /** `TypeIndex::prefixed`: each stored length is tried; a length past the name, or inside one of its
      characters, matches no stored prefix. */
  method PrefixedPositions(ghost entries: seq<AclEntry>, rt: ResourceType, index: TypeIndex, name: seq<u8>) returns (ps: seq<nat>)
    requires Lists(entries, rt, index) && LensOf(index) && TextNames(entries) && Utf8.Valid(name)
    ensures Picks(ps, entries, Matching(rt, Prefixed, name))
  {
    hide Where, Picks, TextNames, Utf8.Valid;
    ps := [];
    var (i, lens) := (0, index.prefixLens);
    PicksNone(entries, rt, name);
    while i < |lens| && lens[i] <= |name|
      invariant 0 <= i <= |lens| && Picks(ps, entries, PrefixOf(rt, name, lens[..i]))
    {
      var len := lens[i];
      var bucket := if Utf8.IsBoundary(name, len) then Get(index.prefixed, name[..len]) else [];
      assert len !in lens[..i];
      PrefixOfSnoc(entries, rt, name, lens[..i], len, ps, bucket);
      assert lens[..i + 1] == lens[..i] + [len];
      ps := ps + bucket;
      i := i + 1;
    }
    AllLengths(entries, rt, index, name, i, ps);
  }

  lemma PicksNone(entries: seq<AclEntry>, rt: ResourceType, name: seq<u8>)
    ensures Picks([], entries, PrefixOf(rt, name, []))
  {
  }

  lemma AllLengths(entries: seq<AclEntry>, rt: ResourceType, index: TypeIndex, name: seq<u8>, i: nat, ps: seq<nat>)
    requires Lists(entries, rt, index) && LensOf(index) && i <= |index.prefixLens|
    requires i < |index.prefixLens| ==> index.prefixLens[i] > |name|
    requires Picks(ps, entries, PrefixOf(rt, name, index.prefixLens[..i]))
    ensures Picks(ps, entries, Matching(rt, Prefixed, name))
  {
    forall k | 0 <= k < |entries| && Matching(rt, Prefixed, name)(entries[k])
      ensures PrefixOf(rt, name, index.prefixLens[..i])(entries[k])
    {
      var prefix := entries[k].resourceName;
      WhereIsComplete(entries, Named(rt, Prefixed, prefix), k);
      assert Get(index.prefixed, prefix) != [];
      var j :| 0 <= j < |index.prefixLens| && index.prefixLens[j] == |prefix|;
      assert j < i;
    }
  }

  /** The entries of one pattern type that match a resource. */
  function Matching(rt: ResourceType, pattern: PatternType, name: seq<u8>): AclEntry -> bool {
    (e: AclEntry) => e.patternType == pattern && MatchesResource(e, rt, name)
  }

  function MatchingAny(rt: ResourceType, name: seq<u8>): AclEntry -> bool {
    (e: AclEntry) => MatchesResource(e, rt, name)
  }

  lemma LiteralPositions(entries: seq<AclEntry>, rt: ResourceType, name: seq<u8>)
    ensures var exact := Where(entries, Named(rt, Literal, name));
      var wildcard := if name != WILDCARD then Where(entries, Named(rt, Literal, WILDCARD)) else [];
      Picks(exact + wildcard, entries, Matching(rt, Literal, name))
  {
    var exact := Where(entries, Named(rt, Literal, name));
    WherePicks(entries, Named(rt, Literal, name));
    WherePicks(entries, Named(rt, Literal, WILDCARD));
    if name != WILDCARD {
      PicksEither(exact, Where(entries, Named(rt, Literal, WILDCARD)), entries,
        Named(rt, Literal, name), Named(rt, Literal, WILDCARD), Matching(rt, Literal, name));
    } else {
      assert exact + [] == exact;
    }
  }

  /** `matching_acls`: exactly the entries a full scan would keep, each position once. */
  method MatchingPositions(c: AclCache, rt: ResourceType, name: seq<u8>) returns (ps: seq<nat>)
    requires Indexed(c) && TextNames(c.entries) && Utf8.Valid(name)
    ensures Picks(ps, c.entries, MatchingAny(rt, name))
  {
    hide Where, Picks, TextNames, Utf8.Valid;
    var index := IndexOf(c.byType, rt);
    assert Lists(c.entries, rt, index) && LensOf(index);
    var literal := Get(index.literal, name);
    var wildcard := if name != WILDCARD then Get(index.literal, WILDCARD) else [];
    LiteralPositions(c.entries, rt, name);
    var prefixed := PrefixedPositions(c.entries, rt, index, name);
    PicksEither(literal + wildcard, prefixed, c.entries,
      Matching(rt, Literal, name), Matching(rt, Prefixed, name), MatchingAny(rt, name));
    return literal + wildcard + prefixed;
  }

  // ----- Against the full scan -----

  function Select(entries: seq<AclEntry>, ps: seq<nat>): (es: seq<AclEntry>)
    requires forall i :: 0 <= i < |ps| ==> ps[i] < |entries|
    ensures |es| == |ps|
  {
    seq(|ps|, i requires 0 <= i < |ps| => entries[ps[i]])
  }

  lemma {:induction false} CountOnce(ps: seq<nat>, i: nat)
    requires Distinct(ps)
    ensures multiset(ps)[i] == if i in ps then 1 else 0
  {
    if ps != [] {
      var n := |ps| - 1;
      assert ps == ps[..n] + [ps[n]];
      CountOnce(ps[..n], i);
    }
  }

  lemma SameElements(ps: seq<nat>, qs: seq<nat>)
    requires Distinct(ps) && Distinct(qs) && forall i :: i in ps <==> i in qs
    ensures multiset(ps) == multiset(qs)
  {
    var (a: multiset<nat>, b: multiset<nat>) := (multiset(ps), multiset(qs));
    forall i: nat ensures a[i] == b[i] {
      CountOnce(ps, i);
      CountOnce(qs, i);
    }
  }

  function Without(ps: seq<nat>, k: nat): seq<nat>
    requires k < |ps|
  {
    ps[..k] + ps[k + 1..]
  }

  lemma RemoveOne(entries: seq<AclEntry>, ps: seq<nat>, k: nat)
    requires k < |ps| && forall i :: 0 <= i < |ps| ==> ps[i] < |entries|
    ensures multiset(ps) == multiset(Without(ps, k)) + multiset{ps[k]}
    ensures multiset(Select(entries, ps)) == multiset(Select(entries, Without(ps, k))) + multiset{entries[ps[k]]}
  {
    assert ps == ps[..k] + [ps[k]] + ps[k + 1..];
    var es := Select(entries, ps);
    assert es == es[..k] + [es[k]] + es[k + 1..];
    assert Select(entries, Without(ps, k)) == es[..k] + es[k + 1..];
  }

  lemma {:induction false} SelectPermuted(entries: seq<AclEntry>, ps: seq<nat>, qs: seq<nat>)
    requires forall i :: 0 <= i < |ps| ==> ps[i] < |entries|
    requires forall i :: 0 <= i < |qs| ==> qs[i] < |entries|
    requires multiset(ps) == multiset(qs)
    ensures multiset(Select(entries, ps)) == multiset(Select(entries, qs))
    decreases |ps|
  {
    if ps == [] {
      assert |multiset(qs)| == 0;
    } else {
      assert ps[0] in multiset(qs);
      var k :| 0 <= k < |qs| && qs[k] == ps[0];
      RemoveOne(entries, ps, 0);
      RemoveOne(entries, qs, k);
      SameRest(multiset(Without(ps, 0)), multiset(Without(qs, k)), ps[0]);
      SelectPermuted(entries, Without(ps, 0), Without(qs, k));
    }
  }

  lemma SameRest(a: multiset<nat>, b: multiset<nat>, x: nat)
    requires a + multiset{x} == b + multiset{x}
    ensures a == b
  {
    assert a == (a + multiset{x}) - multiset{x};
    assert b == (b + multiset{x}) - multiset{x};
  }

  /** Any listing of the matching positions, each once, selects the same entries as the full scan in
      entry order, duplicates included. */
  lemma LookupIsScan(entries: seq<AclEntry>, ps: seq<nat>, p: AclEntry -> bool)
    requires Picks(ps, entries, p)
    ensures forall i :: 0 <= i < |ps| ==> ps[i] < |entries|
    ensures multiset(Select(entries, ps)) == multiset(Select(entries, Where(entries, p)))
  {
    var scan := Where(entries, p);
    WherePicks(entries, p);
    assert forall i :: 0 <= i < |ps| ==> ps[i] in ps;
    SameElements(ps, scan);
    SelectPermuted(entries, ps, scan);
  }
}
