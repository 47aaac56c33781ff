/** Rendering an address as the JDK does, and comparing the rendering with text without building it. */
module HostFormat {
  import opened Bytes
  import opened Numerals
  import opened TextSplit
  import opened Cidr

  const DOT: u8 := 46
  const COLON: u8 := 58

  // ----- Groups of 16 bits -----

  /** The low `count` groups, most significant first. */
  function Groups(bits: nat, count: nat): (gs: seq<nat>)
    ensures |gs| == count
  {
    if count == 0 then [] else Groups(bits / 65536, count - 1) + [bits % 65536]
  }

  function OfGroups(gs: seq<nat>): nat {
    if gs == [] then 0 else OfGroups(gs[..|gs| - 1]) * 65536 + gs[|gs| - 1]
  }

  function GroupLimit(count: nat): nat { if count == 0 then 1 else GroupLimit(count - 1) * 65536 }

  lemma {:induction false} GroupsRoundTrip(bits: nat, count: nat)
    requires bits < GroupLimit(count)
    ensures OfGroups(Groups(bits, count)) == bits
  {
    if count > 0 {
      GroupsRoundTrip(bits / 65536, count - 1);
      assert Groups(bits, count)[..count - 1] == Groups(bits / 65536, count - 1);
    }
  }

  lemma EightGroups()
    ensures GroupLimit(8) == V6_SIZE
  {
    assert GroupLimit(2) == V4_SIZE;
    assert GroupLimit(4) == V4_SIZE * V4_SIZE;
    assert GroupLimit(6) == V4_SIZE * V4_SIZE * V4_SIZE;
  }

  // ----- The rendering -----

  function NumeralsOf(gs: seq<nat>, radix: nat): (ss: seq<seq<u8>>)
    requires Radix(radix)
    ensures |ss| == |gs|
  {
    seq(|gs|, i requires 0 <= i < |gs| => Digits(gs[i], radix))
  }

  /** The four octets of an IPv4 address. */
  function Octets(bits: nat): (gs: seq<nat>)
    ensures |gs| == 4
  {
    var b := U32Bytes(bits);
    [b[0], b[1], b[2], b[3]]
  }

  lemma OctetsInjective(x: nat, y: nat)
    requires x < V4_SIZE && y < V4_SIZE && Octets(x) == Octets(y)
    ensures x == y
  {
    hide U32Bytes;
    var (a, b) := (U32Bytes(x), U32Bytes(y));
    assert Octets(x)[0] == Octets(y)[0] && Octets(x)[1] == Octets(y)[1] && Octets(x)[2] == Octets(y)[2] && Octets(x)[3] == Octets(y)[3];
    assert a == b;
    U32RoundTrip(x);
    U32RoundTrip(y);
  }

  function DottedQuad(bits: nat): seq<u8> { Join(NumeralsOf(Octets(bits), 10), DOT) }

  function Segments(bits: nat): (gs: seq<nat>)
    ensures |gs| == 8
  {
    Groups(bits, 8)
  }

  /** `jdk_host_address`, as text: dotted quad, or eight hex groups with no compression. */
  function Rendering(ip: IpAddr): seq<u8> {
    match Canonical(ip)
    case V4(bits) => DottedQuad(bits)
    case V6(bits) => Join(NumeralsOf(Segments(bits), 16), COLON)
  }

  lemma DigitsAreFree(n: nat, radix: nat, sep: u8)
    requires Radix(radix) && (sep == DOT || sep == COLON)
    ensures Free(Digits(n, radix), sep)
  {
    ValueOfDigits(n, radix);
  }

  lemma NumeralsAreFree(gs: seq<nat>, radix: nat, sep: u8)
    requires Radix(radix) && (sep == DOT || sep == COLON)
    ensures AllFree(NumeralsOf(gs, radix), sep)
  {
    forall i | 0 <= i < |gs| ensures Free(NumeralsOf(gs, radix)[i], sep) {
      DigitsAreFree(gs[i], radix, sep);
    }
  }

  lemma NumeralsInjective(a: seq<nat>, b: seq<nat>, radix: nat)
    requires Radix(radix) && NumeralsOf(a, radix) == NumeralsOf(b, radix)
    ensures a == b
  {
    assert |a| == |NumeralsOf(a, radix)| == |b|;
    forall i | 0 <= i < |a| ensures a[i] == b[i] {
      assert NumeralsOf(a, radix)[i] == NumeralsOf(b, radix)[i];
      DigitsInjective(a[i], b[i], radix);
    }
  }

  lemma JoinedInjective(a: seq<nat>, b: seq<nat>, radix: nat, sep: u8)
    requires Radix(radix) && (sep == DOT || sep == COLON) && a != [] && b != []
    requires Join(NumeralsOf(a, radix), sep) == Join(NumeralsOf(b, radix), sep)
    ensures a == b
  {
    NumeralsAreFree(a, radix, sep);
    NumeralsAreFree(b, radix, sep);
    JoinInjective(NumeralsOf(a, radix), NumeralsOf(b, radix), sep);
    NumeralsInjective(a, b, radix);
  }

  /** Only IPv6 text has a colon. */
  lemma FamiliesDiffer(v4: nat, v6: nat)
    ensures DottedQuad(v4) != Join(NumeralsOf(Segments(v6), 16), COLON)
  {
    hide NumeralsOf, Groups, Octets;
    var (quad, groups) := (NumeralsOf(Octets(v4), 10), NumeralsOf(Segments(v6), 16));
    NumeralsAreFree(Octets(v4), 10, COLON);
    JoinFree(quad, DOT, COLON);
    assert Join(groups, COLON)[|groups[0]|] == COLON;
  }

  /** Two peers render alike exactly when they are the same address once IPv4-mapped ones are unwrapped. */
  lemma RenderingInjective(a: IpAddr, b: IpAddr)
    requires IsIp(a) && IsIp(b)
    ensures Rendering(a) == Rendering(b) <==> Canonical(a) == Canonical(b)
  {
    hide NumeralsOf, Groups, Octets, Canonical, Join;
    CanonicalIsIp(a);
    CanonicalIsIp(b);
    EightGroups();
    if Rendering(a) == Rendering(b) {
      match (Canonical(a), Canonical(b))
      case (V4(x), V4(y)) =>
        JoinedInjective(Octets(x), Octets(y), 10, DOT);
        OctetsInjective(x, y);
      case (V6(x), V6(y)) =>
        JoinedInjective(Segments(x), Segments(y), 16, COLON);
        GroupsRoundTrip(x, 8);
        GroupsRoundTrip(y, 8);
      case (V4(x), V6(y)) => FamiliesDiffer(x, y);
      case (V6(x), V4(y)) => FamiliesDiffer(y, x);
    }
  }

  // ----- Which address a text names -----

  lemma QuadOf(a: nat, b: nat, c: nat, d: nat)
    requires a < 256 && b < 256 && c < 256 && d < 256
    ensures Octets(((a * 256 + b) * 256 + c) * 256 + d) == [a, b, c, d]
  {
    hide U32Bytes, U32Of;
    BigEndian32([a, b, c, d]);
    U32FromBytes([a, b, c, d]);
  }

  /** An IPv4 address is written as its four octets, most significant first, in decimal with dots between. */
  lemma QuadText(a: nat, b: nat, c: nat, d: nat)
    requires a < 256 && b < 256 && c < 256 && d < 256
    ensures Rendering(V4(((a * 256 + b) * 256 + c) * 256 + d))
         == Digits(a, 10) + Ascii(".") + Digits(b, 10) + Ascii(".") + Digits(c, 10) + Ascii(".") + Digits(d, 10)
  {
    hide *;
    QuadOf(a, b, c, d);
    DottedText(((a * 256 + b) * 256 + c) * 256 + d, [a, b, c, d]);
  }

  lemma DottedText(bits: nat, gs: seq<nat>)
    requires |gs| == 4 && Octets(bits) == gs
    ensures Rendering(V4(bits))
         == Digits(gs[0], 10) + Ascii(".") + Digits(gs[1], 10) + Ascii(".") + Digits(gs[2], 10) + Ascii(".") + Digits(gs[3], 10)
  {
    hide Digits, Octets, Join;
    assert Ascii(".") == [DOT];
    JoinFour(NumeralsOf(gs, 10), DOT);
  }

  lemma JoinFour(t: seq<seq<u8>>, sep: u8)
    requires |t| == 4
    ensures Join(t, sep) == t[0] + [sep] + t[1] + [sep] + t[2] + [sep] + t[3]
  {
    hide Join;
    JoinOne(t[0], sep);
    assert t[..1] == [t[0]] && t[..4] == t;
    JoinNext(t, 1, sep);
    JoinNext(t, 2, sep);
    JoinNext(t, 3, sep);
  }

  /** `::ffff:a.b.c.d` is written as the IPv4 address it stands for. */
  lemma MappedText(x: nat)
    requires x < 0x1_0000_0000
    ensures Rendering(V6(0xFFFF * 0x1_0000_0000 + x)) == Rendering(V4(x))
  {
    hide DottedQuad, Join;
  }

  function Segment8(g: seq<nat>): nat
    requires |g| == 8
  {
    ((((((g[0] * 65536 + g[1]) * 65536 + g[2]) * 65536 + g[3]) * 65536 + g[4]) * 65536 + g[5]) * 65536 + g[6]) * 65536 + g[7]
  }

  lemma GroupsOf(g: seq<nat>)
    requires |g| == 8 && forall i :: 0 <= i < 8 ==> g[i] < 65536
    ensures Groups(Segment8(g), 8) == g
  {
    hide Groups;
    var x1 := g[0] * 65536 + g[1];
    var x2 := x1 * 65536 + g[2];
    var x3 := x2 * 65536 + g[3];
    var x4 := x3 * 65536 + g[4];
    var x5 := x4 * 65536 + g[5];
    var x6 := x5 * 65536 + g[6];
    GroupsStep(0, g[0], 0);
    GroupsStep(g[0], g[1], 1);
    GroupsStep(x1, g[2], 2);
    GroupsStep(x2, g[3], 3);
    GroupsStep(x3, g[4], 4);
    GroupsStep(x4, g[5], 5);
    GroupsStep(x5, g[6], 6);
    GroupsStep(x6, g[7], 7);
    assert g == [g[0]] + [g[1]] + [g[2]] + [g[3]] + [g[4]] + [g[5]] + [g[6]] + [g[7]];
  }

  lemma GroupsStep(x: nat, g: nat, count: nat)
    requires g < 65536
    ensures Groups(x * 65536 + g, count + 1) == Groups(x, count) + [g] && Groups(x, 0) == []
  {
  }

  /** Any other IPv6 address is written as its eight groups of 16 bits, most significant first, in
      lower-case hex with colons between and nothing left out. */
  lemma GroupsText(g: seq<nat>)
    requires |g| == 8 && forall i :: 0 <= i < 8 ==> g[i] < 65536
    requires !(g[0] == g[1] == g[2] == g[3] == g[4] == 0 && g[5] == 0xFFFF)
    ensures Rendering(V6(Segment8(g)))
         == Digits(g[0], 16) + Ascii(":") + Digits(g[1], 16) + Ascii(":") + Digits(g[2], 16) + Ascii(":") + Digits(g[3], 16)
            + Ascii(":") + Digits(g[4], 16) + Ascii(":") + Digits(g[5], 16) + Ascii(":") + Digits(g[6], 16) + Ascii(":") + Digits(g[7], 16)
  {
    hide Digits, Groups, Join;
    GroupsOf(g);
    NotMapped(g);
    var t := NumeralsOf(g, 16);
    assert Ascii(":") == [COLON];
    JoinEight(t, COLON);
  }

  lemma NotMapped(g: seq<nat>)
    requires |g| == 8 && forall i :: 0 <= i < 8 ==> g[i] < 65536
    requires !(g[0] == g[1] == g[2] == g[3] == g[4] == 0 && g[5] == 0xFFFF)
    ensures !IsMapped(V6(Segment8(g)))
  {
    var high := ((((g[0] * 65536 + g[1]) * 65536 + g[2]) * 65536 + g[3]) * 65536 + g[4]) * 65536 + g[5];
    assert Segment8(g) == high * V4_SIZE + (g[6] * 65536 + g[7]);
    assert Segment8(g) / V4_SIZE == high;
  }

  lemma JoinEight(t: seq<seq<u8>>, sep: u8)
    requires |t| == 8
    ensures Join(t, sep) == t[0] + [sep] + t[1] + [sep] + t[2] + [sep] + t[3] + [sep] + t[4] + [sep] + t[5] + [sep] + t[6] + [sep] + t[7]
  {
    hide Join;
    JoinOne(t[0], sep);
    assert t[..1] == [t[0]] && t[..8] == t;
    JoinNext(t, 1, sep);
    JoinNext(t, 2, sep);
    JoinNext(t, 3, sep);
    JoinNext(t, 4, sep);
    JoinNext(t, 5, sep);
    JoinNext(t, 6, sep);
    JoinNext(t, 7, sep);
  }

  lemma JoinNext(t: seq<seq<u8>>, i: nat, sep: u8)
    requires 0 < i < |t|
    ensures Join(t[..i + 1], sep) == Join(t[..i], sep) + [sep] + t[i]
  {
    hide Join;
    assert t[..i + 1] == t[..i] + [t[i]];
    JoinSnoc(t[..i], t[i], sep);
  }

  // ----- The streaming comparison -----

  function Concat(pieces: seq<seq<u8>>): seq<u8> {
    if pieces == [] then [] else Concat(pieces[..|pieces| - 1]) + pieces[|pieces| - 1]
  }

  /** A sink that fails as soon as what is written stops being a prefix of `rest`. */
  class PrefixMatcher {
    const text: seq<u8>
    var rest: seq<u8>
    ghost var written: seq<u8>

    /** What has been written is what has gone from the front of the text. */
    ghost predicate Valid()
      reads this
    {
      text == written + rest
    }

    constructor (text: seq<u8>)
      ensures Valid() && written == [] && this.text == text
    {
      this.text, rest, written := text, text, [];
    }

    /** `write_str`. */
    method WriteStr(s: seq<u8>) returns (ok: bool)
      requires Valid()
      modifies this
      ensures Valid()
      ensures ok <==> |old(written) + s| <= |text| && text[..|old(written) + s|] == old(written) + s
      ensures written == if ok then old(written) + s else old(written)
    {
      ok := |s| <= |rest| && rest[..|s|] == s;
      if !ok {
        if |written + s| <= |text| {
          assert text[..|written + s|][|written|..] == rest[..|s|];
          assert (written + s)[|written|..] == s;
        }
        return;
      }
      assert written + rest == written + s + rest[|s|..];
      rest := rest[|s|..];
      written := written + s;
    }
  }

  /** However the rendering is split into writes, streaming it decides equality with the text. */
  method StreamIs(pieces: seq<seq<u8>>, text: seq<u8>) returns (same: bool)
    ensures same <==> Concat(pieces) == text
  {
    var m := new PrefixMatcher(text);
    for i := 0 to |pieces|
      invariant m.Valid() && m.text == text && m.written == Concat(pieces[..i])
    {
      assert pieces[..i + 1][..i] == pieces[..i];
      var ok := m.WriteStr(pieces[i]);
      if !ok {
        ConcatPrefix(pieces, i + 1);
        return false;
      }
    }
    assert pieces[..|pieces|] == pieces;
    return m.rest == [];
  }

  lemma {:induction false} ConcatPrefix(pieces: seq<seq<u8>>, n: nat)
    requires n <= |pieces|
    ensures |Concat(pieces[..n])| <= |Concat(pieces)| && Concat(pieces)[..|Concat(pieces[..n])|] == Concat(pieces[..n])
  {
    if n == |pieces| {
      assert pieces[..n] == pieces;
    } else {
      var front := pieces[..|pieces| - 1];
      ConcatPrefix(front, n);
      assert front[..n] == pieces[..n];
    }
  }

  /** The writes `write_jdk_host_address` makes: one for a dotted quad, else a colon between hex groups. */
  function Writes(ip: IpAddr): seq<seq<u8>> {
    match Canonical(ip)
    case V4(bits) => [DottedQuad(bits)]
    case V6(bits) => SegmentWrites(Segments(bits))
  }

  function SegmentWrites(gs: seq<nat>): seq<seq<u8>> {
    if gs == [] then []
    else SegmentWrites(gs[..|gs| - 1]) + (if |gs| > 1 then [[COLON]] else []) + [Digits(gs[|gs| - 1], 16)]
  }

  lemma {:induction false} ConcatAppend(a: seq<seq<u8>>, b: seq<seq<u8>>)
    ensures Concat(a + b) == Concat(a) + Concat(b)
  {
    if b == [] {
      assert a + b == a;
    } else {
      assert (a + b)[..|a + b| - 1] == a + b[..|b| - 1];
      ConcatAppend(a, b[..|b| - 1]);
    }
  }

  lemma {:induction false} SegmentWritesJoin(gs: seq<nat>)
    requires gs != []
    ensures Concat(SegmentWrites(gs)) == Join(NumeralsOf(gs, 16), COLON)
  {
    hide Join, Digits, Concat;
    var (front, last) := (gs[..|gs| - 1], Digits(gs[|gs| - 1], 16));
    if |gs| == 1 {
      assert SegmentWrites(front) == [];
      assert SegmentWrites(gs) == [last];
      ConcatOne(last);
      assert NumeralsOf(gs, 16) == [last];
      JoinOne(last, COLON);
    } else {
      SegmentWritesJoin(front);
      assert SegmentWrites(gs) == SegmentWrites(front) + [[COLON], last];
      ConcatAppend(SegmentWrites(front), [[COLON], last]);
      ConcatTwo([COLON], last);
      assert NumeralsOf(gs, 16) == NumeralsOf(front, 16) + [last];
      JoinSnoc(NumeralsOf(front, 16), last, COLON);
    }
  }

  lemma JoinOne(s: seq<u8>, sep: u8)
    ensures Join([s], sep) == s
  {
  }

  lemma ConcatTwo(a: seq<u8>, b: seq<u8>)
    ensures Concat([a, b]) == a + b
  {
    assert [a, b][..1] == [a];
    ConcatOne(a);
  }

  lemma WritesRender(ip: IpAddr)
    ensures Concat(Writes(ip)) == Rendering(ip)
  {
    hide Join, NumeralsOf, Groups, Concat, SegmentWrites, Canonical, DottedQuad;
    match Canonical(ip)
    case V4(bits) => ConcatOne(DottedQuad(bits));
    case V6(bits) => SegmentWritesJoin(Segments(bits));
  }

  lemma ConcatOne(s: seq<u8>)
    ensures Concat([s]) == s
  {
    assert [s][..0] == [];
  }

  /** `write_jdk_host_address` into the comparator. */
  method WriteHost(ip: IpAddr, m: PrefixMatcher) returns (ok: bool)
    requires m.Valid() && m.written == []
    modifies m
    ensures m.Valid()
    ensures ok ==> m.written == Rendering(ip)
    ensures !ok ==> Rendering(ip) != m.text
  {
    hide Join, NumeralsOf, Groups, Concat, Canonical, DottedQuad;
    ghost var all := Writes(ip);
    WritesRender(ip);
    match Canonical(ip) {
      case V4(bits) =>
        ok := m.WriteStr(DottedQuad(bits));
      case V6(bits) =>
        var gs := Segments(bits);
        assert gs[..0] == [];
        NoWrites();
        for i := 0 to 8
          invariant m.Valid() && m.written == Concat(SegmentWrites(gs[..i]))
        {
          assert gs[..i + 1][..i] == gs[..i];
          ghost var front := SegmentWrites(gs[..i]);
          var digits := Digits(gs[i], 16);
          SegmentsSoFar(gs, i);
          if i > 0 {
            ok := m.WriteStr([COLON]);
            if !ok { return; }
          }
          ok := m.WriteStr(digits);
          if !ok { return; }
        }
        assert gs[..8] == gs;
        ok := true;
    }
  }

  lemma NoWrites()
    ensures Concat(SegmentWrites([])) == []
  {
  }

  /** The text written after segment `i`, and that each write of it is a prefix of the whole rendering. */
  lemma SegmentsSoFar(gs: seq<nat>, i: nat)
    requires i < |gs|
    ensures var (front, digits) := (Concat(SegmentWrites(gs[..i])), Digits(gs[i], 16));
      var after := if i > 0 then front + [COLON] + digits else front + digits;
      && Concat(SegmentWrites(gs[..i + 1])) == after
      && |after| <= |Concat(SegmentWrites(gs))| && Concat(SegmentWrites(gs))[..|after|] == after
  {
    var (writes, digits) := (SegmentWrites(gs[..i]), Digits(gs[i], 16));
    assert gs[..i + 1][..i] == gs[..i];
    var more := (if i > 0 then [[COLON]] else []) + [digits];
    assert SegmentWrites(gs[..i + 1]) == writes + more;
    ConcatAppend(writes, more);
    if i > 0 {
      assert more[..1] == [[COLON]];
      ConcatOne([COLON]);
    } else {
      assert more == [digits];
      ConcatOne(digits);
    }
    SegmentWritesPrefix(gs, i + 1);
    ConcatPrefix(SegmentWrites(gs), |SegmentWrites(gs[..i + 1])|);
  }

  lemma {:induction false} SegmentWritesPrefix(gs: seq<nat>, n: nat)
    requires n <= |gs|
    ensures |SegmentWrites(gs[..n])| <= |SegmentWrites(gs)|
    ensures SegmentWrites(gs)[..|SegmentWrites(gs[..n])|] == SegmentWrites(gs[..n])
  {
    if n == |gs| {
      assert gs[..n] == gs;
    } else {
      var front := gs[..|gs| - 1];
      SegmentWritesPrefix(front, n);
      assert front[..n] == gs[..n];
    }
  }

  /** `jdk_host_address_is` equals building the text and comparing. */
  method HostAddressIs(ip: IpAddr, text: seq<u8>) returns (same: bool)
    ensures same <==> Rendering(ip) == text
  {
    hide Rendering;
    var m := new PrefixMatcher(text);
    var ok := WriteHost(ip, m);
    return ok && m.rest == [];
  }
}
