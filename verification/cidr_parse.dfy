/** Parsing an IPv4 range, and when a stored ACL host names a peer. */
module CidrParse {
  import opened Bytes
  import opened Numerals
  import opened TextSplit
  import opened Cidr
  import opened HostFormat

  datatype ParseError = NoParse | OctetRange(value: nat) | PrefixRange(value: nat)
  datatype Parsed<+T> = Ok(value: T) | Err(error: ParseError)

  /** `ascii_digits`: one to `max` digits. */
  predicate AsciiDigits(text: seq<u8>, max: nat) { 1 <= |text| <= max && AllDigits(text, 10) }

  /** The text has the shape of four octets and a prefix, whatever their values. */
  predicate Shaped(octets: seq<seq<u8>>, prefix: seq<u8>) {
    && |octets| == 4 && (forall i :: 0 <= i < 4 ==> AsciiDigits(octets[i], 3))
    && AsciiDigits(prefix, 2)
  }

  /** The values of the octets, or the first that does not fit a byte. */
  function OctetValues(octets: seq<seq<u8>>): (r: Parsed<seq<u8>>)
    ensures r.Ok? ==> |r.value| == |octets|
  {
    if octets == [] then Ok([])
    else match OctetValues(octets[..|octets| - 1])
         case Err(e) => Err(e)
         case Ok(front) =>
           var v := Value(octets[|octets| - 1], 10);
           if v > 255 then Err(OctetRange(v)) else Ok(front + [v])
  }

  function ParseV4(s: seq<u8>): Parsed<Cidr> {
    match SplitOnce(s, SLASH)
    case None => Err(NoParse)
    case Some((address, prefix)) =>
      var octets := Split(address, DOT);
      if !Shaped(octets, prefix) then Err(NoParse)
      else match OctetValues(octets)
           case Err(e) => Err(e)
           case Ok(bytes) =>
             var n := Value(prefix, 10);
             if n > 32 then Err(PrefixRange(n)) else Ok(Cidr(V4(U32Of(bytes)), n))
  }

  lemma {:induction false} OctetValuesStop(octets: seq<seq<u8>>, n: nat)
    requires n <= |octets| && OctetValues(octets[..n]).Err?
    ensures OctetValues(octets) == OctetValues(octets[..n])
  {
    if n == |octets| {
      assert octets[..n] == octets;
    } else {
      assert octets[..|octets| - 1][..n] == octets[..n];
      OctetValuesStop(octets[..|octets| - 1], n);
    }
  }

  /** `parse_v4`, which fills a byte array octet by octet. */
  method ParseV4Text(cidr: seq<u8>) returns (r: Parsed<Cidr>)
    ensures r == ParseV4(cidr)
  {
    hide Value, Split, SplitOnce, U32Of;
    var parts := SplitOnce(cidr, SLASH);
    if parts == None {
      return Err(NoParse);
    }
    var (address, prefix) := parts.value;
    var octets := Split(address, DOT);
    if !Shaped(octets, prefix) {
      return Err(NoParse);
    }
    var bytes := new u8[4];
    for i := 0 to 4
      invariant OctetValues(octets[..i]) == Ok(bytes[..i])
    {
      assert octets[..i + 1][..i] == octets[..i];
      var value := Value(octets[i], 10);
      if value > 255 {
        OctetValuesStop(octets, i + 1);
        return Err(OctetRange(value));
      }
      ghost var front := bytes[..i];
      bytes[i] := value;
      assert bytes[..i + 1] == front + [bytes[i]];
    }
    assert octets[..4] == octets && bytes[..4] == bytes[..];
    var prefixLen := Value(prefix, 10);
    if prefixLen > 32 {
      return Err(PrefixRange(prefixLen));
    }
    return Ok(Cidr(V4(U32Of(bytes[..])), prefixLen));
  }

  // ----- Exactly the grammar -----

  lemma DigitsHaveNoMarks(text: seq<u8>)
    requires AllDigits(text, 10)
    ensures Free(text, DOT) && Free(text, SLASH)
  {
  }

  /** Text of the right shape splits back into its parts. */
  lemma ShapedParts(s: seq<u8>, octets: seq<seq<u8>>, prefix: seq<u8>)
    requires Shaped(octets, prefix)
    ensures s == Join(octets, DOT) + [SLASH] + prefix
       <==> SplitOnce(s, SLASH).Some? && Split(SplitOnce(s, SLASH).value.0, DOT) == octets && SplitOnce(s, SLASH).value.1 == prefix
  {
    hide Find, Join, Split, SplitOnce;
    forall i | 0 <= i < 4 ensures Free(octets[i], DOT) && Free(octets[i], SLASH) {
      DigitsHaveNoMarks(octets[i]);
    }
    JoinFree(octets, DOT, SLASH);
    SplitOfJoin(octets, DOT);
    SplitOnceIff(s, SLASH, Join(octets, DOT), prefix);
    if SplitOnce(s, SLASH).Some? {
      var (address, rest) := SplitOnce(s, SLASH).value;
      SplitOnceIff(s, SLASH, address, rest);
      JoinOfSplit(address, DOT);
    }
  }

  /** The parser accepts exactly four octets of at most 255 and a prefix of at most 32, and yields the
      address and prefix they spell. */
  lemma ParseV4Iff(s: seq<u8>, octets: seq<seq<u8>>, prefix: seq<u8>)
    requires Shaped(octets, prefix) && s == Join(octets, DOT) + [SLASH] + prefix
    ensures ParseV4(s).Ok? <==> (forall i :: 0 <= i < 4 ==> Value(octets[i], 10) <= 255) && Value(prefix, 10) <= 32
    ensures ParseV4(s).Ok? ==>
      var (a, b, c, d) := (Value(octets[0], 10), Value(octets[1], 10), Value(octets[2], 10), Value(octets[3], 10));
      ParseV4(s).value == Cidr(V4(((a * 256 + b) * 256 + c) * 256 + d), Value(prefix, 10))
  {
    hide Join, Split, SplitOnce, U32Of;
    ShapedParts(s, octets, prefix);
    OctetsInRange(octets);
    if OctetValues(octets).Ok? {
      BigEndian32(OctetValues(octets).value);
    }
  }

  /** The errors, in their order: the first octet over 255, then a prefix over 32. */
  lemma ParseV4Errors(s: seq<u8>, octets: seq<seq<u8>>, prefix: seq<u8>)
    requires Shaped(octets, prefix) && s == Join(octets, DOT) + [SLASH] + prefix
    ensures forall k :: 0 <= k < 4 && Value(octets[k], 10) > 255 && (forall i :: 0 <= i < k ==> Value(octets[i], 10) <= 255) ==>
      ParseV4(s) == Err(OctetRange(Value(octets[k], 10)))
    ensures (forall i :: 0 <= i < 4 ==> Value(octets[i], 10) <= 255) && Value(prefix, 10) > 32 ==>
      ParseV4(s) == Err(PrefixRange(Value(prefix, 10)))
    ensures ParseV4(s) != Err(NoParse)
  {
    hide Join, Split, SplitOnce, U32Of, Value;
    ShapedParts(s, octets, prefix);
    OctetsInRange(octets);
    forall k | 0 <= k < 4 && Value(octets[k], 10) > 255 && forall i :: 0 <= i < k ==> Value(octets[i], 10) <= 255
      ensures OctetValues(octets) == Err(OctetRange(Value(octets[k], 10)))
    {
      FirstOver(octets, k);
      OctetValuesStop(octets, k + 1);
    }
    OctetErrors(octets);
  }

  lemma {:induction false} FirstOver(octets: seq<seq<u8>>, k: nat)
    requires k < |octets| && Value(octets[k], 10) > 255 && forall i :: 0 <= i < k ==> Value(octets[i], 10) <= 255
    ensures OctetValues(octets[..k]).Ok? && OctetValues(octets[..k + 1]) == Err(OctetRange(Value(octets[k], 10)))
  {
    hide Value;
    assert octets[..k + 1][..k] == octets[..k];
    AllWithin(octets[..k]);
  }

  lemma {:induction false} AllWithin(octets: seq<seq<u8>>)
    requires forall i :: 0 <= i < |octets| ==> Value(octets[i], 10) <= 255
    ensures OctetValues(octets).Ok?
  {
    hide Value;
    if octets != [] {
      AllWithin(octets[..|octets| - 1]);
    }
  }

  lemma {:induction false} OctetErrors(octets: seq<seq<u8>>)
    ensures OctetValues(octets) != Err(NoParse)
  {
    hide Value;
    if octets != [] {
      OctetErrors(octets[..|octets| - 1]);
    }
  }

  lemma OctetsInRange(octets: seq<seq<u8>>)
    requires |octets| == 4
    ensures OctetValues(octets).Ok? <==> forall i :: 0 <= i < 4 ==> Value(octets[i], 10) <= 255
    ensures OctetValues(octets).Ok? ==>
      OctetValues(octets).value == [Value(octets[0], 10), Value(octets[1], 10), Value(octets[2], 10), Value(octets[3], 10)]
  {
    hide Value;
    assert octets[..3][..2] == octets[..2] && octets[..2][..1] == octets[..1] && octets[..1][..0] == [];
    assert octets[..3][2] == octets[2] && octets[..2][1] == octets[1] && octets[..1][0] == octets[0];
    var (v1, v2, v3) := (OctetValues(octets[..1]), OctetValues(octets[..2]), OctetValues(octets[..3]));
    assert OctetValues(octets[..0]) == Ok([]);
  }

  /** Nothing else parses: whatever does has that shape. */
  lemma ParsedIsShaped(s: seq<u8>)
    requires ParseV4(s) != Err(NoParse)
    ensures exists octets, prefix :: Shaped(octets, prefix) && s == Join(octets, DOT) + [SLASH] + prefix
  {
    hide Join, Split, SplitOnce, U32Of, OctetValues;
    var (address, prefix) := SplitOnce(s, SLASH).value;
    ShapedParts(s, Split(address, DOT), prefix);
  }

  // ----- The printer it inverts -----

  function PrintV4(c: Cidr): seq<u8>
    requires c.ip.V4?
  {
    DottedQuad(c.ip.bits) + [SLASH] + Digits(c.prefixLen, 10)
  }

  lemma ShortDigits(n: nat)
    requires n <= 255
    ensures AsciiDigits(Digits(n, 10), 3) && (n <= 32 ==> AsciiDigits(Digits(n, 10), 2))
  {
    ValueOfDigits(n, 10);
    assert n / 10 / 10 < 10;
    assert Digits(n / 10 / 10, 10) == [DigitByte(n / 10 / 10)];
    assert |Digits(n / 10, 10)| <= 2;
  }

  /** Printing a range and parsing it back is the identity. */
  lemma PrintRoundTrip(c: Cidr)
    requires IsCidr(c) && c.ip.V4?
    ensures ParseV4(PrintV4(c)) == Ok(c)
  {
    hide Join, U32Of, U32Bytes, ParseV4, Digits, Value;
    var b := U32Bytes(c.ip.bits);
    var octets := NumeralsOf(Octets(c.ip.bits), 10);
    var prefix := Digits(c.prefixLen, 10);
    ShortDigits(c.prefixLen);
    ValueOfDigits(c.prefixLen, 10);
    forall i | 0 <= i < 4 ensures AsciiDigits(octets[i], 3) && Value(octets[i], 10) == b[i] {
      ShortDigits(b[i]);
      ValueOfDigits(b[i], 10);
    }
    ParseV4Iff(PrintV4(c), octets, prefix);
    BigEndian32(b);
    U32RoundTrip(c.ip.bits);
  }

  // ----- Stored hosts -----

  const ANY_HOST := Ascii("*")

  /** `matches_host`, with the IPv6 range parser as a parameter: the wildcard, the rendered address, or,
      where ranges are read, a range that contains the peer. */
  predicate HostMatches(host: seq<u8>, peer: IpAddr, ranges: bool, parseV6: seq<u8> -> Parsed<Cidr>) {
    || host == ANY_HOST
    || host == Rendering(peer)
    || (ranges && SLASH in host && InRange(if COLON in host then parseV6(host) else ParseV4(host), peer))
  }

  predicate InRange(range: Parsed<Cidr>, peer: IpAddr) { range.Ok? && IsCidr(range.value) && Contains(range.value, peer) }

  /** The same, as the authorizer evaluates it. */
  method MatchesHost(host: seq<u8>, peer: IpAddr, ranges: bool, parseV6: seq<u8> -> Parsed<Cidr>) returns (matches: bool)
    ensures matches <==> HostMatches(host, peer, ranges, parseV6)
  {
    hide Rendering, ParseV4, Contains;
    if host == ANY_HOST {
      return true;
    }
    var literal := HostAddressIs(peer, host);
    if literal {
      return true;
    }
    if !ranges || SLASH !in host {
      return false;
    }
    var range;
    if COLON in host {
      range := parseV6(host);
    } else {
      range := ParseV4Text(host);
    }
    return InRange(range, peer);
  }

  /** An IPv4-mapped peer is treated as the IPv4 peer it stands for, by every stored host. */
  lemma MappedPeerIsV4(host: seq<u8>, peer: IpAddr, ranges: bool, parseV6: seq<u8> -> Parsed<Cidr>)
    ensures HostMatches(host, peer, ranges, parseV6) == HostMatches(host, Canonical(peer), ranges, parseV6)
  {
    hide DottedQuad, Join, ParseV4, And;
    CanonicalTwice(peer);
  }

  lemma CanonicalTwice(ip: IpAddr)
    ensures Canonical(Canonical(ip)) == Canonical(ip)
  {
  }

  /** A stored address matches exactly one peer: no two peers that differ once unwrapped share it. */
  lemma LiteralHostIsOnePeer(host: seq<u8>, a: IpAddr, b: IpAddr, parseV6: seq<u8> -> Parsed<Cidr>)
    requires IsIp(a) && IsIp(b) && host != ANY_HOST
    requires HostMatches(host, a, false, parseV6) && HostMatches(host, b, false, parseV6)
    ensures Canonical(a) == Canonical(b)
  {
    hide Rendering, Canonical;
    RenderingInjective(a, b);
  }

  // ----- Which peers a stored host names -----

  /** The host `*` is every peer. */
  lemma AnyHost(peer: IpAddr, ranges: bool, parseV6: seq<u8> -> Parsed<Cidr>)
    ensures HostMatches(Ascii("*"), peer, ranges, parseV6)
  {
  }

  /** One to `max` of the characters 0 to 9. */
  predicate Decimal(text: seq<u8>, max: nat) { 1 <= |text| <= max && forall i :: 0 <= i < |text| ==> 48 <= text[i] <= 57 }

  lemma DecimalIff(text: seq<u8>, max: nat)
    ensures Decimal(text, max) <==> AsciiDigits(text, max)
  {
    assert forall i :: 0 <= i < |text| ==> (IsDigit(text[i], 10) <==> 48 <= text[i] <= 57);
  }

  lemma DecimalIsShaped(octets: seq<seq<u8>>, prefix: seq<u8>)
    requires |octets| == 4
    ensures Shaped(octets, prefix) <==> (forall i :: 0 <= i < 4 ==> Decimal(octets[i], 3)) && Decimal(prefix, 2)
  {
    hide AsciiDigits, Decimal;
    forall i | 0 <= i < 4 ensures Decimal(octets[i], 3) <==> AsciiDigits(octets[i], 3) { DecimalIff(octets[i], 3); }
    DecimalIff(prefix, 2);
  }

  /** The text of a range: four octets of up to three digits with dots between, a slash, and a prefix length
      of up to two. */
  predicate RangeText(host: seq<u8>, octets: seq<seq<u8>>, prefix: seq<u8>) {
    && |octets| == 4 && (forall i :: 0 <= i < 4 ==> Decimal(octets[i], 3)) && Decimal(prefix, 2)
    && host == octets[0] + Ascii(".") + octets[1] + Ascii(".") + octets[2] + Ascii(".") + octets[3] + Ascii("/") + prefix
  }

  lemma RangeParts(host: seq<u8>, octets: seq<seq<u8>>, prefix: seq<u8>)
    requires RangeText(host, octets, prefix)
    ensures Shaped(octets, prefix)
    ensures host == Join(octets, DOT) + [SLASH] + prefix && SLASH in host && COLON !in host
  {
    hide Join;
    DecimalIsShaped(octets, prefix);
    assert Ascii(".") == [DOT] && Ascii("/") == [SLASH];
    JoinFour(octets, DOT);
    NoColon(octets, prefix);
    assert host[|Join(octets, DOT)|] == SLASH;
  }

  lemma NoColon(octets: seq<seq<u8>>, prefix: seq<u8>)
    requires Shaped(octets, prefix)
    ensures COLON !in Join(octets, DOT) + [SLASH] + prefix
  {
    hide Join;
    forall i | 0 <= i < 4 ensures Free(octets[i], COLON) { assert AllDigits(octets[i], 10); }
    JoinFree(octets, DOT, COLON);
  }

  /** The parser takes exactly such text; whatever is wrong with its numbers is another error. */
  lemma ParsesIff(host: seq<u8>)
    ensures ParseV4(host) != Err(NoParse) <==> exists octets, prefix :: RangeText(host, octets, prefix)
  {
    hide Join, ParseV4, AsciiDigits, RangeText;
    if ParseV4(host) != Err(NoParse) {
      ParsedIsShaped(host);
      var octets, prefix :| Shaped(octets, prefix) && host == Join(octets, DOT) + [SLASH] + prefix;
      ShapedIsRange(host, octets, prefix);
    }
    if octets, prefix :| RangeText(host, octets, prefix) {
      RangeParts(host, octets, prefix);
      ParseV4Errors(host, octets, prefix);
    }
  }

  lemma ShapedIsRange(host: seq<u8>, octets: seq<seq<u8>>, prefix: seq<u8>)
    requires Shaped(octets, prefix) && host == Join(octets, DOT) + [SLASH] + prefix
    ensures RangeText(host, octets, prefix)
  {
    hide Join;
    DecimalIsShaped(octets, prefix);
    assert Ascii(".") == [DOT] && Ascii("/") == [SLASH];
    JoinFour(octets, DOT);
  }

  /** Rendered addresses have no slash, so a range is never one. */
  lemma NoSlash(peer: IpAddr)
    ensures SLASH !in Rendering(peer)
  {
    hide Join, Octets, Groups, Digits;
    match Canonical(peer)
    case V4(bits) => NumeralsFree(Octets(bits), 10, DOT);
    case V6(bits) => NumeralsFree(Segments(bits), 16, COLON);
  }

  lemma NumeralsFree(gs: seq<nat>, radix: nat, sep: u8)
    requires Radix(radix) && gs != [] && sep != SLASH
    ensures SLASH !in Join(NumeralsOf(gs, radix), sep)
  {
    hide Join, Digits;
    forall i | 0 <= i < |gs| ensures Free(NumeralsOf(gs, radix)[i], SLASH) { ValueOfDigits(gs[i], radix); }
    JoinFree(NumeralsOf(gs, radix), sep, SLASH);
  }

  /** A stored range `a.b.c.d/n` names exactly the peers other than 0.0.0.0 whose address agrees with
      a.b.c.d, octets most significant first, in its first `n` bits; with an octet over 255 or a prefix over
      32 it names none. */
  lemma RangeHost(host: seq<u8>, octets: seq<seq<u8>>, prefix: seq<u8>, x: nat, parseV6: seq<u8> -> Parsed<Cidr>)
    requires RangeText(host, octets, prefix) && x < 0x1_0000_0000
    ensures var (a, b, c, d, n) :=
        (Value(octets[0], 10), Value(octets[1], 10), Value(octets[2], 10), Value(octets[3], 10), Value(prefix, 10));
      HostMatches(host, V4(x), true, parseV6) <==>
        && a <= 255 && b <= 255 && c <= 255 && d <= 255 && n <= 32 && x != 0
        && (((a * 256 + b) * 256 + c) * 256 + d) / Pow2(32 - n) == x / Pow2(32 - n)
    ensures HostMatches(host, V6(0xFFFF * 0x1_0000_0000 + x), true, parseV6) == HostMatches(host, V4(x), true, parseV6)
  {
    hide Rendering, ParseV4, Contains, Value, Pow2, Join, HostMatches;
    RangeIff(host, octets, prefix, x, parseV6);
    MappedPeerIsV4(host, V6(0xFFFF * 0x1_0000_0000 + x), true, parseV6);
  }

  lemma RangeIff(host: seq<u8>, octets: seq<seq<u8>>, prefix: seq<u8>, x: nat, parseV6: seq<u8> -> Parsed<Cidr>)
    requires RangeText(host, octets, prefix) && x < 0x1_0000_0000
    ensures var (a, b, c, d, n) :=
        (Value(octets[0], 10), Value(octets[1], 10), Value(octets[2], 10), Value(octets[3], 10), Value(prefix, 10));
      HostMatches(host, V4(x), true, parseV6) <==>
        && a <= 255 && b <= 255 && c <= 255 && d <= 255 && n <= 32 && x != 0
        && (((a * 256 + b) * 256 + c) * 256 + d) / Pow2(32 - n) == x / Pow2(32 - n)
  {
    hide Rendering, ParseV4, Contains, Value, Pow2, Join;
    RangeParts(host, octets, prefix);
    NoSlash(V4(x));
    assert host != ANY_HOST by { assert SLASH !in ANY_HOST; }
    ParseV4Iff(host, octets, prefix);
    if ParseV4(host).Ok? {
      ContainsIff(ParseV4(host).value, V4(x));
    }
  }
}
