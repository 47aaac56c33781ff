/** The audit spool's byte formats: the record codec, the length-prefixed frame, the version
    header every file of the spool directory starts with, and the scan of a spool file. */
module AuditCodec {
  import opened Bytes
  import opened Utf8

  datatype EventClass =
    Authentication | Authorization | ApiActivity | ApplicationLifecycle | Checkpoint | RecordsLost

  function Tag(c: EventClass): u8 {
    match c
    case Authentication => 0
    case Authorization => 1
    case ApiActivity => 2
    case ApplicationLifecycle => 3
    case Checkpoint => 4
    case RecordsLost => 5
  }

  function FromTag(tag: u8): Option<EventClass> {
    match tag
    case 0 => Some(Authentication)
    case 1 => Some(Authorization)
    case 2 => Some(ApiActivity)
    case 3 => Some(ApplicationLifecycle)
    case 4 => Some(Checkpoint)
    case 5 => Some(RecordsLost)
    case _ => None
  }

  /** A record header. The key is a Rust `String`: `HeaderFits` says it is UTF-8. */
  datatype Header = Header(key: seq<u8>, value: seq<u8>)

  datatype AuditRecord = AuditRecord(class_: EventClass, value: seq<u8>, headers: seq<Header>)

  // ----- Encoding -----

  function PutBytes(b: seq<u8>): seq<u8> { U32Bytes(|b|) + b }

  function HeaderBytes(h: Header): seq<u8> { PutBytes(h.key) + PutBytes(h.value) }

  function HeadersBytes(hs: seq<Header>): seq<u8> {
    if hs == [] then [] else HeaderBytes(hs[0]) + HeadersBytes(hs[1..])
  }

  /** The record layout: class tag, value, header count, headers. */
  function RecordBytes(r: AuditRecord): seq<u8> {
    [Tag(r.class_)] + PutBytes(r.value) + U32Bytes(|r.headers|) + HeadersBytes(r.headers)
  }

  predicate HeaderFits(h: Header) { Valid(h.key) && |h.key| <= U32_MAX && |h.value| <= U32_MAX }

  predicate HeadersFit(hs: seq<Header>) { forall i :: 0 <= i < |hs| ==> HeaderFits(hs[i]) }

  predicate FieldsFit(r: AuditRecord) {
    && |r.value| <= U32_MAX
    && |r.headers| <= U32_MAX
    && HeadersFit(r.headers)
  }

  /** Every length in the record's frame fits its `u32` prefix; otherwise encoding is an error. */
  predicate Encodable(r: AuditRecord) {
    FieldsFit(r) && |RecordBytes(r)| <= U32_MAX
  }

  function FrameBytes(r: AuditRecord): seq<u8> { PutBytes(RecordBytes(r)) }

  function FrameLen(r: AuditRecord): (n: nat)
    ensures n >= 4
  {
    |FrameBytes(r)|
  }

  function Frames(rs: seq<AuditRecord>): seq<u8> {
    if rs == [] then [] else FrameBytes(rs[0]) + Frames(rs[1..])
  }

  function Size(rs: seq<AuditRecord>): nat { |Frames(rs)| }

  predicate AllEncodable(rs: seq<AuditRecord>) { forall r :: r in rs ==> Encodable(r) }

  // ----- Decoding -----

  function TakeU32(b: seq<u8>): Option<(nat, seq<u8>)> {
    if |b| < 4 then None else Some((U32Of(b[..4]), b[4..]))
  }

  function TakeBytes(b: seq<u8>): Option<(seq<u8>, seq<u8>)> {
    match TakeU32(b)
    case None => None
    case Some((len, rest)) => if len > |rest| then None else Some((rest[..len], rest[len..]))
  }

  function TakeHeader(b: seq<u8>): Option<(Header, seq<u8>)> {
    match TakeBytes(b)
    case None => None
    case Some((k, rest)) =>
      match TakeBytes(rest)
      case None => None
      case Some((v, rest')) => if Valid(k) then Some((Header(k, v), rest')) else None
  }

  function TakeHeaders(b: seq<u8>, n: nat): Option<seq<Header>>
    decreases n
  {
    if n == 0 then Some([])
    else
      match TakeHeader(b)
      case None => None
      case Some((h, rest)) =>
        match TakeHeaders(rest, n - 1)
        case None => None
        case Some(hs) => Some([h] + hs)
  }

  /** The record a frame body holds; bytes after the last header are ignored. */
  function RecordOf(b: seq<u8>): Option<AuditRecord> {
    if b == [] then None
    else
      match FromTag(b[0])
      case None => None
      case Some(c) =>
        match TakeBytes(b[1..])
        case None => None
        case Some((value, rest)) =>
          match TakeU32(rest)
          case None => None
          case Some((hc, rest')) =>
            match TakeHeaders(rest', hc)
            case None => None
            case Some(hs) => Some(AuditRecord(c, value, hs))
  }

  /** The frame at the front of `b` and its length, or `None` when it is torn or corrupt. */
  function FrameOf(b: seq<u8>): (f: Option<(AuditRecord, nat)>)
    ensures f.Some? ==> 4 <= f.value.1 <= |b|
  {
    match TakeU32(b)
    case None => None
    case Some((len, rest)) =>
      if len > |rest| then None
      else match RecordOf(rest[..len])
           case None => None
           case Some(r) => Some((r, 4 + len))
  }

  function ScanRecords(b: seq<u8>): seq<AuditRecord> {
    match FrameOf(b)
    case None => []
    case Some((r, n)) => [r] + ScanRecords(b[n..])
  }

  function ScanLengths(b: seq<u8>): (lens: seq<nat>)
    ensures forall i :: 0 <= i < |lens| ==> lens[i] >= 4
    ensures |lens| == |ScanRecords(b)|
  {
    match FrameOf(b)
    case None => []
    case Some((r, n)) => [n] + ScanLengths(b[n..])
  }

  function Sum(lens: seq<nat>): nat {
    if lens == [] then 0 else Sum(lens[..|lens| - 1]) + lens[|lens| - 1]
  }

  // ----- Round trip -----

  lemma TakePutBytes(b: seq<u8>, rest: seq<u8>)
    requires |b| <= U32_MAX
    ensures TakeBytes(PutBytes(b) + rest) == Some((b, rest))
  {
    U32RoundTrip(|b|);
    var s := PutBytes(b) + rest;
    assert s[..4] == U32Bytes(|b|);
    assert s[4..] == b + rest;
  }

  lemma TakePutU32(n: nat, rest: seq<u8>)
    requires n <= U32_MAX
    ensures TakeU32(U32Bytes(n) + rest) == Some((n, rest))
  {
    U32RoundTrip(n);
    assert (U32Bytes(n) + rest)[..4] == U32Bytes(n);
    assert (U32Bytes(n) + rest)[4..] == rest;
  }

  lemma TakeHeaderBytes(h: Header, rest: seq<u8>)
    requires HeaderFits(h)
    ensures TakeHeader(HeaderBytes(h) + rest) == Some((h, rest))
  {
    assert HeaderBytes(h) + rest == PutBytes(h.key) + (PutBytes(h.value) + rest);
    TakePutBytes(h.key, PutBytes(h.value) + rest);
    TakePutBytes(h.value, rest);
  }

  lemma TakeHeadersStep(b: seq<u8>, n: nat, h: Header, rest: seq<u8>, hs: seq<Header>)
    requires TakeHeader(b) == Some((h, rest)) && TakeHeaders(rest, n) == Some(hs)
    ensures TakeHeaders(b, n + 1) == Some([h] + hs)
  {
  }

  lemma {:induction false} TakeHeadersBytes(hs: seq<Header>, rest: seq<u8>)
    requires HeadersFit(hs)
    ensures TakeHeaders(HeadersBytes(hs) + rest, |hs|) == Some(hs)
  {
    hide TakeHeader, HeaderBytes;
    if hs != [] {
      var b := HeadersBytes(hs) + rest;
      var tail := HeadersBytes(hs[1..]) + rest;
      assert b == HeaderBytes(hs[0]) + tail;
      assert TakeHeader(b) == Some((hs[0], tail)) by { TakeHeaderBytes(hs[0], tail); }
      TakeHeadersBytes(hs[1..], rest);
      TakeHeadersStep(b, |hs| - 1, hs[0], tail, hs[1..]);
      assert [hs[0]] + hs[1..] == hs;
    }
  }

  lemma Reassociate(a: seq<u8>, b: seq<u8>, c: seq<u8>)
    ensures (a + b) + c == a + (b + c)
  {
  }

  lemma RecordOfParts(b: seq<u8>, c: EventClass, vb: seq<u8>, value: seq<u8>, nb: seq<u8>, n: nat, hb: seq<u8>, hs: seq<Header>)
    requires b == [Tag(c)] + vb + nb + hb
    requires TakeBytes(vb + (nb + hb)) == Some((value, nb + hb))
    requires TakeU32(nb + hb) == Some((n, hb))
    requires TakeHeaders(hb, n) == Some(hs)
    ensures RecordOf(b) == Some(AuditRecord(c, value, hs))
  {
    hide TakeBytes, TakeU32, TakeHeaders;
    assert b[1..] == vb + (nb + hb);
  }

  /** Decoding inverts encoding. */
  lemma RecordRoundTrip(r: AuditRecord)
    requires FieldsFit(r)
    ensures RecordOf(RecordBytes(r)) == Some(r)
  {
    var nb, hb := U32Bytes(|r.headers|), HeadersBytes(r.headers);
    hide RecordOf, TakeBytes, TakeU32, TakeHeaders, HeadersBytes, PutBytes, U32Bytes, HeaderFits;
    TakePutBytes(r.value, nb + hb);
    TakePutU32(|r.headers|, hb);
    TakeHeadersBytes(r.headers, []);
    assert hb + [] == hb;
    RecordOfParts(RecordBytes(r), r.class_, PutBytes(r.value), r.value, nb, |r.headers|, hb, r.headers);
  }

  lemma FrameOfParts(nb: seq<u8>, body: seq<u8>, rest: seq<u8>, r: AuditRecord)
    requires TakeU32(nb + (body + rest)) == Some((|body|, body + rest)) && RecordOf(body) == Some(r)
    ensures FrameOf(nb + body + rest) == Some((r, 4 + |body|))
  {
    assert nb + body + rest == nb + (body + rest);
    assert (body + rest)[..|body|] == body;
  }

  lemma FrameRoundTrip(r: AuditRecord, rest: seq<u8>)
    requires Encodable(r)
    ensures FrameOf(FrameBytes(r) + rest) == Some((r, FrameLen(r)))
  {
    var body := RecordBytes(r);
    hide RecordBytes, RecordOf, TakeU32, U32Bytes, HeadersFit;
    TakePutU32(|body|, body + rest);
    RecordRoundTrip(r);
    FrameOfParts(U32Bytes(|body|), body, rest, r);
  }

  /** A torn frame is never mistaken for a whole one, wherever it is cut. */
  lemma TornFrameStops(r: AuditRecord, cut: nat)
    requires Encodable(r) && cut < FrameLen(r)
    ensures FrameOf(FrameBytes(r)[..cut]) == None
  {
    var b := FrameBytes(r)[..cut];
    if cut >= 4 {
      U32RoundTrip(|RecordBytes(r)|);
      assert b[..4] == U32Bytes(|RecordBytes(r)|);
    }
  }

  // ----- The scan of a whole or torn file -----

  /** How many whole frames the first `cut` bytes of `Frames(rs)` hold. */
  function WholeFrames(rs: seq<AuditRecord>, cut: nat): (m: nat)
    ensures m <= |rs|
  {
    if rs == [] || cut < FrameLen(rs[0]) then 0 else 1 + WholeFrames(rs[1..], cut - FrameLen(rs[0]))
  }

  lemma {:induction false} FramesAppend(a: seq<AuditRecord>, b: seq<AuditRecord>)
    ensures Frames(a + b) == Frames(a) + Frames(b)
  {
    if a == [] {
      assert a + b == b;
    } else {
      assert (a + b)[1..] == a[1..] + b;
      FramesAppend(a[1..], b);
    }
  }

  function Lengths(rs: seq<AuditRecord>): (lens: seq<nat>)
    ensures |lens| == |rs|
  {
    seq(|rs|, i requires 0 <= i < |rs| => FrameLen(rs[i]))
  }

  lemma ScanStep(b: seq<u8>, r: AuditRecord, n: nat, rest: seq<u8>)
    requires FrameOf(b) == Some((r, n)) && b[n..] == rest
    ensures ScanRecords(b) == [r] + ScanRecords(rest)
    ensures ScanLengths(b) == [n] + ScanLengths(rest)
  {
  }

  lemma ScanNothing(b: seq<u8>)
    requires FrameOf(b) == None
    ensures ScanRecords(b) == [] && ScanLengths(b) == []
  {
  }

  /** A whole number of frames, then bytes that do not start with one, scan as exactly those frames. */
  lemma {:induction false} ScanFramesThenTail(rs: seq<AuditRecord>, tail: seq<u8>)
    requires AllEncodable(rs) && FrameOf(tail) == None
    ensures ScanRecords(Frames(rs) + tail) == rs
    ensures ScanLengths(Frames(rs) + tail) == Lengths(rs)
  {
    hide FrameOf, FrameBytes, ScanRecords, ScanLengths;
    var b := Frames(rs) + tail;
    if rs == [] {
      assert b == tail;
      ScanNothing(b);
    } else {
      var rest := Frames(rs[1..]) + tail;
      Reassociate(FrameBytes(rs[0]), Frames(rs[1..]), tail);
      FrameRoundTrip(rs[0], rest);
      DropPrefix(FrameBytes(rs[0]), rest);
      ScanStep(b, rs[0], FrameLen(rs[0]), rest);
      ScanFramesThenTail(rs[1..], tail);
      assert [rs[0]] + rs[1..] == rs;
      assert [FrameLen(rs[0])] + Lengths(rs[1..]) == Lengths(rs);
    }
  }

  /** The frame lengths of a scan add up to byte offsets in the file. */
  lemma {:induction false} SumOfLengths(rs: seq<AuditRecord>, k: nat)
    requires k <= |rs|
    ensures Sum(Lengths(rs)[..k]) == Size(rs[..k])
  {
    hide FrameBytes;
    if k > 0 {
      SumOfLengths(rs, k - 1);
      SizeSnoc(rs, k - 1);
      assert Lengths(rs)[..k][..k - 1] == Lengths(rs)[..k - 1];
    }
  }

  lemma DropPrefix(a: seq<u8>, b: seq<u8>)
    ensures (a + b)[|a|..] == b
  {
  }

  lemma CutStep(first: seq<u8>, others: seq<u8>, cut: nat, whole: seq<u8>, tail: seq<u8>)
    requires |first| <= cut <= |first| + |others| && others[..cut - |first|] == whole + tail
    ensures (first + others)[..cut] == first + whole + tail
  {
    assert (first + others)[..cut] == first + others[..cut - |first|];
  }

  lemma CutWithin(a: seq<u8>, b: seq<u8>, cut: nat)
    requires cut <= |a|
    ensures (a + b)[..cut] == a[..cut]
  {
  }

  /** A cut at any byte leaves whole frames and then a torn one. */
  lemma {:induction false} CutFrames(rs: seq<AuditRecord>, cut: nat) returns (tail: seq<u8>)
    requires AllEncodable(rs) && cut <= Size(rs)
    ensures FrameOf(tail) == None
    ensures Frames(rs)[..cut] == Frames(rs[..WholeFrames(rs, cut)]) + tail
  {
    if rs == [] {
      tail := [];
      assert rs[..0] == [];
    } else if cut < FrameLen(rs[0]) {
      tail := FrameBytes(rs[0])[..cut];
      TornFrameStops(rs[0], cut);
      CutWithin(FrameBytes(rs[0]), Frames(rs[1..]), cut);
      assert rs[..0] == [];
    } else {
      var others, m := rs[1..], WholeFrames(rs, cut);
      tail := CutFrames(others, cut - FrameLen(rs[0]));
      CutStep(FrameBytes(rs[0]), Frames(others), cut, Frames(others[..m - 1]), tail);
      FramesCons(rs, m);
    }
  }

  /** No further whole frame fits before the cut. */
  lemma {:induction false} WholeFramesIsMaximal(rs: seq<AuditRecord>, cut: nat)
    ensures var m := WholeFrames(rs, cut);
      Size(rs[..m]) <= cut && (m < |rs| ==> cut < Size(rs[..m + 1]))
  {
    hide FrameBytes;
    var m := WholeFrames(rs, cut);
    assert rs[..0] == [];
    if rs != [] {
      if m == 0 {
        SizeSnoc(rs, 0);
      } else {
        WholeFramesIsMaximal(rs[1..], cut - FrameLen(rs[0]));
        FramesCons(rs, m);
        if m < |rs| { FramesCons(rs, m + 1); }
      }
    }
  }

  lemma FramesCons(rs: seq<AuditRecord>, k: nat)
    requires 0 < k <= |rs|
    ensures Frames(rs[..k]) == FrameBytes(rs[0]) + Frames(rs[1..][..k - 1])
  {
    assert rs[..k][1..] == rs[1..][..k - 1];
  }

  /** Torn-tail healing is exact: cutting a spool at any byte leaves precisely the whole frames
      before the cut, `valid_bytes` is their size, and those bytes alone scan again to themselves. */
  lemma TornTailHealsExactly(rs: seq<AuditRecord>, cut: nat)
    requires AllEncodable(rs) && cut <= Size(rs)
    ensures var b, m := Frames(rs)[..cut], WholeFrames(rs, cut);
      && ScanRecords(b) == rs[..m]
      && Sum(ScanLengths(b)) == Size(rs[..m]) <= cut
      && (m < |rs| ==> cut < Size(rs[..m + 1]))
      && b[..Size(rs[..m])] == Frames(rs[..m])
      && ScanRecords(Frames(rs[..m])) == rs[..m]
  {
    var m := WholeFrames(rs, cut);
    var tail := CutFrames(rs, cut);
    WholeFramesIsMaximal(rs, cut);
    ScanOfFrames(rs[..m], tail);
    ScanOfFrames(rs[..m], []);
    assert Frames(rs[..m]) + [] == Frames(rs[..m]);
  }

  lemma ScanOfFrames(rs: seq<AuditRecord>, tail: seq<u8>)
    requires AllEncodable(rs) && FrameOf(tail) == None
    ensures ScanRecords(Frames(rs) + tail) == rs
    ensures Sum(ScanLengths(Frames(rs) + tail)) == Size(rs)
  {
    ScanFramesThenTail(rs, tail);
    SumOfLengths(rs, |rs|);
    assert Lengths(rs)[..|rs|] == Lengths(rs) && rs[..|rs|] == rs;
  }

  /** Appending to a healed spool scans as one longer list. */
  lemma AppendAfterHealing(rs: seq<AuditRecord>, r: AuditRecord)
    requires AllEncodable(rs) && Encodable(r)
    ensures ScanRecords(Frames(rs) + FrameBytes(r)) == rs + [r]
    ensures Frames(rs + [r]) == Frames(rs) + FrameBytes(r)
  {
    FramesAppend(rs, [r]);
    assert [r][1..] == [];
    assert Frames([r]) == FrameBytes(r);
    ScanFramesThenTail(rs + [r], []);
    assert Frames(rs + [r]) + [] == Frames(rs + [r]);
  }

  // ----- Frame boundaries -----

  lemma SizeSnoc(rs: seq<AuditRecord>, k: nat)
    requires k < |rs|
    ensures Size(rs[..k + 1]) == Size(rs[..k]) + FrameLen(rs[k])
  {
    FramesAppend(rs[..k], [rs[k]]);
    assert rs[..k] + [rs[k]] == rs[..k + 1];
    assert [rs[k]][1..] == [];
  }

  lemma {:induction false} SizeMonotone(rs: seq<AuditRecord>, j: nat, k: nat)
    requires j <= k <= |rs|
    ensures Size(rs[..j]) + 4 * (k - j) <= Size(rs[..k])
  {
    hide Frames, FrameBytes;
    if j < k {
      SizeMonotone(rs, j, k - 1);
      SizeSnoc(rs, k - 1);
    }
  }

  lemma WholeFramesAtLeast(rs: seq<AuditRecord>, k: nat, cut: nat)
    requires k <= |rs| && Size(rs[..k]) <= cut
    ensures k <= WholeFrames(rs, cut)
  {
    WholeFramesIsMaximal(rs, cut);
    if WholeFrames(rs, cut) < k {
      SizeMonotone(rs, WholeFrames(rs, cut) + 1, k);
    }
  }

  // ----- The codec and the scan as loops -----

  /** Header keys are Rust strings. */
  predicate TextKeys(headers: seq<Header>) { forall i :: 0 <= i < |headers| ==> Valid(headers[i].key) }

  /** `encode_record`'s header loop: an error at the first length that does not fit. */
  method EncodeHeaders(headers: seq<Header>) returns (b: Option<seq<u8>>)
    requires TextKeys(headers)
    ensures b == if HeadersFit(headers) then Some(HeadersBytes(headers)) else None
  {
    hide HeadersBytes, PutBytes;
    var out := [];
    NoHeaders();
    assert headers[..0] == [];
    for i := 0 to |headers|
      invariant out == HeadersBytes(headers[..i]) && HeadersFit(headers[..i])
    {
      if |headers[i].key| > U32_MAX || |headers[i].value| > U32_MAX {
        return None;
      }
      HeadersSnoc(headers, i);
      out := out + PutBytes(headers[i].key);
      out := out + PutBytes(headers[i].value);
    }
    assert headers[..|headers|] == headers;
    return Some(out);
  }

  lemma NoHeaders()
    ensures HeadersBytes([]) == []
  {
  }

  /** `encode_frame`: an error exactly when the record, a field, or the header count does not fit `u32`. */
  method EncodeFrame(r: AuditRecord) returns (frame: Option<seq<u8>>)
    requires TextKeys(r.headers)
    ensures frame == if Encodable(r) then Some(FrameBytes(r)) else None
  {
    hide HeadersFit, HeadersBytes, U32Bytes, Tag;
    if |r.value| > U32_MAX || |r.headers| > U32_MAX {
      return None;
    }
    var headers := EncodeHeaders(r.headers);
    if headers == None {
      return None;
    }
    var body := [Tag(r.class_)] + PutBytes(r.value) + U32Bytes(|r.headers|) + headers.value;
    if |body| > U32_MAX {
      return None;
    }
    return Some(U32Bytes(|body|) + body);
  }

  lemma {:induction false} HeadersAppend(a: seq<Header>, h: Header)
    ensures HeadersBytes(a + [h]) == HeadersBytes(a) + HeaderBytes(h)
  {
    if a == [] {
      assert a + [h] == [h] && [h][1..] == [];
    } else {
      assert (a + [h])[1..] == a[1..] + [h];
      HeadersAppend(a[1..], h);
    }
  }

  lemma HeadersSnoc(hs: seq<Header>, i: nat)
    requires i < |hs|
    ensures HeadersBytes(hs[..i + 1]) == HeadersBytes(hs[..i]) + PutBytes(hs[i].key) + PutBytes(hs[i].value)
  {
    assert hs[..i + 1] == hs[..i] + [hs[i]];
    HeadersAppend(hs[..i], hs[i]);
    Reassociate(HeadersBytes(hs[..i]), PutBytes(hs[i].key), PutBytes(hs[i].value));
  }

  /** `decode_record`'s header loop. */
  method DecodeHeaders(bytes: seq<u8>, count: nat) returns (r: Option<seq<Header>>)
    ensures r == TakeHeaders(bytes, count)
  {
    var headers, b := [], bytes;
    PrependNothing(TakeHeaders(bytes, count));
    for i := 0 to count
      invariant TakeHeaders(bytes, count) == Prepend(headers, TakeHeaders(b, count - i))
    {
      var h := TakeHeader(b);
      if h == None { return None; }
      PrependSnoc(headers, h.value.0, TakeHeaders(h.value.1, count - i - 1));
      headers, b := headers + [h.value.0], h.value.1;
    }
    assert headers + [] == headers;
    return Some(headers);
  }

  /** `decode_record`. */
  method DecodeRecord(bytes: seq<u8>) returns (r: Option<AuditRecord>)
    ensures r == RecordOf(bytes)
  {
    if bytes == [] { return None; }
    var class_ := FromTag(bytes[0]);
    if class_ == None { return None; }
    var value := TakeBytes(bytes[1..]);
    if value == None { return None; }
    var count := TakeU32(value.value.1);
    if count == None { return None; }
    var headers := DecodeHeaders(count.value.1, count.value.0);
    if headers == None { return None; }
    return Some(AuditRecord(class_.value, value.value.0, headers.value));
  }

  function Prepend(hs: seq<Header>, rest: Option<seq<Header>>): Option<seq<Header>> {
    match rest case None => None case Some(more) => Some(hs + more)
  }

  lemma PrependNothing(rest: Option<seq<Header>>)
    ensures Prepend([], rest) == rest
  {
    if rest.Some? { assert [] + rest.value == rest.value; }
  }

  lemma PrependSnoc(hs: seq<Header>, h: Header, rest: Option<seq<Header>>)
    ensures Prepend(hs + [h], rest) == Prepend(hs, Prepend([h], rest))
  {
    if rest.Some? { assert hs + [h] + rest.value == hs + ([h] + rest.value); }
  }

  lemma FrameOfPrefix(b: seq<u8>, r: AuditRecord, n: nat, m: nat)
    requires FrameOf(b) == Some((r, n)) && n <= m <= |b|
    ensures FrameOf(b[..m]) == Some((r, n))
  {
    assert b[..m][..4] == b[..4];
    assert b[..m][4..][..n - 4] == b[4..][..n - 4];
  }

  lemma {:induction false} SumCons(n: nat, lens: seq<nat>)
    ensures Sum([n] + lens) == n + Sum(lens)
    decreases |lens|
  {
    if lens == [] {
      assert [n] + lens == [n] && [n][..0] == [];
    } else {
      SumCons(n, lens[..|lens| - 1]);
      assert ([n] + lens)[..|lens|] == [n] + lens[..|lens| - 1];
    }
  }

  /** Whatever the bytes, cutting them where the scan stopped changes nothing the scan finds. */
  lemma {:induction false} HealingIsIdempotent(b: seq<u8>)
    ensures Sum(ScanLengths(b)) <= |b|
    ensures ScanRecords(b[..Sum(ScanLengths(b))]) == ScanRecords(b)
    ensures ScanLengths(b[..Sum(ScanLengths(b))]) == ScanLengths(b)
    decreases |b|
  {
    hide FrameOf, ScanRecords, ScanLengths, Sum;
    match FrameOf(b)
    case None =>
      ScanNothing(b);
      NothingLeft();
      FrameAt([]);
      ScanNothing([]);
    case Some((r, n)) =>
      HealingIsIdempotent(b[n..]);
      ScanStep(b, r, n, b[n..]);
      var valid := Sum(ScanLengths(b[n..]));
      SumCons(n, ScanLengths(b[n..]));
      FrameOfPrefix(b, r, n, n + valid);
      assert b[..n + valid][n..] == b[n..][..valid];
      ScanStep(b[..n + valid], r, n, b[n..][..valid]);
  }

  lemma NothingLeft()
    ensures Sum([]) == 0
  {
  }

  lemma FrameAt(b: seq<u8>)
    ensures |b| < 4 ==> FrameOf(b) == None
    ensures |b| >= 4 && U32Of(b[..4]) > |b| - 4 ==> FrameOf(b) == None
    ensures |b| >= 4 && U32Of(b[..4]) <= |b| - 4 ==>
      var len := U32Of(b[..4]);
      FrameOf(b) == match RecordOf(b[4..][..len]) case None => None case Some(r) => Some((r, 4 + len))
  {
  }

  /** `Spool::scan`, after the file header. */
  method Scan(bytes: seq<u8>) returns (records: seq<AuditRecord>, lens: seq<nat>, validBytes: nat)
    ensures records == ScanRecords(bytes) && lens == ScanLengths(bytes)
    ensures validBytes == Sum(lens) <= |bytes|
  {
    hide FrameOf, RecordOf, ScanRecords, ScanLengths, U32Of;
    records, lens, validBytes := [], [], 0;
    var cur := bytes;
    FrameAt(cur);
    while |cur| >= 4
      invariant validBytes <= |bytes| && cur == bytes[validBytes..]
      invariant records + ScanRecords(cur) == ScanRecords(bytes)
      invariant lens + ScanLengths(cur) == ScanLengths(bytes)
      invariant validBytes == Sum(lens)
      invariant |cur| < 4 ==> FrameOf(cur) == None
      decreases |cur|
    {
      FrameAt(cur);
      var len, rest := U32Of(cur[..4]), cur[4..];
      if len > |rest| { break; }
      var record := DecodeRecord(rest[..len]);
      if record == None { break; }
      var next := cur[4 + len..];
      ScanStep(cur, record.value, 4 + len, next);
      Extend(records, record.value, ScanRecords(next));
      Extend(lens, 4 + len, ScanLengths(next));
      assert (lens + [4 + len])[..|lens|] == lens;
      records, lens, validBytes := records + [record.value], lens + [4 + len], validBytes + (4 + len);
      cur := next;
      FrameAt(cur);
    }
    ScanNothing(cur);
  }

  lemma Extend<T>(front: seq<T>, x: T, rest: seq<T>)
    ensures front + [x] + rest == front + ([x] + rest)
  {
  }

  // ----- The layout, byte for byte -----

  /** The class tags on disk, and that reading a tag inverts writing it. */
  lemma TagCodes(t: u8, c: EventClass)
    ensures [Tag(Authentication), Tag(Authorization), Tag(ApiActivity), Tag(ApplicationLifecycle), Tag(Checkpoint), Tag(RecordsLost)]
         == [0, 1, 2, 3, 4, 5]
    ensures FromTag(t) == Some(c) <==> Tag(c) == t
  {
  }

  lemma PutLayout(b: seq<u8>)
    requires |b| <= U32_MAX
    ensures |PutBytes(b)| == 4 + |b| && BigEndian(PutBytes(b)[..4]) == |b| && PutBytes(b)[4..] == b
  {
    hide U32Bytes, BigEndian;
    Spelled32(|b|);
    assert PutBytes(b)[..4] == U32Bytes(|b|);
  }

  /** A frame: its length; then the class tag; the value after its length; the header count; the headers.
      Every number takes four bytes, most significant first. */
  lemma FrameLayout(r: AuditRecord)
    requires Encodable(r)
    ensures var (f, n) := (FrameBytes(r), |r.value|);
      && |f| == 13 + n + |HeadersBytes(r.headers)| && BigEndian(f[..4]) == |f| - 4
      && f[4] == Tag(r.class_)
      && BigEndian(f[5..9]) == n && f[9..9 + n] == r.value
      && BigEndian(f[9 + n..13 + n]) == |r.headers| && f[13 + n..] == HeadersBytes(r.headers)
  {
    hide U32Bytes, BigEndian, HeadersBytes, PutBytes;
    var (body, n) := (RecordBytes(r), |r.value|);
    PutLayout(body);
    PutLayout(r.value);
    Spelled32(|r.headers|);
    RecordParts(Tag(r.class_), PutBytes(r.value), U32Bytes(|r.headers|), HeadersBytes(r.headers));
    Shifted(FrameBytes(r), body, 4);
    assert body[1..5] == PutBytes(r.value)[..4] && body[5..5 + n] == PutBytes(r.value)[4..];
    assert FrameBytes(r)[5..9] == body[1..5] && FrameBytes(r)[9..9 + n] == body[5..5 + n];
    assert FrameBytes(r)[9 + n..13 + n] == body[5 + n..9 + n] && FrameBytes(r)[13 + n..] == body[9 + n..];
  }

  lemma RecordParts(tag: u8, value: seq<u8>, count: seq<u8>, headers: seq<u8>)
    ensures var b := [tag] + value + count + headers; var (i, j) := (1 + |value|, 1 + |value| + |count|);
      |b| == j + |headers| && b[0] == tag && b[1..i] == value && b[i..j] == count && b[j..] == headers
  {
  }

  lemma Shifted(f: seq<u8>, body: seq<u8>, k: nat)
    requires k <= |f| && f[k..] == body
    ensures forall i, j :: 0 <= i <= j <= |body| ==> f[k + i..k + j] == body[i..j]
  {
    forall i, j | 0 <= i <= j <= |body| ensures f[k + i..k + j] == body[i..j] {
      assert f[k..][i..j] == f[k + i..k + j];
    }
  }

  lemma {:induction false} HeadersSplit(a: seq<Header>, b: seq<Header>)
    ensures HeadersBytes(a + b) == HeadersBytes(a) + HeadersBytes(b)
  {
    hide HeaderBytes;
    if a == [] {
      assert a + b == b;
    } else {
      assert (a + b)[1..] == a[1..] + b;
      HeadersSplit(a[1..], b);
    }
  }

  /** Each header: the key after its length, then the value after its length, in order. */
  lemma HeadersLayout(hs: seq<Header>, i: nat)
    requires HeadersFit(hs) && i < |hs|
    ensures HeadersBytes(hs) == HeadersBytes(hs[..i]) + PutBytes(hs[i].key) + PutBytes(hs[i].value) + HeadersBytes(hs[i + 1..])
    ensures BigEndian(PutBytes(hs[i].key)[..4]) == |hs[i].key| && PutBytes(hs[i].key)[4..] == hs[i].key
    ensures BigEndian(PutBytes(hs[i].value)[..4]) == |hs[i].value| && PutBytes(hs[i].value)[4..] == hs[i].value
  {
    hide PutBytes, Valid;
    assert hs == hs[..i] + hs[i..] && hs[i..] == [hs[i]] + hs[i + 1..];
    HeadersSplit(hs[..i], hs[i..]);
    assert hs[i..][1..] == hs[i + 1..];
    PutLayout(hs[i].key);
    PutLayout(hs[i].value);
    var (a, k, v, c) := (HeadersBytes(hs[..i]), PutBytes(hs[i].key), PutBytes(hs[i].value), HeadersBytes(hs[i + 1..]));
    assert a + (k + v + c) == a + k + v + c;
  }

  // ----- Exactly what decodes -----

  lemma TakenU32(b: seq<u8>)
    requires TakeU32(b).Some?
    ensures var (n, rest) := TakeU32(b).value; n <= U32_MAX && b == U32Bytes(n) + rest
  {
    hide U32Bytes, U32Of;
    U32FromBytes(b[..4]);
    assert b == b[..4] + b[4..];
  }

  lemma TakenBytes(b: seq<u8>)
    requires TakeBytes(b).Some?
    ensures var (v, rest) := TakeBytes(b).value; |v| <= U32_MAX && b == PutBytes(v) + rest
  {
    hide U32Bytes, TakeU32;
    TakenU32(b);
    var (len, rest) := TakeU32(b).value;
    assert rest == rest[..len] + rest[len..];
    Reassociate(U32Bytes(len), rest[..len], rest[len..]);
  }

  lemma TakenHeader(b: seq<u8>)
    requires TakeHeader(b).Some?
    ensures var (h, rest) := TakeHeader(b).value; HeaderFits(h) && b == HeaderBytes(h) + rest
  {
    hide TakeBytes, PutBytes, Valid;
    TakenBytes(b);
    var (k, rest) := TakeBytes(b).value;
    TakenBytes(rest);
    var (v, rest') := TakeBytes(rest).value;
    Reassociate(PutBytes(k), PutBytes(v), rest');
  }

  lemma {:induction false} TakenHeaders(b: seq<u8>, n: nat)
    requires TakeHeaders(b, n).Some?
    ensures var hs := TakeHeaders(b, n).value; HeadersFit(hs) && |hs| == n && StartsWith(b, HeadersBytes(hs))
    decreases n
  {
    hide TakeHeader, HeaderBytes, HeaderFits;
    if n > 0 {
      TakenHeader(b);
      var (h, rest) := TakeHeader(b).value;
      TakenHeaders(rest, n - 1);
      var hs := TakeHeaders(rest, n - 1).value;
      assert ([h] + hs)[1..] == hs;
      PrefixUnder(HeaderBytes(h), rest, HeadersBytes(hs));
    }
  }

  lemma PrefixUnder(a: seq<u8>, b: seq<u8>, prefix: seq<u8>)
    ensures StartsWith(a + b, a + prefix) <==> StartsWith(b, prefix)
  {
    if |prefix| <= |b| {
      assert (a + b)[..|a + prefix|] == a + b[..|prefix|];
      assert (a + b[..|prefix|])[|a|..] == b[..|prefix|] && (a + prefix)[|a|..] == prefix;
    }
  }

  /** A body decodes to a record exactly when it starts with the record's own bytes; what follows them is
      ignored. */
  lemma RecordOfIff(b: seq<u8>, r: AuditRecord)
    ensures RecordOf(b) == Some(r) <==> FieldsFit(r) && StartsWith(b, RecordBytes(r))
  {
    hide TakeBytes, TakeU32, TakeHeaders, HeadersBytes, PutBytes, U32Bytes, HeadersFit, RecordOf;
    if RecordOf(b) == Some(r) {
      DecodedParts(b, r);
    } else if FieldsFit(r) && StartsWith(b, RecordBytes(r)) {
      EncodedParts(b, r);
    }
  }

  lemma DecodedParts(b: seq<u8>, r: AuditRecord)
    requires RecordOf(b) == Some(r)
    ensures FieldsFit(r) && StartsWith(b, RecordBytes(r))
  {
    hide TakeBytes, TakeU32, TakeHeaders, HeadersBytes, PutBytes, U32Bytes, HeadersFit;
    TakenBytes(b[1..]);
    var (value, rest) := TakeBytes(b[1..]).value;
    TakenU32(rest);
    var (n, rest') := TakeU32(rest).value;
    TakenHeaders(rest', n);
    var (t, v, c, hb) := ([Tag(r.class_)], PutBytes(r.value), U32Bytes(n), HeadersBytes(r.headers));
    assert b == t + b[1..];
    PrefixUnder(c, rest', hb);
    PrefixUnder(v, rest, c + hb);
    PrefixUnder(t, b[1..], v + (c + hb));
    assert t + (v + (c + hb)) == RecordBytes(r);
  }

  lemma EncodedParts(b: seq<u8>, r: AuditRecord)
    requires FieldsFit(r) && StartsWith(b, RecordBytes(r))
    ensures RecordOf(b) == Some(r)
  {
    hide RecordOf, TakeBytes, TakeU32, TakeHeaders, HeadersBytes, PutBytes, U32Bytes, HeaderFits;
    var extra := b[|RecordBytes(r)|..];
    var (nb, hb) := (U32Bytes(|r.headers|), HeadersBytes(r.headers) + extra);
    TakePutBytes(r.value, nb + hb);
    TakePutU32(|r.headers|, hb);
    TakeHeadersBytes(r.headers, extra);
    assert b == RecordBytes(r) + extra == [Tag(r.class_)] + PutBytes(r.value) + nb + hb;
    RecordOfParts(b, r.class_, PutBytes(r.value), r.value, nb, |r.headers|, hb, r.headers);
  }

  /** A frame is found exactly where a length, most significant byte first, is followed by that many bytes
      that start with a record's own. */
  lemma FrameOfIff(b: seq<u8>, r: AuditRecord, n: nat)
    ensures FrameOf(b) == Some((r, n)) <==>
      4 <= n <= |b| && BigEndian(b[..4]) == n - 4 && FieldsFit(r) && StartsWith(b[4..n], RecordBytes(r))
  {
    hide RecordOf, RecordBytes, U32Of, BigEndian, FieldsFit;
    if |b| >= 4 {
      Reads32(b[..4]);
      var rest := b[4..];
      var len := U32Of(b[..4]);
      if len <= |rest| {
        assert rest[..len] == b[4..4 + len];
        RecordOfIff(rest[..len], r);
      }
    }
  }

  /** On any bytes the scan finds the frames one after another, each where the last one ends, and stops only
      where there is none. */
  lemma {:induction false} ScanIsTheFrames(b: seq<u8>, i: nat)
    requires i <= |ScanRecords(b)|
    ensures var at := Sum(ScanLengths(b)[..i]);
      && at <= |b|
      && FrameOf(b[at..]) == if i < |ScanRecords(b)| then Some((ScanRecords(b)[i], ScanLengths(b)[i])) else None
    decreases i
  {
    hide FrameOf, Sum;
    NoLengths();
    assert ScanLengths(b)[..0] == [] && b[0..] == b;
    if i > 0 {
      var (r, n) := FrameOf(b).value;
      var rest := b[n..];
      ScanStep(b, r, n, rest);
      ScanIsTheFrames(rest, i - 1);
      assert ScanLengths(b)[..i] == [n] + ScanLengths(rest)[..i - 1];
      SumCons(n, ScanLengths(rest)[..i - 1]);
      var at := Sum(ScanLengths(rest)[..i - 1]);
      assert b[n + at..] == rest[at..];
    }
  }

  lemma NoLengths()
    ensures Sum([]) == 0
  {
  }
}
