/** Recovering the chain position from the records still in the spool. */
module ChainResume {
  import opened Bytes
  import opened Numerals
  import opened AuditCodec
  import opened Chain
  import opened SpoolFiles

  // ----- Hexadecimal heads -----

  function ToHex(b: seq<u8>): (s: seq<u8>)
    ensures |s| == 2 * |b|
  {
    if b == [] then [] else ToHex(b[..|b| - 1]) + [DigitByte(b[|b| - 1] / 16), DigitByte(b[|b| - 1] % 16)]
  }

  /** The value of a hex digit of either case, or 16. */
  function Nibble(c: u8): (v: nat)
    ensures v <= 16
  {
    if 65 <= c <= 70 then c - 55 else DigitValue(c)
  }

  function FromHex(s: seq<u8>): (b: Option<seq<u8>>)
    ensures b.Some? ==> |s| == 2 * |b.value|
  {
    if s == [] then Some([])
    else if |s| < 2 || Nibble(s[|s| - 2]) == 16 || Nibble(s[|s| - 1]) == 16 then None
    else match FromHex(s[..|s| - 2])
         case None => None
         case Some(front) => Some(front + [Nibble(s[|s| - 2]) * 16 + Nibble(s[|s| - 1])])
  }

  /** `from_hex32`. */
  function FromHex32(s: seq<u8>): Option<Digest> {
    match FromHex(s)
    case None => None
    case Some(b) => if |b| == 32 then Some(b) else None
  }

  lemma NibbleOfDigit(d: nat)
    requires d < 16
    ensures Nibble(DigitByte(d)) == d
  {
  }

  lemma {:induction false} HexRoundTrip(b: seq<u8>)
    ensures FromHex(ToHex(b)) == Some(b)
  {
    if b != [] {
      var (front, last: int) := (b[..|b| - 1], b[|b| - 1]);
      HexRoundTrip(front);
      NibbleOfDigit(last / 16);
      NibbleOfDigit(last % 16);
      assert ToHex(b)[..|ToHex(b)| - 2] == ToHex(front);
      assert last / 16 * 16 + last % 16 == last;
      assert front + [b[|b| - 1]] == b;
    }
  }

  // ----- Chain headers -----

  const HEADER_SEQ := Ascii("seq")
  const HEADER_PREV_HASH := Ascii("prev_hash")

  /** `push_chain_headers`. */
  function ChainHeaders(link: ChainLink): seq<Header> {
    [Header(HEADER_SEQ, Digits(link.seq_, 10)), Header(HEADER_PREV_HASH, ToHex(link.prevHead))]
  }

  /** The value of the first header named `key`. */
  function FindHeader(hs: seq<Header>, key: seq<u8>): Option<seq<u8>> {
    if hs == [] then None else if hs[0].key == key then Some(hs[0].value) else FindHeader(hs[1..], key)
  }

  /** `chain_headers`: the link a record carries, if both headers are there and parse. */
  function LinkOf(hs: seq<Header>): Option<ChainLink> {
    match (FindHeader(hs, HEADER_SEQ), FindHeader(hs, HEADER_PREV_HASH))
    case (Some(s), Some(p)) =>
      if ParseU64(s).Some? && FromHex32(p).Some? then Some(ChainLink(ParseU64(s).value, FromHex32(p).value)) else None
    case _ => None
  }

  /** Header `i` is the first named `key`, and holds `value`. */
  predicate First(hs: seq<Header>, key: seq<u8>, i: int, value: seq<u8>) {
    0 <= i < |hs| && hs[i] == Header(key, value) && forall k :: 0 <= k < i ==> hs[k].key != key
  }

  /** The digits of `s`, of either case, spell the bytes `b`, two a byte. */
  predicate Spells(s: seq<u8>, b: seq<u8>) {
    && |s| == 2 * |b|
    && forall i :: 0 <= i < |b| ==> IsHex(s[2 * i], b[i] / 16) && IsHex(s[2 * i + 1], b[i] % 16)
  }

  predicate IsHex(c: u8, d: nat) { d < 16 && (c == Ascii("0123456789abcdef")[d] || c == Ascii("0123456789ABCDEF")[d]) }

  lemma UpperText(d: nat)
    requires d < 16
    ensures Ascii("0123456789ABCDEF")[d] == if d < 10 then 48 + d else 55 + d
  {
  }

  lemma NibbleIff(c: u8, d: nat)
    requires d < 16
    ensures Nibble(c) == d <==> IsHex(c, d)
  {
    hide Ascii;
    DigitText(d);
    UpperText(d);
  }

  lemma {:induction false} FromHexIff(s: seq<u8>, b: seq<u8>)
    ensures FromHex(s) == Some(b) <==> Spells(s, b)
  {
    hide IsHex, Nibble;
    if s == [] || b == [] {
      if FromHex(s) == Some(b) || Spells(s, b) {
        assert s == [] && b == [];
      }
    } else if |s| == 2 * |b| {
      var (n, m) := (|s|, |b|);
      var (t, c) := (s[..n - 2], b[..m - 1]);
      FromHexIff(t, c);
      LastByte(s, b);
      SpellsSnoc(s, b);
    }
  }

  lemma LastByte(s: seq<u8>, b: seq<u8>)
    requires b != [] && |s| == 2 * |b|
    ensures FromHex(s) == Some(b) <==>
      && FromHex(s[..|s| - 2]) == Some(b[..|b| - 1])
      && IsHex(s[|s| - 2], b[|b| - 1] / 16) && IsHex(s[|s| - 1], b[|b| - 1] % 16)
  {
    hide IsHex, Nibble;
    var (x, y, last: int) := (s[|s| - 2], s[|s| - 1], b[|b| - 1]);
    NibbleIff(x, last / 16);
    NibbleIff(y, last % 16);
    assert b == b[..|b| - 1] + [b[|b| - 1]];
    assert last == last / 16 * 16 + last % 16;
  }

  lemma SpellsSnoc(s: seq<u8>, b: seq<u8>)
    requires b != [] && |s| == 2 * |b|
    ensures Spells(s, b) <==>
      && Spells(s[..|s| - 2], b[..|b| - 1])
      && IsHex(s[|s| - 2], b[|b| - 1] / 16) && IsHex(s[|s| - 1], b[|b| - 1] % 16)
  {
    hide IsHex;
    var (t, c, m) := (s[..|s| - 2], b[..|b| - 1], |b| - 1);
    assert forall i :: 0 <= i < m ==> t[2 * i] == s[2 * i] && t[2 * i + 1] == s[2 * i + 1] && c[i] == b[i];
  }

  lemma {:induction false} FindIsFirst(hs: seq<Header>, key: seq<u8>, value: seq<u8>)
    ensures FindHeader(hs, key) == Some(value) <==> exists i :: First(hs, key, i, value)
  {
    if hs != [] && hs[0].key != key {
      var rest := hs[1..];
      FindIsFirst(rest, key, value);
      if i :| First(rest, key, i, value) {
        assert First(hs, key, i + 1, value);
      }
      if i :| First(hs, key, i, value) {
        assert First(rest, key, i - 1, value);
      }
    } else if hs != [] {
      assert hs[0].value == value ==> First(hs, key, 0, value);
    }
  }

  /** The first header named `key` holds `value`. */
  ghost predicate Carries(hs: seq<Header>, key: seq<u8>, value: seq<u8>) { exists i :: First(hs, key, i, value) }

  /** The link a record carries: the first `seq` header read as a decimal `u64`, and the first `prev_hash`
      header read as 64 hex digits of either case. */
  lemma LinkIff(hs: seq<Header>, link: ChainLink)
    ensures LinkOf(hs) == Some(link) <==>
      exists s, p ::
        && Carries(hs, Ascii("seq"), s) && ParseU64(s) == Some(link.seq_)
        && Carries(hs, Ascii("prev_hash"), p) && Spells(p, link.prevHead)
  {
    hide FindHeader, FromHex, Spells, First, ParseU64;
    if LinkOf(hs) == Some(link) {
      var (s, p) := (FindHeader(hs, HEADER_SEQ).value, FindHeader(hs, HEADER_PREV_HASH).value);
      FindIsFirst(hs, HEADER_SEQ, s);
      FindIsFirst(hs, HEADER_PREV_HASH, p);
      FromHexIff(p, link.prevHead);
      assert Carries(hs, HEADER_SEQ, s) && Carries(hs, HEADER_PREV_HASH, p);
    }
    if s, p :| Carries(hs, Ascii("seq"), s) && ParseU64(s) == Some(link.seq_)
               && Carries(hs, Ascii("prev_hash"), p) && Spells(p, link.prevHead) {
      FindIsFirst(hs, HEADER_SEQ, s);
      FindIsFirst(hs, HEADER_PREV_HASH, p);
      FromHexIff(p, link.prevHead);
      assert FindHeader(hs, HEADER_SEQ) == Some(s) && FindHeader(hs, HEADER_PREV_HASH) == Some(p);
    }
  }

  predicate NoChainKeys(hs: seq<Header>) {
    forall i :: 0 <= i < |hs| ==> hs[i].key != HEADER_SEQ && hs[i].key != HEADER_PREV_HASH
  }

  lemma {:induction false} FindAfter(base: seq<Header>, more: seq<Header>, key: seq<u8>)
    requires forall i :: 0 <= i < |base| ==> base[i].key != key
    ensures FindHeader(base + more, key) == FindHeader(more, key)
  {
    if base == [] {
      assert base + more == more;
    } else {
      assert (base + more)[1..] == base[1..] + more;
      FindAfter(base[1..], more, key);
    }
  }

  lemma FindStamped(link: ChainLink)
    ensures FindHeader(ChainHeaders(link), HEADER_SEQ) == Some(Digits(link.seq_, 10))
    ensures FindHeader(ChainHeaders(link), HEADER_PREV_HASH) == Some(ToHex(link.prevHead))
  {
    var hs := ChainHeaders(link);
    assert |HEADER_SEQ| != |HEADER_PREV_HASH|;
    assert hs[1..] == [hs[1]];
  }

  /** What is stamped: the number in decimal, and the head as lower-case hex digits, two a byte. */
  lemma StampText(link: ChainLink, i: nat)
    requires i < 32
    ensures var hex := ToHex(link.prevHead);
      && ChainHeaders(link) == [Header(Ascii("seq"), Digits(link.seq_, 10)), Header(Ascii("prev_hash"), hex)]
      && hex[2 * i] == Ascii("0123456789abcdef")[link.prevHead[i] / 16]
      && hex[2 * i + 1] == Ascii("0123456789abcdef")[link.prevHead[i] % 16]
  {
    HexDigits(link.prevHead, i);
    DigitText(link.prevHead[i] / 16);
    DigitText(link.prevHead[i] % 16);
  }

  lemma {:induction false} HexDigits(b: seq<u8>, i: nat)
    requires i < |b|
    ensures ToHex(b)[2 * i] == DigitByte(b[i] / 16) && ToHex(b)[2 * i + 1] == DigitByte(b[i] % 16)
  {
    if i < |b| - 1 {
      HexDigits(b[..|b| - 1], i);
    }
  }

  /** The headers the writer stamps read back as the link it stamped. */
  lemma StampRoundTrip(base: seq<Header>, link: ChainLink)
    requires NoChainKeys(base) && link.seq_ <= U64_MAX
    ensures LinkOf(base + ChainHeaders(link)) == Some(link)
  {
    hide ChainHeaders, Digits, ToHex, FromHex, ParseU64, FindHeader;
    FindAfter(base, ChainHeaders(link), HEADER_SEQ);
    FindAfter(base, ChainHeaders(link), HEADER_PREV_HASH);
    FindStamped(link);
    ParseOfDigits(link.seq_);
    HexRoundTrip(link.prevHead);
  }

  // ----- The walk -----

  datatype ChainStep = SequenceMismatch | HeadMismatch | Exhausted | Continue(next: nat)

  /** `chain_step`. */
  function StepChain(expected: nat, actual: nat, headMatches: bool): ChainStep {
    if actual != expected then SequenceMismatch
    else if !headMatches then HeadMismatch
    else if expected == U64_MAX then Exhausted
    else Continue(expected + 1)
  }

  /** Where the chain stands: the link the next record is stamped with. */
  type Position = ChainLink

  function PositionAfter(h: Hash, link: ChainLink, value: seq<u8>): Position {
    ChainLink(link.seq_ + 1, h(Message(link.prevHead, link.seq_, value)))
  }

  /** One record of `resume_from_records`. */
  function ResumeStep(h: Hash, at: Option<Position>, r: AuditRecord): Result<Option<Position>> {
    if r.class_ == Checkpoint then Ok(at)
    else match LinkOf(r.headers)
         case None => Err(Poisoned)
         case Some(link) =>
           if at == None then
             if link.seq_ + 1 < U64_MAX then Ok(Some(PositionAfter(h, link, r.value))) else Err(Poisoned)
           else if StepChain(at.value.seq_, link.seq_, link.prevHead == at.value.prevHead).Continue? then
             Ok(Some(PositionAfter(h, link, r.value)))
           else Err(Poisoned)
  }

  function ResumeOf(h: Hash, records: seq<AuditRecord>): Result<Option<Position>> {
    if records == [] then Ok(None)
    else match ResumeOf(h, records[..|records| - 1])
         case Err(e) => Err(e)
         case Ok(at) => ResumeStep(h, at, records[|records| - 1])
  }

  // ----- Exactly the unbroken chains -----

  /** The records the chain runs through: all but the checkpoints. */
  function Chained(records: seq<AuditRecord>): seq<AuditRecord> {
    if records == [] then []
    else
      var (front, r) := (Chained(records[..|records| - 1]), records[|records| - 1]);
      if r.class_ == Checkpoint then front else front + [r]
  }

  /** Every record carries a link, each link is the number after the one before it and the hash of the
      record before it, and no number is the last there is. */
  predicate Unbroken(h: Hash, rs: seq<AuditRecord>) {
    && (forall i :: 0 <= i < |rs| ==> LinkOf(rs[i].headers).Some?)
    && (rs != [] ==> LinkOf(rs[0].headers).value.seq_ + 1 < U64_MAX)
    && (forall i :: 1 <= i < |rs| ==> Follows(h, LinkOf(rs[i - 1].headers).value, rs[i - 1].value, LinkOf(rs[i].headers).value))
  }

  predicate Follows(h: Hash, before: ChainLink, value: seq<u8>, next: ChainLink) {
    && next.seq_ == before.seq_ + 1 && next.seq_ < U64_MAX
    && next.prevHead == h(before.prevHead + U64Bytes(before.seq_) + value)
  }

  lemma UnbrokenSnoc(h: Hash, rs: seq<AuditRecord>, r: AuditRecord)
    ensures Unbroken(h, rs + [r]) <==>
      && Unbroken(h, rs) && LinkOf(r.headers).Some?
      && (if rs == [] then LinkOf(r.headers).value.seq_ + 1 < U64_MAX
          else Follows(h, LinkOf(rs[|rs| - 1].headers).value, rs[|rs| - 1].value, LinkOf(r.headers).value))
  {
    hide LinkOf, Follows;
    var all := rs + [r];
    assert forall i :: 0 <= i < |rs| ==> all[i] == rs[i];
    assert all[|rs|] == r;
    if Unbroken(h, all) {
      assert forall i :: 0 <= i < |rs| ==> LinkOf(all[i].headers).Some?;
      forall i | 1 <= i < |rs| ensures Follows(h, LinkOf(rs[i - 1].headers).value, rs[i - 1].value, LinkOf(rs[i].headers).value) {
        assert Follows(h, LinkOf(all[i - 1].headers).value, all[i - 1].value, LinkOf(all[i].headers).value);
      }
    }
  }

  lemma StepFollows(h: Hash, before: ChainLink, value: seq<u8>, r: AuditRecord)
    requires r.class_ != Checkpoint && before.seq_ < U64_MAX
    ensures ResumeStep(h, Some(PositionAfter(h, before, value)), r).Ok?
       <==> LinkOf(r.headers).Some? && Follows(h, before, value, LinkOf(r.headers).value)
  {
    hide LinkOf, U64Bytes;
  }

  lemma LastNumber(h: Hash, rs: seq<AuditRecord>)
    requires Unbroken(h, rs) && rs != []
    ensures LinkOf(rs[|rs| - 1].headers).value.seq_ < U64_MAX
  {
    hide LinkOf;
    if |rs| > 1 {
      assert Follows(h, LinkOf(rs[|rs| - 2].headers).value, rs[|rs| - 2].value, LinkOf(rs[|rs| - 1].headers).value);
    }
  }

  /** The walk accepts exactly the unbroken chains, and then stands after their last record. */
  lemma {:induction false} ResumesIffUnbroken(h: Hash, records: seq<AuditRecord>)
    ensures ResumeOf(h, records).Ok? <==> Unbroken(h, Chained(records))
    ensures ResumeOf(h, records).Ok? && Chained(records) == [] ==> ResumeOf(h, records) == Ok(None)
    ensures ResumeOf(h, records).Ok? && Chained(records) != [] ==>
      var r := Chained(records)[|Chained(records)| - 1];
      LinkOf(r.headers).Some? && ResumeOf(h, records) == Ok(Some(PositionAfter(h, LinkOf(r.headers).value, r.value)))
  {
    hide LinkOf, U64Bytes;
    if records != [] {
      var (front, r) := (records[..|records| - 1], records[|records| - 1]);
      ResumesIffUnbroken(h, front);
      if r.class_ != Checkpoint {
        var rs := Chained(front);
        UnbrokenSnoc(h, rs, r);
        if Unbroken(h, rs) && rs != [] {
          LastNumber(h, rs);
          StepFollows(h, LinkOf(rs[|rs| - 1].headers).value, rs[|rs| - 1].value, r);
        }
      }
    }
  }

  lemma {:induction false} ResumeErrs(h: Hash, records: seq<AuditRecord>, i: nat)
    requires i <= |records| && ResumeOf(h, records[..i]).Err?
    ensures ResumeOf(h, records) == ResumeOf(h, records[..i])
  {
    if i == |records| {
      assert records[..i] == records;
    } else {
      assert records[..|records| - 1][..i] == records[..i];
      ResumeErrs(h, records[..|records| - 1], i);
    }
  }

  /** `resume_from_records`. */
  method ResumeFromRecords(h: Hash, records: seq<AuditRecord>) returns (r: Result<Option<Position>>)
    ensures r == ResumeOf(h, records)
    ensures if Unbroken(h, Chained(records)) then r.Ok? else r == Err(Poisoned)
  {
    hide LinkOf, PositionAfter, Unbroken, Chained;
    ResumesIffUnbroken(h, records);
    var resume: Option<Position> := None;
    for i := 0 to |records|
      invariant ResumeOf(h, records[..i]) == Ok(resume)
    {
      var record := records[i];
      assert records[..i + 1][..i] == records[..i];
      if record.class_ != Checkpoint {
        var link := LinkOf(record.headers);
        if link == None {
          ResumeErrs(h, records, i + 1);
          return Err(Poisoned);
        }
        if resume == None {
          if link.value.seq_ + 1 >= U64_MAX {
            ResumeErrs(h, records, i + 1);
            return Err(Poisoned);
          }
        } else if !StepChain(resume.value.seq_, link.value.seq_, link.value.prevHead == resume.value.prevHead).Continue? {
          ResumeErrs(h, records, i + 1);
          return Err(Poisoned);
        }
        resume := Some(PositionAfter(h, link.value, record.value));
      }
    }
    assert records[..|records|] == records;
    return Ok(resume);
  }

  // ----- Against the writer -----

  /** The position of a writer that started at `at` and wrote `records`: each is a checkpoint, or is
      stamped with the position before it; `None` if they are not such records. */
  function WriterAt(h: Hash, at: Position, records: seq<AuditRecord>): Option<Position> {
    if records == [] then Some(at)
    else match WriterAt(h, at, records[..|records| - 1])
         case None => None
         case Some(p) =>
           var r := records[|records| - 1];
           if r.class_ == Checkpoint then Some(p)
           else if Stamped(r, p) then Some(PositionAfter(h, p, r.value)) else None
  }

  predicate Stamped(r: AuditRecord, link: ChainLink) {
    |r.headers| >= 2 && NoChainKeys(r.headers[..|r.headers| - 2]) && r.headers[|r.headers| - 2..] == ChainHeaders(link)
  }

  predicate AnyChained(records: seq<AuditRecord>) { exists i :: 0 <= i < |records| && records[i].class_ != Checkpoint }

  lemma {:induction false} WriterAdvances(h: Hash, at: Position, records: seq<AuditRecord>)
    requires WriterAt(h, at, records).Some?
    ensures at.seq_ <= WriterAt(h, at, records).value.seq_
    ensures !AnyChained(records) ==> WriterAt(h, at, records) == Some(at)
    ensures AnyChained(records) ==> at.seq_ < WriterAt(h, at, records).value.seq_
  {
    if records != [] {
      var front := records[..|records| - 1];
      WriterAdvances(h, at, front);
      ChainedSnoc(records);
    }
  }

  lemma ChainedSnoc(records: seq<AuditRecord>)
    requires records != []
    ensures AnyChained(records) <==> AnyChained(records[..|records| - 1]) || records[|records| - 1].class_ != Checkpoint
  {
    var front := records[..|records| - 1];
    if AnyChained(front) {
      var i :| 0 <= i < |front| && front[i].class_ != Checkpoint;
      assert records[i].class_ != Checkpoint;
    }
    if AnyChained(records) && records[|records| - 1].class_ == Checkpoint {
      var i :| 0 <= i < |records| && records[i].class_ != Checkpoint;
      assert front[i].class_ != Checkpoint;
    }
  }

  lemma ResumeStamped(h: Hash, p: Position, r: AuditRecord, at: Option<Position>)
    requires r.class_ != Checkpoint && Stamped(r, p) && (at == None || at == Some(p)) && p.seq_ + 1 < U64_MAX
    ensures ResumeStep(h, at, r) == Ok(Some(PositionAfter(h, p, r.value)))
  {
    hide LinkOf, ChainHeaders, NoChainKeys, PositionAfter;
    var base := r.headers[..|r.headers| - 2];
    assert base + ChainHeaders(p) == r.headers;
    StampRoundTrip(base, p);
  }

  /** Whatever the writer spooled, recovery finds the position the writer stood at, as long as sequence
      numbers are left. */
  lemma {:induction false} ResumeFindsTheWriter(h: Hash, at: Position, records: seq<AuditRecord>)
    requires WriterAt(h, at, records).Some? && WriterAt(h, at, records).value.seq_ < U64_MAX
    ensures ResumeOf(h, records) == Ok(if AnyChained(records) then WriterAt(h, at, records) else None)
  {
    hide Stamped, PositionAfter, AnyChained, ResumeStep;
    if records != [] {
      var (front, r) := (records[..|records| - 1], records[|records| - 1]);
      WriterAdvances(h, at, front);
      WriterAdvances(h, at, records);
      ChainedSnoc(records);
      SeqAfter(h, WriterAt(h, at, front).value, r.value);
      ResumeFindsTheWriter(h, at, front);
      var p := WriterAt(h, at, front).value;
      if r.class_ == Checkpoint {
        SkipCheckpoint(h, if AnyChained(front) then Some(p) else None, r);
      } else {
        ResumeStamped(h, p, r, if AnyChained(front) then Some(p) else None);
      }
    } else {
      NoneChained();
    }
  }

  lemma SeqAfter(h: Hash, p: Position, value: seq<u8>)
    ensures PositionAfter(h, p, value).seq_ == p.seq_ + 1
  {
  }

  lemma SkipCheckpoint(h: Hash, at: Option<Position>, r: AuditRecord)
    requires r.class_ == Checkpoint
    ensures ResumeStep(h, at, r) == Ok(at)
  {
  }

  lemma NoneChained()
    ensures !AnyChained([])
  {
  }

  /** Dropping records from the front, as replay does, moves the start and nothing else. */
  lemma {:induction false} WriterFrom(h: Hash, at: Position, records: seq<AuditRecord>, i: nat)
    requires i <= |records| && WriterAt(h, at, records).Some?
    ensures WriterAt(h, at, records[..i]).Some?
    ensures WriterAt(h, WriterAt(h, at, records[..i]).value, records[i..]) == WriterAt(h, at, records)
    decreases |records|
  {
    hide Stamped, PositionAfter;
    if i == |records| {
      assert records[..i] == records && records[i..] == [];
    } else {
      var front := records[..|records| - 1];
      WriterFrom(h, at, front, i);
      assert front[..i] == records[..i];
      assert records[i..][..|records| - i - 1] == front[i..];
    }
  }

  /** After any drain and any crash, what is left in the spool is a stretch of what the writer spooled;
      recovery from it continues the chain exactly after its last record. */
  lemma ResumeFromAnyStretch(h: Hash, at: Position, records: seq<AuditRecord>, i: nat, j: nat)
    requires i <= j <= |records| && WriterAt(h, at, records).Some? && WriterAt(h, at, records).value.seq_ < U64_MAX
    ensures WriterAt(h, at, records[..j]).Some?
    ensures ResumeOf(h, records[i..j]) == Ok(if AnyChained(records[i..j]) then WriterAt(h, at, records[..j]) else None)
  {
    hide WriterAt, ResumeOf, AnyChained;
    WriterFrom(h, at, records, j);
    WriterAdvances(h, WriterAt(h, at, records[..j]).value, records[j..]);
    WriterFrom(h, at, records[..j], i);
    assert records[..j][i..] == records[i..j];
    ResumeFindsTheWriter(h, WriterAt(h, at, records[..j][..i]).value, records[i..j]);
  }
}
