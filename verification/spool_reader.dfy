/** Reading the spool file, whatever bytes it holds. */
module SpoolReader {
  import opened Bytes
  import opened AuditCodec
  import opened SpoolProtocol
  import opened SpoolFiles

  // ----- The full scan -----

  /** What the scan of a spool file finds. */
  datatype Scanned = Scanned(records: seq<AuditRecord>, lens: seq<nat>, validBytes: nat)

  function ScanOf(body: seq<u8>): Scanned { Scanned(ScanRecords(body), ScanLengths(body), Sum(ScanLengths(body))) }

  function ScanFile(bytes: seq<u8>): Result<Scanned> {
    match StripFileHeader(SpoolFile, bytes)
    case Err(e) => Err(e)
    case Ok(body) => Ok(ScanOf(body))
  }

  /** `scan`. */
  method ScanSpool(bytes: seq<u8>) returns (r: Result<Scanned>)
    ensures r == ScanFile(bytes)
    ensures r.Ok? ==> r.value.validBytes == Sum(r.value.lens) <= |bytes| - HEADER_LEN
    ensures r.Ok? ==> |r.value.lens| == |r.value.records| && forall i :: 0 <= i < |r.value.lens| ==> r.value.lens[i] >= 4
  {
    hide ScanRecords, ScanLengths, Sum, I16Of;
    var body := StripFileHeader(SpoolFile, bytes);
    if body.Err? {
      return Err(body.error);
    }
    var records, lens, validBytes := Scan(body.value);
    return Ok(Scanned(records, lens, validBytes));
  }

  /** The unread records of a spool file with its cursor at `offset`. */
  function UnreadRecords(bytes: seq<u8>, offset: nat): Result<seq<AuditRecord>> {
    match ScanFile(bytes)
    case Err(e) => Err(e)
    case Ok(s) =>
      match UnreadCount(s.lens, offset)
      case Err(e) => Err(e)
      case Ok(n) => Ok(s.records[|s.records| - n..])
  }

  /** `read_all`. */
  method ReadFrom(bytes: seq<u8>, offset: nat) returns (r: Result<seq<AuditRecord>>)
    ensures r == UnreadRecords(bytes, offset)
  {
    hide ScanRecords, ScanLengths, Sum, StripFileHeader, BoundaryIndex;
    var scanned := ScanSpool(bytes);
    if scanned.Err? {
      return Err(scanned.error);
    }
    var unread := UnreadRecordCount(scanned.value.lens, scanned.value.validBytes, offset);
    if unread.Err? {
      return Err(unread.error);
    }
    return Ok(scanned.value.records[|scanned.value.records| - unread.value..]);
  }

  lemma ScanOfSpool(spool: seq<u8>, torn: seq<u8>, es: seq<Entry>)
    requires FileRep(Some(spool), torn, es)
    ensures ScanFile(spool) == Ok(Scanned(Records(es), Lengths(Records(es)), TotalLen(es)))
  {
    hide Body, Genuine, ScanRecords, ScanLengths, Sum, StripFileHeader, Records, TotalLen;
    StripHeader(SpoolFile, Body(es) + torn);
    ScanOfFile(es, torn);
  }

  /** On a file the spool wrote, the full scan and the cursor find exactly the frames from the cursor on. */
  lemma UnreadOfSpool(spool: seq<u8>, torn: seq<u8>, l: Log)
    requires FileRep(Some(spool), torn, l.file) && l.read <= |l.file| && l.offset == TotalLen(l.file[..l.read])
    ensures UnreadRecords(spool, l.offset) == Ok(Records(l.file[l.read..]))
  {
    hide Body, ScanFile, TotalLen, UnreadCount, Genuine;
    ScanOfSpool(spool, torn, l.file);
    UnreadOfFile(l.file, l.read, l.offset);
    assert Records(l.file[l.read..]) == Records(l.file)[l.read..];
  }

  // ----- The cursor reader -----

  /** At most `n` frames from the front of `cur`: an error unless each is whole and decodes. */
  function ReadFrames(cur: seq<u8>, n: nat): (r: Result<seq<(AuditRecord, nat)>>)
    ensures r.Ok? ==> |r.value| <= n
  {
    if n == 0 || cur == [] then Ok([])
    else match FrameOf(cur)
         case None => Err(Io)
         case Some((record, len)) => Cons((record, len), ReadFrames(cur[len..], n - 1))
  }

  function Cons<T>(x: T, rest: Result<seq<T>>): Result<seq<T>> {
    match rest
    case Err(e) => Err(e)
    case Ok(xs) => Ok([x] + xs)
  }

  function Front<T>(front: seq<T>, rest: Result<seq<T>>): Result<seq<T>> {
    match rest
    case Err(e) => Err(e)
    case Ok(xs) => Ok(front + xs)
  }

  lemma FrontSnoc<T>(front: seq<T>, x: T, rest: Result<seq<T>>)
    ensures Front(front + [x], rest) == Front(front, Cons(x, rest))
  {
    if rest.Ok? {
      assert front + [x] + rest.value == front + ([x] + rest.value);
    }
  }

  const REPLAY_BATCH_RECORDS := 64

  /** The read loop of `read_replay_batch`, from the bytes at the cursor. */
  method ReadBatch(bytes: seq<u8>) returns (r: Result<seq<(AuditRecord, nat)>>)
    ensures r == ReadFrames(bytes, REPLAY_BATCH_RECORDS)
  {
    hide FrameOf, RecordOf, U32Of;
    var records: seq<(AuditRecord, nat)> := [];
    var cur := bytes;
    FrontNothing(ReadFrames(bytes, REPLAY_BATCH_RECORDS));
    while |records| < REPLAY_BATCH_RECORDS
      invariant |records| <= REPLAY_BATCH_RECORDS
      invariant Front(records, ReadFrames(cur, REPLAY_BATCH_RECORDS - |records|)) == ReadFrames(bytes, REPLAY_BATCH_RECORDS)
    {
      if |cur| == 0 { break; }
      FrameAt(cur);
      if |cur| < 4 { return Err(Io); }
      var len := U32Of(cur[..4]);
      if len > |cur| - 4 { return Err(Io); }
      var record := DecodeRecord(cur[4..][..len]);
      if record == None { return Err(Io); }
      FrontSnoc(records, (record.value, 4 + len), ReadFrames(cur[4 + len..], REPLAY_BATCH_RECORDS - |records| - 1));
      records, cur := records + [(record.value, 4 + len)], cur[4 + len..];
    }
    assert records + [] == records;
    return Ok(records);
  }

  lemma FrontNothing<T>(rest: Result<seq<T>>)
    ensures Front([], rest) == rest
  {
    if rest.Ok? {
      assert [] + rest.value == rest.value;
    }
  }

  function Batch(es: seq<Entry>): (b: seq<(AuditRecord, nat)>)
    ensures |b| == |es|
  {
    seq(|es|, i requires 0 <= i < |es| => (es[i].record, es[i].len))
  }

  lemma BodyCons(es: seq<Entry>)
    requires AllGenuine(es) && es != []
    ensures Body(es) == FrameBytes(es[0].record) + Body(es[1..])
  {
    hide FrameBytes;
    assert Records(es)[1..] == Records(es[1..]);
  }

  lemma FirstFrame(es: seq<Entry>)
    requires AllGenuine(es) && es != []
    ensures FrameOf(Body(es)) == Some((es[0].record, es[0].len))
    ensures es[0].len <= |Body(es)| && Body(es)[es[0].len..] == Body(es[1..])
  {
    hide FrameOf, FrameBytes, Body, Encodable;
    BodyCons(es);
    FrameRoundTrip(es[0].record, Body(es[1..]));
    EntryLength(es[0].record);
    DropPrefix(FrameBytes(es[0].record), Body(es[1..]));
  }

  lemma EntryLength(r: AuditRecord)
    ensures EntryOf(r).len == |FrameBytes(r)| == FrameLen(r)
  {
  }

  /** Frames the spool wrote are read back one for one, as many as asked for. */
  lemma {:induction false} ReadFramesOfBody(es: seq<Entry>, n: nat)
    requires AllGenuine(es)
    ensures ReadFrames(Body(es), n) == Ok(Batch(es[..if n < |es| then n else |es|]))
  {
    hide FrameOf, Body, Genuine;
    if es == [] {
      EmptyBody();
    } else if n == 0 {
      assert Batch(es[..0]) == [];
    } else {
      FirstFrame(es);
      ReadFramesOfBody(es[1..], n - 1);
      var k := if n < |es| then n else |es|;
      assert es[..k] == [es[0]] + es[1..][..k - 1];
      assert Batch(es[..k]) == [(es[0].record, es[0].len)] + Batch(es[1..][..k - 1]);
    }
  }

  lemma EmptyBody()
    ensures Body([]) == []
  {
    assert Records([]) == [];
  }

  /** The bytes from the cursor on are the frames from the cursor on. */
  lemma CursorBytes(spool: seq<u8>, l: Log)
    requires FileRep(Some(spool), [], l.file) && l.read <= |l.file| && l.offset == TotalLen(l.file[..l.read])
    ensures HEADER_LEN + l.offset <= |spool| && spool[HEADER_LEN + l.offset..] == Body(l.file[l.read..])
    ensures AllGenuine(l.file[l.read..])
  {
    hide Body, Genuine, TotalLen;
    RecordsAppend(l.file[..l.read], l.file[l.read..]);
    assert l.file[..l.read] + l.file[l.read..] == l.file;
    BodySize(l.file[..l.read]);
    Suffix(Body(l.file[..l.read]), Body(l.file[l.read..]));
  }

  lemma Suffix(a: seq<u8>, b: seq<u8>)
    ensures WithHeader(a + b + [])[HEADER_LEN + |a|..] == b
  {
  }

  /** The cursor reader returns exactly the first records the full scan would, decoding none before. */
  lemma BatchRefinesScan(spool: seq<u8>, l: Log, n: nat)
    requires FileRep(Some(spool), [], l.file) && l.read <= |l.file| && l.offset == TotalLen(l.file[..l.read])
    requires n == if |l.file| - l.read < REPLAY_BATCH_RECORDS then |l.file| - l.read else REPLAY_BATCH_RECORDS
    ensures UnreadRecords(spool, l.offset) == Ok(Records(l.file[l.read..]))
    ensures HEADER_LEN + l.offset <= |spool|
    ensures ReadFrames(spool[HEADER_LEN + l.offset..], REPLAY_BATCH_RECORDS) == Ok(Batch(l.file[l.read..][..n]))
  {
    hide FileRep, Body, TotalLen, UnreadRecords, ReadFrames, Genuine;
    UnreadOfSpool(spool, [], l);
    CursorBytes(spool, l);
    ReadFramesOfBody(l.file[l.read..], REPLAY_BATCH_RECORDS);
  }

  function Pairs(records: seq<AuditRecord>, lens: seq<nat>): (ps: seq<(AuditRecord, nat)>)
    requires |records| == |lens|
    ensures |ps| == |records|
  {
    seq(|records|, i requires 0 <= i < |records| => (records[i], lens[i]))
  }

  /** On any bytes the batch is the front of the full scan, up to `n` records; it is an error exactly when the
      scan stops before `n` records with bytes left over. */
  lemma {:induction false} BatchIsScanPrefix(cur: seq<u8>, n: nat)
    ensures var (rs, ls) := (ScanRecords(cur), ScanLengths(cur)); var m := if |rs| < n then |rs| else n;
      ReadFrames(cur, n) == if |rs| >= n || Sum(ls) == |cur| then Ok(Pairs(rs[..m], ls[..m])) else Err(Io)
    decreases n
  {
    hide FrameOf, Sum;
    NoLengths();
    var (rs, ls) := (ScanRecords(cur), ScanLengths(cur));
    if n == 0 {
      assert Pairs(rs[..0], ls[..0]) == [];
    } else if FrameOf(cur) == None {
      ScanNothing(cur);
      assert Pairs([], []) == [];
    } else {
      var (r, len) := FrameOf(cur).value;
      var rest := cur[len..];
      ScanStep(cur, r, len, rest);
      SumCons(len, ScanLengths(rest));
      BatchIsScanPrefix(rest, n - 1);
      var m := if |rs| < n then |rs| else n;
      assert Pairs(rs[..m], ls[..m]) == [(r, len)] + Pairs(ScanRecords(rest)[..m - 1], ScanLengths(rest)[..m - 1]);
    }
  }
}
