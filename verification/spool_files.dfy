/** The files of a spool directory as bytes: the version header, the three sidecars, the replay
    cursor's check against the frames, and which bytes stand for which protocol state. */
module SpoolFiles {
  import opened Bytes
  import opened Numerals
  import opened AuditCodec
  import opened LossLedger
  import opened LossMarker
  import opened SpoolProtocol
  import opened SpoolSafety

  datatype FileName = SpoolFile | LossStateFile | ReplayOffsetFile | ReplayPoisonFile

  datatype AuditError =
    | Io
    | Unavailable
    | Indeterminate
    | Poisoned
    | UnsupportedSpoolFormat(file: FileName, found: Option<int>)

  datatype Result<+T> = Ok(value: T) | Err(error: AuditError)

  // ----- The version header -----

  const HEADER_LEN := 6
  const FILE_MAGIC := Ascii("KAUD")

  /** The magic, then the format version, 0, as a big-endian `i16`. */
  function FileHeader(): (h: seq<u8>)
    ensures |h| == HEADER_LEN
  {
    FILE_MAGIC + [0, 0]
  }

  function I16Of(hi: u8, lo: u8): int {
    var (h: int, n: int) := (hi, lo);
    if h < 128 then h * 256 + n else h * 256 + n - 65536
  }

  function StripFileHeader(file: FileName, bytes: seq<u8>): Result<seq<u8>> {
    if |bytes| < HEADER_LEN || bytes[..4] != FILE_MAGIC then Err(UnsupportedSpoolFormat(file, None))
    else if I16Of(bytes[4], bytes[5]) != 0 then Err(UnsupportedSpoolFormat(file, Some(I16Of(bytes[4], bytes[5]))))
    else Ok(bytes[HEADER_LEN..])
  }

  function WithHeader(body: seq<u8>): seq<u8> { FileHeader() + body }

  /** A file opens exactly when it starts with the current header, and then yields what follows it. */
  lemma HeaderRoundTrip(file: FileName, bytes: seq<u8>)
    ensures StripFileHeader(file, bytes).Ok? <==> HEADER_LEN <= |bytes| && bytes == WithHeader(bytes[HEADER_LEN..])
    ensures StripFileHeader(file, bytes).Ok? ==> bytes == WithHeader(StripFileHeader(file, bytes).value)
  {
    if HEADER_LEN <= |bytes| {
      assert bytes == bytes[..HEADER_LEN] + bytes[HEADER_LEN..];
      if StripFileHeader(file, bytes).Ok? {
        assert bytes[..HEADER_LEN] == FILE_MAGIC + [0, 0];
      }
    }
  }

  /** What the header check makes of any bytes: no header is a file of an earlier release, and a header of
      another version is reported with that version, a big-endian `i16` in two's complement. */
  lemma HeaderVerdict(file: FileName, bytes: seq<u8>)
    ensures StripFileHeader(file, bytes) ==
      if |bytes| < 6 || bytes[..4] != Ascii("KAUD") then Err(UnsupportedSpoolFormat(file, None))
      else
        var version := bytes[4] as int * 256 + bytes[5] - (if bytes[4] < 128 then 0 else 65536);
        if version == 0 then Ok(bytes[6..]) else Err(UnsupportedSpoolFormat(file, Some(version)))
  {
  }

  lemma StripHeader(file: FileName, body: seq<u8>)
    ensures StripFileHeader(file, WithHeader(body)) == Ok(body)
  {
    assert WithHeader(body)[HEADER_LEN..] == body;
    HeaderRoundTrip(file, WithHeader(body));
  }

  // ----- Sidecars -----

  function LossFile(l: Losses): seq<u8> { WithHeader(U64Bytes(l.generation) + U64Bytes(l.count)) }

  /** `PendingLosses::open` of an existing file. */
  function ReadLosses(bytes: seq<u8>): Result<Losses> {
    match StripFileHeader(LossStateFile, bytes)
    case Err(e) => Err(e)
    case Ok(body) => if |body| != 16 then Err(Io) else Ok(Losses(U64Of(body[..8]), U64Of(body[8..])))
  }

  function OffsetFile(offset: nat): seq<u8> { WithHeader(U64Bytes(offset)) }

  /** `read_or_create_u64` of an existing file. */
  function ReadOffset(bytes: seq<u8>): Result<nat> {
    match StripFileHeader(ReplayOffsetFile, bytes)
    case Err(e) => Err(e)
    case Ok(body) => if |body| != 8 then Err(Io) else Ok(U64Of(body))
  }

  function PoisonFile(at: nat, r: AuditRecord): seq<u8> { WithHeader(U64Bytes(at) + FrameBytes(r)) }

  datatype Recovery = ClearIt | RequireExplicitRecovery

  function ReplayRecovery(validFrame: bool, at: Option<nat>, replayOffset: nat): Recovery {
    if validFrame && at.Some? && at.value < replayOffset then ClearIt else RequireExplicitRecovery
  }

  /** What `reconcile_replay_poison` makes of a poison file: clear it, or the error `open` returns. */
  function PoisonVerdict(bytes: seq<u8>, replayOffset: nat): Option<AuditError> {
    match StripFileHeader(ReplayPoisonFile, bytes)
    case Err(e) => Some(e)
    case Ok(b) =>
      var at := if |b| < 8 then None else Some(U64Of(b[..8]));
      var validFrame := |b| >= 12 && U32Of(b[8..12]) + 12 == |b|;
      if ReplayRecovery(validFrame, at, replayOffset) == ClearIt then None else Some(Poisoned)
  }

  lemma LossFileRoundTrip(l: Losses)
    requires InRange(l)
    ensures ReadLosses(LossFile(l)) == Ok(l)
  {
    var body := U64Bytes(l.generation) + U64Bytes(l.count);
    StripHeader(LossStateFile, body);
    assert body[..8] == U64Bytes(l.generation) && body[8..] == U64Bytes(l.count);
    U64RoundTrip(l.generation);
    U64RoundTrip(l.count);
  }

  lemma OffsetFileRoundTrip(offset: nat)
    requires offset <= U64_MAX
    ensures ReadOffset(OffsetFile(offset)) == Ok(offset)
  {
    StripHeader(ReplayOffsetFile, U64Bytes(offset));
    U64RoundTrip(offset);
  }

  /** The three sidecars, byte for byte: the header, then numbers of eight bytes, most significant first. The
      losses are the generation and then the count, the poison the cursor and then the record's frame. */
  lemma SidecarLayouts(l: Losses, offset: nat, r: AuditRecord)
    requires InRange(l) && offset <= U64_MAX
    ensures var b := LossFile(l);
      |b| == 22 && b[..6] == Ascii("KAUD") + [0, 0] && BigEndian(b[6..14]) == l.generation && BigEndian(b[14..22]) == l.count
    ensures var b := OffsetFile(offset); |b| == 14 && b[..6] == Ascii("KAUD") + [0, 0] && BigEndian(b[6..14]) == offset
    ensures var b := PoisonFile(offset, r);
      |b| == 14 + FrameLen(r) && b[..6] == Ascii("KAUD") + [0, 0] && BigEndian(b[6..14]) == offset && b[14..] == FrameBytes(r)
  {
    hide U64Bytes, BigEndian, FrameBytes;
    Spelled64(l.generation);
    Spelled64(l.count);
    Spelled64(offset);
    assert LossFile(l)[6..14] == U64Bytes(l.generation) && LossFile(l)[14..22] == U64Bytes(l.count);
    assert OffsetFile(offset)[6..14] == U64Bytes(offset);
    assert PoisonFile(offset, r)[6..14] == U64Bytes(offset) && PoisonFile(offset, r)[14..] == FrameBytes(r);
  }

  /** A poison file the spool wrote is cleared exactly when the cursor has passed it. */
  lemma PoisonFileVerdict(at: nat, r: AuditRecord, replayOffset: nat)
    requires at <= U64_MAX && Encodable(r)
    ensures PoisonVerdict(PoisonFile(at, r), replayOffset) == (if at < replayOffset then None else Some(Poisoned))
  {
    var frame := FrameBytes(r);
    var b := U64Bytes(at) + frame;
    StripHeader(ReplayPoisonFile, b);
    U64RoundTrip(at);
    U32RoundTrip(|RecordBytes(r)|);
    assert b[..8] == U64Bytes(at);
    assert b[8..12] == frame[..4] == U32Bytes(|RecordBytes(r)|);
  }

  /** A loss sidecar reads as `l` exactly when it is the one written for `l`; any other is refused. */
  lemma LossFileIff(bytes: seq<u8>, l: Losses)
    ensures ReadLosses(bytes) == Ok(l) <==> InRange(l) && bytes == LossFile(l)
  {
    hide U64Bytes, U64Of, StripFileHeader;
    if InRange(l) && bytes == LossFile(l) {
      LossFileRoundTrip(l);
    }
    if ReadLosses(bytes) == Ok(l) {
      HeaderRoundTrip(LossStateFile, bytes);
      var body := StripFileHeader(LossStateFile, bytes).value;
      U64FromBytes(body[..8]);
      U64FromBytes(body[8..]);
      assert body == body[..8] + body[8..];
    }
  }

  /** Likewise the cursor. */
  lemma OffsetFileIff(bytes: seq<u8>, offset: nat)
    ensures ReadOffset(bytes) == Ok(offset) <==> offset <= U64_MAX && bytes == OffsetFile(offset)
  {
    hide U64Bytes, U64Of, StripFileHeader;
    if offset <= U64_MAX && bytes == OffsetFile(offset) {
      OffsetFileRoundTrip(offset);
    }
    if ReadOffset(bytes) == Ok(offset) {
      HeaderRoundTrip(ReplayOffsetFile, bytes);
      U64FromBytes(StripFileHeader(ReplayOffsetFile, bytes).value);
    }
  }

  /** What becomes of any poison file behind its header: it is cleared exactly if the frame it names fills the
      rest of the file and the cursor has passed it. */
  lemma PoisonVerdictIff(b: seq<u8>, replayOffset: nat)
    ensures PoisonVerdict(WithHeader(b), replayOffset)
         == if |b| >= 12 && BigEndian(b[8..12]) == |b| - 12 && BigEndian(b[..8]) < replayOffset then None else Some(Poisoned)
  {
    hide U64Of, U32Of, BigEndian, StripFileHeader, WithHeader;
    StripHeader(ReplayPoisonFile, b);
    if |b| >= 8 {
      Reads64(b[..8]);
    }
    if |b| >= 12 {
      Reads32(b[8..12]);
    }
  }

  // ----- The cursor against the frames -----

  /** `unread_record_count` over the frame lengths of a scan: the frames from the cursor on, if the
      cursor is a frame boundary or the spool is empty. */
  function UnreadCount(lens: seq<nat>, offset: nat): Result<nat> {
    if offset > Sum(lens) && Sum(lens) == 0 then Ok(0)
    else match BoundaryIndex(lens, offset)
         case Some(k) => Ok(|lens| - k)
         case None => Err(Io)
  }

  /** The number of frames before byte `offset`, if a frame boundary lies there. */
  function BoundaryIndex(lens: seq<nat>, offset: nat): (k: Option<nat>)
    ensures k.Some? ==> k.value <= |lens| && Sum(lens[..k.value]) == offset
  {
    if offset == Sum(lens) then assert lens[..|lens|] == lens; Some(|lens|)
    else if lens == [] then None
    else
      var k := BoundaryIndex(lens[..|lens| - 1], offset);
      assert k.Some? ==> lens[..|lens| - 1][..k.value] == lens[..k.value];
      k
  }

  lemma {:induction false} SumPrefix(lens: seq<nat>, j: nat, k: nat)
    requires j <= k <= |lens| && forall i :: 0 <= i < |lens| ==> lens[i] >= 4
    ensures Sum(lens[..j]) + 4 * (k - j) <= Sum(lens[..k])
  {
    if j < k {
      SumPrefix(lens, j, k - 1);
      assert lens[..k][..k - 1] == lens[..k - 1];
    }
  }

  /** Frames are never empty, so a boundary belongs to exactly one index. */
  lemma {:induction false} BoundaryIsUnique(lens: seq<nat>, k: nat)
    requires k <= |lens| && forall i :: 0 <= i < |lens| ==> lens[i] >= 4
    ensures BoundaryIndex(lens, Sum(lens[..k])) == Some(k)
  {
    SumPrefix(lens, k, |lens|);
    assert lens[..|lens|] == lens;
    if k < |lens| {
      BoundaryIsUnique(lens[..|lens| - 1], k);
      assert lens[..|lens| - 1][..k] == lens[..k];
    }
  }

  /** The cursor check succeeds with `n` exactly when `n` frames follow a boundary at the cursor, or
      nothing does in an empty spool. */
  lemma UnreadCountIff(lens: seq<nat>, offset: nat, n: nat)
    requires forall i :: 0 <= i < |lens| ==> lens[i] >= 4
    ensures UnreadCount(lens, offset) == Ok(n) <==>
            || (n <= |lens| && Sum(lens[..|lens| - n]) == offset)
            || (lens == [] && offset > 0 && n == 0)
  {
    SumPrefix(lens, 0, |lens|);
    assert lens[..|lens|] == lens && lens[..0] == [];
    if n <= |lens| && Sum(lens[..|lens| - n]) == offset {
      BoundaryIsUnique(lens, |lens| - n);
    }
  }

  /** `Spool::unread_record_count`. */
  method UnreadRecordCount(lens: seq<nat>, validBytes: nat, replayOffset: nat) returns (r: Result<nat>)
    requires validBytes == Sum(lens) && forall i :: 0 <= i < |lens| ==> lens[i] >= 4
    ensures r == UnreadCount(lens, replayOffset)
  {
    if replayOffset > validBytes {
      if validBytes == 0 { return Ok(0); }
      PastTheEnd(lens, replayOffset);
      return Err(Io);
    }
    var offset, unread := 0, 0;
    var atBoundary := replayOffset == 0;
    ghost var start := 0;
    for i := 0 to |lens|
      invariant offset == Sum(lens[..i])
      invariant atBoundary ==> start <= i && Sum(lens[..start]) == replayOffset && unread == i - start
      invariant !atBoundary ==> unread == 0 && forall k :: 0 <= k < i ==> Sum(lens[..k]) != replayOffset
    {
      if offset == replayOffset {
        if atBoundary { SumPrefix(lens, start, i); } else { start := i; }
        atBoundary := true;
      }
      if atBoundary { unread := unread + 1; }
      assert lens[..i + 1][..i] == lens[..i];
      offset := offset + lens[i];
    }
    assert lens[..|lens|] == lens;
    if offset == replayOffset {
      if atBoundary { SumPrefix(lens, start, |lens|); } else { start := |lens|; }
      atBoundary := true;
    }
    if !atBoundary {
      return Err(Io);
    }
    BoundaryIsUnique(lens, start);
    return Ok(unread);
  }

  lemma PastTheEnd(lens: seq<nat>, offset: nat)
    requires offset > Sum(lens) && forall i :: 0 <= i < |lens| ==> lens[i] >= 4
    ensures BoundaryIndex(lens, offset) == None
  {
    assert lens[..|lens|] == lens;
    if BoundaryIndex(lens, offset).Some? {
      SumPrefix(lens, BoundaryIndex(lens, offset).value, |lens|);
    }
  }

  /** The cursor check on what a crash left: it fails exactly if frames survived, but not all that the
      cursor had passed. */
  lemma CursorCheckAfterCrash(es: seq<Entry>, keep: nat, read: nat)
    requires AllGenuine(es) && keep <= |es| && read <= |es|
    ensures UnreadCount(Lengths(Records(es[..keep])), TotalLen(es[..read]))
         == (if 0 < keep < read then Err(Io) else Ok(if read <= keep then keep - read else 0))
  {
    hide BoundaryIndex, Records, Genuine;
    var kept := es[..keep];
    if read <= keep {
      assert kept[..read] == es[..read];
      UnreadOfFile(kept, read, TotalLen(es[..read]));
    } else {
      LengthsAddUp(kept);
      GenuineIsFramed(es);
      FramesAddUp(es, keep, read);
      FramesAddUp(es, 0, keep);
      PastTheEnd(Lengths(Records(kept)), TotalLen(es[..read]));
    }
  }

  lemma GenuineIsFramed(es: seq<Entry>)
    requires AllGenuine(es)
    ensures Framed(es)
  {
  }

  lemma LengthsAddUp(es: seq<Entry>)
    requires AllGenuine(es)
    ensures Sum(Lengths(Records(es))) == TotalLen(es)
  {
    var rs := Records(es);
    SumOfLengths(rs, |rs|);
    assert Lengths(rs)[..|rs|] == Lengths(rs) && rs[..|rs|] == rs;
    BodySize(es);
  }

  // ----- Which bytes stand for which protocol state -----

  function EntryOf(r: AuditRecord): Entry { Entry(r, FrameLen(r), LossMarkerBatch(r)) }

  predicate Genuine(e: Entry) { Encodable(e.record) && e == EntryOf(e.record) }

  predicate AllGenuine(es: seq<Entry>) { forall i :: 0 <= i < |es| ==> Genuine(es[i]) }

  function Records(es: seq<Entry>): (rs: seq<AuditRecord>)
    ensures |rs| == |es|
  {
    seq(|es|, i requires 0 <= i < |es| => es[i].record)
  }

  function Body(es: seq<Entry>): seq<u8> { Frames(Records(es)) }

  predicate LossRep(bytes: Option<seq<u8>>, sidecar: Losses) {
    bytes == Some(LossFile(sidecar)) || (bytes == None && sidecar == Losses(0, 0))
  }

  predicate OffsetRep(bytes: Option<seq<u8>>, offset: nat) {
    bytes == Some(OffsetFile(offset)) || (bytes == None && offset == 0)
  }

  predicate PoisonRep(bytes: Option<seq<u8>>, poison: Option<Poison>) {
    match poison
    case None => bytes == None
    case Some(p) => Genuine(p.entry) && bytes == Some(PoisonFile(p.at, p.entry.record))
  }

  /** The spool file holds the frames, then, after a crash, a torn one. */
  predicate FileRep(bytes: Option<seq<u8>>, torn: seq<u8>, es: seq<Entry>) {
    && AllGenuine(es) && FrameOf(torn) == None
    && (if bytes == None then es == [] && torn == [] else bytes.value == WithHeader(Body(es) + torn))
  }

  lemma RecordsAppend(a: seq<Entry>, b: seq<Entry>)
    ensures Records(a + b) == Records(a) + Records(b)
    ensures Body(a + b) == Body(a) + Body(b)
  {
    hide Frames, FrameBytes;
    assert Records(a + b) == Records(a) + Records(b);
    FramesAppend(Records(a), Records(b));
  }

  lemma BodySnoc(es: seq<Entry>, r: AuditRecord)
    ensures Body(es + [EntryOf(r)]) == Body(es) + FrameBytes(r)
  {
    RecordsAppend(es, [EntryOf(r)]);
    assert Records([EntryOf(r)]) == [r] && [r][1..] == [];
    assert Frames([r]) == FrameBytes(r);
  }

  lemma {:induction false} BodySize(es: seq<Entry>)
    requires AllGenuine(es)
    ensures |Body(es)| == TotalLen(es)
  {
    if es != [] {
      var front, last := es[..|es| - 1], es[|es| - 1];
      BodySize(front);
      BodySnoc(front, last.record);
      assert front + [EntryOf(last.record)] == es;
    }
  }

  lemma GenuineRecords(es: seq<Entry>)
    requires AllGenuine(es)
    ensures AllEncodable(Records(es))
  {
  }

  /** Scanning the file recovers exactly the protocol's entries, torn tail or not. */
  lemma ScanOfFile(es: seq<Entry>, torn: seq<u8>)
    requires AllGenuine(es) && FrameOf(torn) == None
    ensures ScanRecords(Body(es) + torn) == Records(es)
    ensures ScanLengths(Body(es) + torn) == Lengths(Records(es))
    ensures Sum(ScanLengths(Body(es) + torn)) == TotalLen(es)
  {
    GenuineRecords(es);
    ScanFramesThenTail(Records(es), torn);
    ScanOfFrames(Records(es), torn);
    BodySize(es);
  }

  /** The cursor of a recovered file is found again: the unread count is the unread frames. */
  lemma UnreadOfFile(es: seq<Entry>, read: nat, offset: nat)
    requires AllGenuine(es) && read <= |es|
    requires offset == TotalLen(es[..read]) || (es == [] && offset > 0)
    ensures UnreadCount(Lengths(Records(es)), offset) == Ok(|es| - read)
  {
    hide UnreadCount, Genuine, Sum;
    var lens := Lengths(Records(es));
    if offset == TotalLen(es[..read]) {
      LengthsAddUp(es[..read]);
      assert lens[..read] == Lengths(Records(es[..read]));
      UnreadCountIff(lens, offset, |es| - read);
    } else {
      UnreadCountIff(lens, offset, 0);
    }
  }

  /** Cutting the file at any byte past its durable part is a crash of the protocol that keeps the
      whole frames before the cut, with the rest torn. */
  lemma CutOfFile(es: seq<Entry>, synced: nat, cut: nat) returns (keep: nat, torn: seq<u8>)
    requires AllGenuine(es) && synced <= |es| && TotalLen(es[..synced]) <= cut <= |Body(es)|
    ensures synced <= keep <= |es| && keep == WholeFrames(Records(es), cut)
    ensures Body(es)[..cut] == Body(es[..keep]) + torn && FrameOf(torn) == None
  {
    var rs := Records(es);
    GenuineRecords(es);
    keep := WholeFrames(rs, cut);
    torn := CutFrames(rs, cut);
    assert rs[..keep] == Records(es[..keep]);
    KeepsSynced(es, synced, cut);
  }

  lemma KeepsSynced(es: seq<Entry>, synced: nat, cut: nat)
    requires AllGenuine(es) && synced <= |es| && TotalLen(es[..synced]) <= cut
    ensures synced <= WholeFrames(Records(es), cut)
  {
    BodySize(es[..synced]);
    assert Records(es)[..synced] == Records(es[..synced]);
    WholeFramesAtLeast(Records(es), synced, cut);
  }
}
