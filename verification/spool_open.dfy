/** `Spool::open`: recovery on whatever bytes the directory holds. On bytes a run left behind it makes
    exactly the protocol's recovery writes, and opens unless a crash lost frames the cursor had passed or a
    poison sits at the cursor. */
module SpoolOpen {
  import opened Bytes
  import opened AuditCodec
  import opened LossLedger
  import opened LossMarker
  import opened SpoolProtocol
  import opened SpoolSafety
  import opened SpoolTheorems
  import opened SpoolFiles
  import opened SpoolStore
  import opened SpoolReader
  import opened AuditSpool

  // ----- The loss sidecar and the cursor -----

  function LossesIn(bytes: Option<seq<u8>>): Result<Losses> {
    match bytes
    case None => Ok(Losses(0, 0))
    case Some(b) => ReadLosses(b)
  }

  function OffsetIn(bytes: Option<seq<u8>>): Result<nat> {
    match bytes
    case None => Ok(0)
    case Some(b) => ReadOffset(b)
  }

  lemma LossesHeld(bytes: Option<seq<u8>>, sidecar: Losses)
    requires LossRep(bytes, sidecar) && InRange(sidecar)
    ensures LossesIn(bytes) == Ok(sidecar) && LossRep(Some(LossFile(sidecar)), sidecar)
  {
    hide LossFile, ReadLosses;
    LossFileRoundTrip(sidecar);
  }

  lemma OffsetHeld(bytes: Option<seq<u8>>, offset: nat)
    requires OffsetRep(bytes, offset) && offset <= U64_MAX
    ensures OffsetIn(bytes) == Ok(offset) && OffsetRep(Some(OffsetFile(offset)), offset)
  {
    hide OffsetFile, ReadOffset;
    OffsetFileRoundTrip(offset);
  }

  /** `PendingLosses::open`. */
  method OpenLosses(dir: Directory) returns (r: Result<Losses>)
    modifies dir`losses
    ensures r == LossesIn(old(dir.losses))
    ensures dir.losses == (if old(dir.losses) == None then Some(LossFile(Losses(0, 0))) else old(dir.losses))
    ensures old(dir.AtRest()) ==> dir.AtRest() && r == Ok(dir.st.ledger.sidecar)
  {
    hide Reachable, FileRep, OffsetRep, PoisonRep, ReadLosses, LossFile;
    if dir.AtRest() {
      ReachableShape(dir.st);
      LossesHeld(dir.losses, dir.st.ledger.sidecar);
    }
    if dir.losses.Some? {
      return ReadLosses(dir.losses.value);
    }
    dir.losses := Some(LossFile(Losses(0, 0)));
    return Ok(Losses(0, 0));
  }

  /** `read_or_create_u64` of the cursor. */
  method OpenOffset(dir: Directory) returns (r: Result<nat>)
    modifies dir`offset
    ensures r == OffsetIn(old(dir.offset))
    ensures dir.offset == (if old(dir.offset) == None then Some(OffsetFile(0)) else old(dir.offset))
    ensures old(dir.AtRest()) ==> dir.AtRest() && r == Ok(dir.st.log.offset)
  {
    hide Reachable, FileRep, LossRep, PoisonRep, ReadOffset, OffsetFile;
    if dir.AtRest() {
      ReachableShape(dir.st);
      OffsetHeld(dir.offset, dir.st.log.offset);
    }
    if dir.offset.Some? {
      return ReadOffset(dir.offset.value);
    }
    dir.offset := Some(OffsetFile(0));
    return Ok(0);
  }

  // ----- The spool file -----

  /** The file `open` works on: created with just its header if there is none. */
  function SpoolIn(bytes: Option<seq<u8>>): seq<u8> { if bytes == None then FileHeader() else bytes.value }

  /** The file after its torn tail is cut off. */
  function Healed(bytes: seq<u8>, s: Scanned): seq<u8>
    requires HEADER_LEN + s.validBytes <= |bytes|
  {
    bytes[..HEADER_LEN + s.validBytes]
  }

  lemma SpoolHeld(bytes: Option<seq<u8>>, torn: seq<u8>, es: seq<Entry>)
    requires FileRep(bytes, torn, es)
    ensures var b := SpoolIn(bytes);
      && ScanFile(b) == Ok(Scanned(Records(es), Lengths(Records(es)), TotalLen(es)))
      && |b| == HEADER_LEN + TotalLen(es) + |torn|
      && FileRep(Some(b[..HEADER_LEN + TotalLen(es)]), [], es)
  {
    hide Body, ScanFile, Genuine, TotalLen, FrameOf, Records;
    var b := SpoolIn(bytes);
    if bytes == None {
      EmptySpool();
      EmptyBody();
      assert WithHeader([] + []) == FileHeader();
    }
    ScanOfSpool(b, torn, es);
    BodySize(es);
    CutBody(Body(es) + torn, HEADER_LEN + TotalLen(es), Body(es), []);
    assert (Body(es) + torn)[..|Body(es)|] == Body(es) + [];
    EmptySpool();
  }

  /** Creating, scanning and healing the spool file. */
  method OpenSpoolFile(dir: Directory) returns (r: Result<(Scanned, bool)>)
    modifies dir`spool, dir`synced, dir`torn
    ensures var b := SpoolIn(old(dir.spool));
      match ScanFile(b)
      case Err(e) => r == Err(e) && dir.spool == Some(b)
      case Ok(s) =>
        && r == Ok((s, HEADER_LEN + s.validBytes < |b|)) && s.validBytes == Sum(s.lens)
        && HEADER_LEN + s.validBytes <= |b| && dir.spool == Some(Healed(b, s))
        && |s.lens| == |s.records| && forall i :: 0 <= i < |s.lens| ==> s.lens[i] >= 4
    ensures old(dir.AtRest()) ==>
      && dir.AtRest() && dir.torn == [] && r.Ok?
      && r.value == (Scanned(Records(dir.st.log.file), Lengths(Records(dir.st.log.file)), TotalLen(dir.st.log.file)), old(dir.torn) != [])
  {
    hide Reachable, FileRep, LossRep, OffsetRep, PoisonRep, ScanFile, Records, TotalLen, FileHeader, Sum, Lengths;
    if dir.AtRest() {
      SpoolHeld(dir.spool, dir.torn, dir.st.log.file);
    }
    if dir.spool == None {
      dir.spool, dir.synced := Some(FileHeader()), |FileHeader()|;
    }
    var scanned := ScanSpool(dir.spool.value);
    if scanned.Err? {
      return Err(scanned.error);
    }
    var valid := HEADER_LEN + scanned.value.validBytes;
    var torn := valid < |dir.spool.value|;
    if torn {
      dir.spool, dir.synced := Some(dir.spool.value[..valid]), valid;
    } else {
      assert dir.spool.value[..valid] == dir.spool.value;
    }
    dir.torn := [];
    return Ok((scanned.value, torn));
  }

  // ----- The poison -----

  function PoisonIn(bytes: Option<seq<u8>>, replayOffset: nat): Option<AuditError> {
    match bytes
    case None => None
    case Some(b) => PoisonVerdict(b, replayOffset)
  }

  lemma PoisonHeld(bytes: Option<seq<u8>>, l: Log)
    requires PoisonRep(bytes, l.poison) && (l.poison.Some? ==> l.poison.value.at <= U64_MAX)
    ensures PoisonIn(bytes, l.offset) == (if l.poison.Some? && l.poison.value.at >= l.offset then Some(Poisoned) else None)
    ensures PoisonRep(None, None) && (l.poison == None <==> bytes == None)
  {
    hide PoisonFile, PoisonVerdict;
    if l.poison.Some? {
      PoisonFileVerdict(l.poison.value.at, l.poison.value.entry.record, l.offset);
    }
  }

  lemma PoisonSteps(s: State)
    requires Recovering(s) && s.log.poison.Some?
    ensures Barred(s.log) ==> NextState(s, Refuse) == Some(s.(phase := Stopped))
    ensures !Barred(s.log) ==> NextState(s, ClearStalePoison) == Some(s.(log := s.log.(poison := None)))
  {
  }

  /** The poison offset is a cursor the run once had. */
  lemma PoisonInRange(s: State)
    requires Reachable(s) && s.phase == Closed
    ensures s.log.poison.Some? ==> s.log.poison.value.at <= U64_MAX
  {
    hide Reachable;
    ReachableShape(s);
  }

  /** `reconcile_replay_poison`. */
  method ReconcilePoison(dir: Directory, replayOffset: nat) returns (r: Option<AuditError>)
    modifies dir`poison, dir`st
    ensures r == PoisonIn(old(dir.poison), replayOffset)
    ensures dir.poison == (if r == None then None else old(dir.poison))
    ensures old(dir.AtRest() && Recovering(dir.st)) && replayOffset == old(dir.st.log.offset) ==>
      if old(Barred(dir.st.log)) then dir.Valid() && r == Some(Poisoned) && dir.st == old(dir.st).(phase := Stopped)
      else dir.AtRest() && r == None && dir.st == old(dir.st).(log := old(dir.st.log).(poison := None))
  {
    hide Reachable, NextState, FileRep, LossRep, OffsetRep, PoisonRep, PoisonVerdict;
    ghost var rest := dir.AtRest() && Recovering(dir.st) && replayOffset == dir.st.log.offset;
    if rest {
      PoisonInRange(dir.st);
      PoisonHeld(dir.poison, dir.st.log);
    }
    if dir.poison == None {
      return None;
    }
    if rest {
      PoisonSteps(dir.st);
      dir.Take(if Barred(dir.st.log) then Refuse else ClearStalePoison);
    }
    r := PoisonVerdict(dir.poison.value, replayOffset);
    if r == None {
      dir.poison := None;
    }
  }

  // ----- The losses -----

  function Entries(records: seq<AuditRecord>): (es: seq<Entry>)
    ensures |es| == |records|
  {
    seq(|records|, i requires 0 <= i < |records| => EntryOf(records[i]))
  }

  lemma EntriesOfRecords(es: seq<Entry>)
    requires AllGenuine(es)
    ensures Entries(Records(es)) == es
  {
    hide EntryOf, Encodable;
  }

  lemma {:induction false} FindFirst(a: seq<Losses>, b: seq<Losses>, generation: nat)
    requires Find(a, generation).Some?
    ensures Find(a + b, generation) == Find(a, generation)
  {
    assert (a + b)[0] == a[0];
    if a[0].generation != generation {
      assert (a + b)[1..] == a[1..] + b;
      FindFirst(a[1..], b, generation);
    }
  }

  lemma MarkersFrom(es: seq<Entry>, i: nat, generation: nat)
    requires i < |es|
    ensures Markers(es[..i + 1]) == Markers(es[..i]) + (if es[i].marker.Some? then [es[i].marker.value] else [])
    ensures Find(Markers(es[..i + 1]), generation).Some? ==> Find(Markers(es), generation) == Find(Markers(es[..i + 1]), generation)
  {
    hide Markers, Find;
    assert es[..i] + [es[i]] == es[..i + 1] && es[..i + 1] + es[i + 1..] == es;
    MarkersSnoc(es[..i], es[i]);
    MarkersAppend(es[..i + 1], es[i + 1..]);
    if Find(Markers(es[..i + 1]), generation).Some? {
      FindFirst(Markers(es[..i + 1]), Markers(es[i + 1..]), generation);
    }
  }

  /** The search of `reconcile`: the first marker of `generation`. */
  method FindMarker(records: seq<AuditRecord>, generation: nat) returns (batch: Option<Losses>)
    ensures batch == Find(Markers(Entries(records)), generation)
  {
    hide LossMarkerBatch, FrameLen, Markers;
    ghost var es := Entries(records);
    NoMarkers();
    for i := 0 to |records|
      invariant Find(Markers(es[..i]), generation) == None
    {
      batch := LossMarkerBatch(records[i]);
      MarkersFrom(es, i, generation);
      if batch.Some? {
        FindSnoc(Markers(es[..i]), batch.value, generation);
        if batch.value.generation == generation {
          return;
        }
      } else {
        assert Markers(es[..i]) + [] == Markers(es[..i]);
      }
    }
    assert es[..|records|] == es;
    return None;
  }

  lemma ReconcileStep(s: State)
    requires Recovering(s) && s.log.poison == None && PendingMarker(s).Some?
    ensures NextState(s, Reconcile) == Some(LossesReconciled(s))
  {
    hide PendingIn, SettleLossBatch;
  }

  /** `s` with its losses reconciled against its file. */
  function LossesReconciled(s: State): State
    requires s.log.synced <= |s.log.file|
  {
    s.(ledger := Reconciled(s.ledger, PendingMarker(s)))
  }

  lemma ReconcileStage(s: State)
    requires Reachable(s) && Recovering(s) && s.log.poison == None
    ensures s.log.file[..s.log.synced] == s.log.file && s.ledger.memory == s.ledger.sidecar
    ensures PendingMarker(s).Some? ==> NextState(s, Reconcile) == Some(LossesReconciled(s))
    ensures NothingPending(LossesReconciled(s))
  {
    hide Reachable, Inv, NextState, PendingMarker;
    ReachableShape(s);
    ReachableInv(s);
    if PendingMarker(s).Some? {
      ReconcileStep(s);
      if Exact(LossesReconciled(s)) {
        ReconcileSettles(s);
      }
    }
  }

  /** The directory is past its poison check, and `state` and `records` are what was read from it. */
  ghost predicate CanReconcile(dir: Directory, state: Losses, records: seq<AuditRecord>)
    reads dir
  {
    && dir.AtRest() && Recovering(dir.st) && dir.st.log.poison == None
    && state == dir.st.ledger.sidecar && records == Records(dir.st.log.file)
  }

  lemma LossesWritten(l: Losses)
    ensures LossRep(Some(LossFile(l)), l)
  {
  }

  /** `PendingLosses::reconcile` of the state just read. */
  method ReconcileLosses(dir: Directory, state: Losses, records: seq<AuditRecord>) returns (settled: Losses)
    modifies dir`losses, dir`st
    ensures settled == SettledAgainst(state, PendingIn(Markers(Entries(records)), state))
    ensures dir.losses == (if PendingIn(Markers(Entries(records)), state) == None then old(dir.losses) else Some(LossFile(settled)))
    ensures old(CanReconcile(dir, state, records)) ==>
      && dir.AtRest() && settled == dir.st.ledger.memory
      && dir.st == old(LossesReconciled(dir.st)) && NothingPending(dir.st)
  {
    hide Reachable, NextState, FileRep, LossRep, OffsetRep, PoisonRep, LossFile, Markers, Entries, SettleLossBatch, Find;
    ghost var rest := CanReconcile(dir, state, records);
    if rest {
      ReconcileStage(dir.st);
      FileEntries(dir.spool, dir.torn, dir.st.log.file);
    }
    if state.count == 0 {
      return state;
    }
    var batch := FindMarker(records, state.generation);
    if batch == None {
      return state;
    }
    settled := SettleLossBatch(state, batch.value);
    dir.losses := Some(LossFile(settled));
    LossesWritten(settled);
    if rest {
      dir.Take(Reconcile);
    }
  }

  lemma FileEntries(bytes: Option<seq<u8>>, torn: seq<u8>, es: seq<Entry>)
    requires FileRep(bytes, torn, es)
    ensures Entries(Records(es)) == es
  {
    EntriesOfRecords(es);
  }

  // ----- Truncating and opening -----

  lemma TruncateClosedSteps(s: State)
    requires Recovering(s) && !s.log.truncating && s.log.poison == None && NothingPending(s) && NeedsTruncate(s.log)
    ensures var t := s.(log := EmptyFile(s.log));
      && NextState(s, TruncateFile) == Some(t)
      && NextState(t, ResetCursor) == Some(s.(log := Truncated(s.log)))
      && NothingPending(s.(log := Truncated(s.log)))
  {
    NoMarkers();
    var t := s.(log := EmptyFile(s.log));
    assert t.log.file[..0] == [];
  }

  /** Recovery has only the truncation left, and `drained` says whether it is needed. */
  ghost predicate CanTruncate(dir: Directory)
    reads dir
  {
    && dir.AtRest() && dir.spool.Some? && dir.torn == [] && Recovering(dir.st)
    && dir.st.log.poison == None && NothingPending(dir.st)
  }

  /** `truncate` inside `open`. */
  method TruncateDrained(dir: Directory)
    modifies dir`spool, dir`synced, dir`torn, dir`offset, dir`st
    ensures dir.spool == Some(FileHeader()) && dir.offset == Some(OffsetFile(0))
    ensures old(CanTruncate(dir) && NeedsTruncate(dir.st.log)) ==>
      CanTruncate(dir) && dir.st == old(dir.st.(log := Truncated(dir.st.log)))
  {
    hide Reachable, NextState, FileRep, LossRep, OffsetRep, PoisonRep, PendingMarker, FileHeader, OffsetFile;
    ghost var rest := CanTruncate(dir) && NeedsTruncate(dir.st.log);
    if rest {
      ClosedIdle(dir.st);
      TruncateClosedSteps(dir.st);
      EmptySpool();
      dir.Take(TruncateFile);
    }
    dir.spool, dir.synced := Some(FileHeader()), |FileHeader()|;
    dir.torn := [];
    if rest {
      assert dir.Valid();
      CursorReset();
      dir.Take(ResetCursor);
    }
    dir.offset := Some(OffsetFile(0));
  }

  lemma CursorReset()
    ensures OffsetRep(Some(OffsetFile(0)), 0)
  {
  }

  lemma FinishStep(s: State, max: nat, every: nat)
    requires Recovering(s) && s.log.poison == None && NothingPending(s) && !NeedsTruncate(s.log)
    requires max <= U64_MAX && 0 < every <= U64_MAX
    ensures NextState(s, FinishOpen(max, every)) == Some(Opened(s, max, every))
  {
  }

  function Opened(s: State, max: nat, every: nat): State {
    State(Open, s.log.(maxBytes := max, syncEvery := every, unsynced := 0, replay := Idle), s.ledger)
  }

  lemma RecoveredInStages(s: State, max: nat, every: nat)
    requires s.log.synced <= |s.log.file|
    ensures var t := LossesReconciled(s.(log := s.log.(poison := None)));
      Recovered(s, max, every) == Opened(t.(log := Truncated(t.log)), max, every)
  {
  }

  /** What `open` makes of arbitrary files: the first check that fails, in the order it makes them. */
  function OpenVerdict(spool: Option<seq<u8>>, losses: Option<seq<u8>>, offset: Option<seq<u8>>, poison: Option<seq<u8>>): Option<AuditError> {
    if LossesIn(losses).Err? then Some(LossesIn(losses).error)
    else match OffsetIn(offset)
         case Err(e) => Some(e)
         case Ok(cursor) =>
           match ScanFile(SpoolIn(spool))
           case Err(e) => Some(e)
           case Ok(s) => if UnreadCount(s.lens, cursor).Err? then Some(UnreadCount(s.lens, cursor).error) else PoisonIn(poison, cursor)
  }

  /** The cursor check on a directory a run left behind: it finds the unread frames, unless the cursor is
      past them all. */
  lemma UnreadAtRest(dir: Directory)
    requires dir.AtRest() && dir.spool.Some? && dir.torn == []
    ensures var l := dir.st.log;
      && l.read <= |l.file| == l.synced
      && UnreadCount(Lengths(Records(l.file)), l.offset) == (if l.adrift then Err(Io) else Ok(|l.file| - l.read))
  {
    hide Reachable, Body, UnreadCount, Records, Genuine, LossRep, OffsetRep, PoisonRep;
    ReachableShape(dir.st);
    var l := dir.st.log;
    assert l.file == [] ==> l.file[..l.read] == [];
    if l.adrift {
      CursorBeyond(l.file, l.offset);
    } else {
      UnreadOfFile(l.file, l.read, l.offset);
    }
  }

  lemma CursorBeyond(es: seq<Entry>, offset: nat)
    requires AllGenuine(es) && es != [] && offset > TotalLen(es)
    ensures UnreadCount(Lengths(Records(es)), offset) == Err(Io)
  {
    hide Genuine;
    LengthsAddUp(es);
    PastTheEnd(Lengths(Records(es)), offset);
  }

  /** Only the truncation is left, and the fields to open with are what the directory holds. */
  ghost predicate CanFinish(dir: Directory, losses: Losses, bytes: nat, count: nat, replayOffset: nat)
    reads dir
  {
    var l := dir.st.log;
    && CanTruncate(dir) && losses == dir.st.ledger.memory
    && bytes == TotalLen(l.file) && replayOffset == l.offset && l.read <= |l.file| && count == |l.file| - l.read
  }

  lemma LogKept(s: State)
    requires s.log.synced <= |s.log.file|
    ensures LossesReconciled(s).log == s.log && LossesReconciled(s).phase == s.phase
  {
  }

  lemma ClosedIdle(s: State)
    requires Reachable(s) && s.phase == Closed
    ensures s.ledger.flow == NoFlow && !s.log.due && !s.log.truncating
  {
    hide Reachable;
    ReachableShape(s);
  }

  /** The fields `open` gives a spool on a file already checked, and the files it leaves. */
  ghost predicate OpensAs(spool: Spool, losses: Losses, recoveredTornTail: bool, file: seq<u8>, bytes: nat, count: nat, replayOffset: nat)
    reads spool, spool.dir, spool.pending
  {
    var truncates := count == 0 && replayOffset > 0;
    && spool.pending.state == losses && spool.recoveredTornTail == recoveredTornTail && spool.count == count
    && spool.bytes == (if truncates then 0 else bytes) && spool.replayOffset == (if truncates then 0 else replayOffset)
    && spool.dir.spool == Some(if truncates then FileHeader() else file)
    && (truncates ==> spool.dir.offset == Some(OffsetFile(0)))
  }

  /** Opens the recovered directory. */
  method Finish(dir: Directory, losses: Losses, maxBytes: nat, syncEvery: nat, recoveredTornTail: bool,
                bytes: nat, count: nat, replayOffset: nat) returns (spool: Spool)
    requires maxBytes <= U64_MAX && 0 < syncEvery <= U64_MAX
    modifies dir`st
    ensures fresh(spool) && fresh(spool.pending) && spool.dir == dir && spool.recoveredTornTail == recoveredTornTail
    ensures spool.pending.state == losses && spool.bytes == bytes && spool.count == count && spool.replayOffset == replayOffset
    ensures old(CanFinish(dir, losses, bytes, count, replayOffset) && !NeedsTruncate(dir.st.log)) ==>
      spool.Valid() && dir.st == Opened(old(dir.st), maxBytes, syncEvery)
  {
    hide Reachable, NextState, FileRep, LossRep, OffsetRep, PoisonRep, PendingMarker, TotalLen;
    if CanFinish(dir, losses, bytes, count, replayOffset) && !NeedsTruncate(dir.st.log) {
      ClosedIdle(dir.st);
      FinishStep(dir.st, maxBytes, syncEvery);
      FileLength(dir.spool.value, dir.st.log.file);
      assert dir.st.log.file[..|dir.st.log.file|] == dir.st.log.file;
      dir.Take(FinishOpen(maxBytes, syncEvery));
    }
    var pending := new PendingLosses(dir, losses);
    spool := new Spool(dir, pending, maxBytes, syncEvery, recoveredTornTail, bytes, count, replayOffset);
  }

  /** The end of `open`: a drained file is truncated first. */
  method LastSteps(dir: Directory, losses: Losses, maxBytes: nat, syncEvery: nat, recoveredTornTail: bool,
                   bytes: nat, count: nat, replayOffset: nat) returns (spool: Spool)
    requires maxBytes <= U64_MAX && 0 < syncEvery <= U64_MAX && dir.spool.Some?
    modifies dir`spool, dir`synced, dir`torn, dir`offset, dir`st
    ensures fresh(spool) && fresh(spool.pending) && spool.dir == dir
    ensures OpensAs(spool, losses, recoveredTornTail, old(dir.spool.value), bytes, count, replayOffset)
    ensures old(CanFinish(dir, losses, bytes, count, replayOffset)) ==>
      spool.Valid() && dir.st == Opened(old(dir.st.(log := Truncated(dir.st.log))), maxBytes, syncEvery)
  {
    hide Reachable, NextState, FileRep, LossRep, OffsetRep, PoisonRep, PendingMarker, FileHeader, OffsetFile, Spool.Valid;
    if count == 0 && replayOffset > 0 {
      TruncateDrained(dir);
      spool := Finish(dir, losses, maxBytes, syncEvery, recoveredTornTail, 0, 0, 0);
    } else {
      spool := Finish(dir, losses, maxBytes, syncEvery, recoveredTornTail, bytes, count, replayOffset);
    }
  }

  /** What `open` makes of the four files when every check passes. */
  ghost predicate OpenedFrom(spool: Spool, file: seq<u8>, sidecar: Losses, cursor: nat)
    reads spool, spool.dir, spool.pending
  {
    && ScanFile(file).Ok? && HEADER_LEN + ScanFile(file).value.validBytes <= |file|
    && var s := ScanFile(file).value;
    var pending := PendingIn(Markers(Entries(s.records)), sidecar);
    && UnreadCount(s.lens, cursor).Ok? && spool.dir.poison == None
    && (pending.Some? ==> spool.dir.losses == Some(LossFile(spool.pending.state)))
    && OpensAs(spool, SettledAgainst(sidecar, pending), HEADER_LEN + s.validBytes < |file|, Healed(file, s),
               s.validBytes, UnreadCount(s.lens, cursor).value, cursor)
  }

  /** What the checks of `open` read. */
  datatype Checked = Checked(losses: Losses, cursor: nat, scanned: Scanned, torn: bool, unread: nat)

  /** What the checks read from files on which they all pass. */
  ghost predicate ReadsAs(k: Checked, file: seq<u8>, losses: Option<seq<u8>>, offset: Option<seq<u8>>) {
    && LossesIn(losses) == Ok(k.losses) && OffsetIn(offset) == Ok(k.cursor)
    && ScanFile(file) == Ok(k.scanned) && HEADER_LEN + k.scanned.validBytes <= |file|
    && k.torn == (HEADER_LEN + k.scanned.validBytes < |file|) && UnreadCount(k.scanned.lens, k.cursor) == Ok(k.unread)
  }

  /** What the checks read from a directory a run left behind. */
  predicate ReadsState(k: Checked, s: State) {
    var l := s.log;
    && l.read <= |l.file| && k.losses == s.ledger.sidecar && k.cursor == l.offset && k.unread == |l.file| - l.read
    && k.scanned == Scanned(Records(l.file), Lengths(Records(l.file)), TotalLen(l.file))
  }

  /** The checks of `open`, in their order, up to the poison's: the file is healed and a stale poison
      cleared on the way. */
  method CheckFiles(dir: Directory) returns (r: Result<Checked>)
    modifies dir
    ensures var verdict := old(OpenVerdict(dir.spool, dir.losses, dir.offset, dir.poison));
      (r.Ok? <==> verdict == None) && (r.Err? ==> Some(r.error) == verdict)
    ensures r.Ok? ==>
      && ReadsAs(r.value, old(SpoolIn(dir.spool)), old(dir.losses), old(dir.offset))
      && dir.spool == Some(Healed(old(SpoolIn(dir.spool)), r.value.scanned)) && dir.poison == None
    ensures old(dir.AtRest() && Barred(dir.st.log)) ==>
      && r == Err(if old(dir.st.log.adrift) then Io else Poisoned)
      && dir.Valid() && dir.st == old(dir.st).(phase := Stopped)
    ensures old(dir.AtRest() && !Barred(dir.st.log)) ==>
      && r.Ok? && dir.AtRest() && dir.torn == [] && r.value.torn == (old(dir.torn) != [])
      && dir.st == old(dir.st).(log := old(dir.st.log).(poison := None)) && ReadsState(r.value, dir.st)
      && dir.st.log.synced == |dir.st.log.file| && !dir.st.log.adrift
  {
    hide Reachable, NextState, FileRep, LossRep, OffsetRep, PoisonRep, LossesIn, OffsetIn, PoisonIn, ScanFile, UnreadCount,
      Records, Lengths, TotalLen, FileHeader, OffsetFile, LossFile, SpoolIn, Healed, Directory.Holds, Directory.Flushed;
    ghost var (rest, s) := (dir.AtRest(), dir.st);
    var losses := OpenLosses(dir);
    if losses.Err? {
      return Err(losses.error);
    }
    var cursor := OpenOffset(dir);
    if cursor.Err? {
      return Err(cursor.error);
    }
    var file := OpenSpoolFile(dir);
    if file.Err? {
      return Err(file.error);
    }
    var (scanned, torn) := file.value;
    if rest {
      UnreadAtRest(dir);
    }
    var unread := UnreadRecordCount(scanned.lens, scanned.validBytes, cursor.value);
    if unread.Err? {
      if rest {
        dir.Stop();
      }
      return Err(unread.error);
    }
    var poison := ReconcilePoison(dir, cursor.value);
    if poison.Some? {
      return Err(poison.value);
    }
    return Ok(Checked(losses.value, cursor.value, scanned, torn, unread.value));
  }

  /** `Spool::open_with_sync_every`. On any files, it succeeds exactly when every check passes, and then
      its fields and its files are what they held, healed, settled and truncated. On a directory some run
      of the protocol left behind, it fails exactly when the cursor is past the frames or a poison sits at
      it, and otherwise leaves precisely the recovered state. */
  method OpenSpool(dir: Directory, maxBytes: nat, syncEvery: nat) returns (r: Result<Spool>)
    requires maxBytes <= U64_MAX && 0 < syncEvery <= U64_MAX
    modifies dir
    ensures var verdict := old(OpenVerdict(dir.spool, dir.losses, dir.offset, dir.poison));
      (r.Ok? <==> verdict == None) && (r.Err? ==> Some(r.error) == verdict)
    ensures r.Ok? ==>
      && r.value.dir == dir && fresh(r.value) && fresh(r.value.pending)
      && OpenedFrom(r.value, old(SpoolIn(dir.spool)), old(LossesIn(dir.losses)).value, old(OffsetIn(dir.offset)).value)
    ensures old(dir.AtRest() && Barred(dir.st.log)) ==>
      && r == Err(if old(dir.st.log.adrift) then Io else Poisoned)
      && dir.Valid() && dir.st == old(dir.st).(phase := Stopped)
    ensures old(dir.AtRest() && !Barred(dir.st.log)) ==>
      && r.Ok? && r.value.Valid()
      && old(dir.st.log.synced <= |dir.st.log.file|) && dir.st == old(Recovered(dir.st, maxBytes, syncEvery))
      && r.value.recoveredTornTail == (old(dir.torn) != [])
  {
    hide Reachable, NextState, LossesIn, OffsetIn, PoisonIn, ScanFile, UnreadCount, Barred, OpenVerdict,
      Recovered, LossesReconciled, NothingPending, Truncated, Records, Lengths, TotalLen, SettledAgainst, PendingIn, FileHeader,
      OffsetFile, LossFile, Markers, SpoolIn, Healed, Spool.Valid, Directory.Holds, Directory.Flushed;
    ghost var (rest, s) := (dir.AtRest() && !Barred(dir.st.log), dir.st);
    var checked := CheckFiles(dir);
    if checked.Err? {
      return Err(checked.error);
    }
    var k := checked.value;
    var settled := ReconcileLosses(dir, k.losses, k.scanned.records);
    if rest {
      RecoveredInStages(s, maxBytes, syncEvery);
      LogKept(s.(log := s.log.(poison := None)));
    }
    var spool := LastSteps(dir, settled, maxBytes, syncEvery, k.torn, k.scanned.validBytes, k.unread, k.cursor);
    return Ok(spool);
  }

  // ----- Crashes at any byte -----

  /** `open` on a spool file cut at any byte, with the cursor after `read` of its frames and no poison: it
      fails exactly if whole frames are left, but fewer than the cursor has passed. */
  lemma VerdictOfCut(es: seq<Entry>, read: nat, losses: Option<seq<u8>>, cut: nat)
    requires AllGenuine(es) && read <= |es| && TotalLen(es) <= U64_MAX && LossesIn(losses).Ok?
    requires HEADER_LEN <= cut <= HEADER_LEN + |Body(es)|
    ensures var keep := WholeFrames(Records(es), cut - HEADER_LEN);
      OpenVerdict(Some(WithHeader(Body(es))[..cut]), losses, Some(OffsetFile(TotalLen(es[..read]))), None)
      == (if 0 < keep < read then Some(Io) else None)
  {
    hide Body, Genuine, ScanFile, UnreadCount, WholeFrames, Records, Lengths, LossesIn, OffsetFile, WithHeader, TotalLen;
    var file := WithHeader(Body(es));
    WholeSpool(es);
    var keep, tail := CutOfSpool(file, es, 0, cut);
    SpoolHeld(Some(file[..cut]), tail, es[..keep]);
    TotalLenMonotone(es, read, |es|);
    assert es[..|es|] == es;
    OffsetFileRoundTrip(TotalLen(es[..read]));
    CursorCheckAfterCrash(es, keep, read);
  }

  lemma WholeSpool(es: seq<Entry>)
    requires AllGenuine(es)
    ensures FileRep(Some(WithHeader(Body(es))), [], es) && TotalLen(es[..0]) == 0
    ensures |WithHeader(Body(es))| == HEADER_LEN + |Body(es)|
  {
    assert Body(es) + [] == Body(es);
  }

  /** A cut just after `n` frames leaves exactly those. */
  lemma CutAtFrame(es: seq<Entry>, n: nat)
    requires AllGenuine(es) && n <= |es|
    ensures WholeFrames(Records(es), TotalLen(es[..n])) == n && TotalLen(es[..n]) <= |Body(es)|
  {
    hide Genuine, WholeFrames, TotalLen, Frames;
    var (rs, cut) := (Records(es), TotalLen(es[..n]));
    var m := WholeFrames(rs, cut);
    KeepsSynced(es, n, cut);
    WholeFramesIsMaximal(rs, cut);
    assert rs[..m] == Records(es[..m]);
    BodySize(es[..m]);
    GenuineIsFramed(es);
    FramesAddUp(es, n, m);
    BodySize(es);
    TotalLenMonotone(es, n, |es|);
    assert es[..|es|] == es;
  }

  /** Replaying frames that are not yet durable is safe exactly when the cursor never gets ahead of the
      durable frames, or has passed at most the first frame of a spool with none: otherwise some crash
      leaves files that `open` rejects. */
  lemma EveryCrashReopensIff(es: seq<Entry>, synced: nat, read: nat, losses: Option<seq<u8>>)
    requires AllGenuine(es) && synced <= |es| && read <= |es| && TotalLen(es) <= U64_MAX && LossesIn(losses).Ok?
    ensures (forall cut :: HEADER_LEN + TotalLen(es[..synced]) <= cut <= HEADER_LEN + |Body(es)| ==>
              OpenVerdict(Some(WithHeader(Body(es))[..cut]), losses, Some(OffsetFile(TotalLen(es[..read]))), None) == None)
       <==> read <= synced || (synced == 0 && read <= 1)
  {
    hide Genuine, Body, OpenVerdict, WholeFrames, TotalLen, WithHeader, OffsetFile, LossesIn, Records, FileRep;
    WholeSpool(es);
    forall cut | HEADER_LEN + TotalLen(es[..synced]) <= cut <= HEADER_LEN + |Body(es)|
      ensures var keep := WholeFrames(Records(es), cut - HEADER_LEN);
        && synced <= keep
        && (OpenVerdict(Some(WithHeader(Body(es))[..cut]), losses, Some(OffsetFile(TotalLen(es[..read]))), None) == None <==> !(0 < keep < read))
    {
      KeepsSynced(es, synced, cut - HEADER_LEN);
      VerdictOfCut(es, read, losses, cut);
    }
    if !(read <= synced) && !(synced == 0 && read <= 1) {
      var keep := if synced == 0 then 1 else synced;
      CutAtFrame(es, keep);
      TotalLenMonotone(es, synced, keep);
      var cut := HEADER_LEN + TotalLen(es[..keep]);
      assert OpenVerdict(Some(WithHeader(Body(es))[..cut]), losses, Some(OffsetFile(TotalLen(es[..read]))), None) != None;
    }
  }

  /** The failure, for any two records: only the first frame survives, and the cursor is after both. */
  lemma CursorPastTheFrames(a: AuditRecord, b: AuditRecord)
    requires Encodable(a) && Encodable(b)
    ensures OpenVerdict(Some(WithHeader(FrameBytes(a))), None, Some(OffsetFile(FrameLen(a) + FrameLen(b))), None) == Some(Io)
  {
    hide FrameBytes, OpenVerdict, WithHeader, OffsetFile;
    var es := [EntryOf(a), EntryOf(b)];
    assert es[..1] == [EntryOf(a)] && es[..2] == es;
    BodySnoc([], a);
    BodySnoc([EntryOf(a)], b);
    assert [] + [EntryOf(a)] == [EntryOf(a)] && [EntryOf(a)] + [EntryOf(b)] == es;
    EmptyBody();
    assert Body(es) == FrameBytes(a) + FrameBytes(b);
    FrameFits(a);
    FrameFits(b);
    BodySize(es);
    BodySize([EntryOf(a)]);
    CutAtFrame(es, 1);
    VerdictOfCut(es, 2, None, HEADER_LEN + FrameLen(a));
    HeaderCut(FrameBytes(a), FrameBytes(b));
  }

  lemma FrameFits(r: AuditRecord)
    requires Encodable(r)
    ensures FrameLen(r) <= U32_MAX + 4
  {
  }

  lemma HeaderCut(a: seq<u8>, b: seq<u8>)
    ensures WithHeader(a + b)[..HEADER_LEN + |a|] == WithHeader(a)
  {
  }

  /** A record was handed to the sink and its cursor not yet committed. */
  predicate InDoubt(l: Log) { l.replay == Begun || l.replay == Delivered }

  /** A crash that keeps `keep` frames and loses one the cursor had passed. */
  predicate LosesPassed(l: Log, keep: nat) { 0 < keep < l.read }

  lemma AfterCrash(s: State, keep: nat, t: State, max: nat, every: nat)
    requires s.phase == Open && PoisonInv(Open, s.log) && s.log.synced <= keep <= |s.log.file| && s.log.read <= |s.log.file|
    requires TakenTo(s.log) <= |s.log.file| && t == State(Closed, CrashLog(s.log, keep), CrashLedger(s.ledger))
    ensures t.log.adrift == LosesPassed(s.log, keep) && (Barred(t.log) <==> LosesPassed(s.log, keep) || InDoubt(s.log))
    ensures var l := Recovered(t, max, every).log;
      l.read <= |l.file| && l.file[l.read..] == s.log.file[if s.log.read < keep then s.log.read else keep..keep]
  {
    hide Reconciled, PendingMarker, TotalLen;
  }

  /** A crash between two calls, at any byte, and a reopen. It fails exactly when frames survive but not all
      the cursor had passed, or when a record is in doubt. Otherwise the unread records are precisely those
      whose whole frame is before the cut. */
  method CrashAndReopen(spool: Spool, cut: nat, maxBytes: nat, syncEvery: nat) returns (r: Result<Spool>)
    requires spool.Valid() && spool.dir.synced <= cut <= |spool.dir.spool.value|
    requires maxBytes <= U64_MAX && 0 < syncEvery <= U64_MAX
    modifies spool.dir
    ensures var l := old(spool.dir.st.log); var keep := WholeFrames(Records(l.file), cut - HEADER_LEN);
      && l.synced <= keep <= |l.file|
      && (r.Err? <==> LosesPassed(l, keep) || InDoubt(l))
      && (r.Err? ==> r.error == (if LosesPassed(l, keep) then Io else Poisoned) && spool.dir.Valid() && spool.dir.st.phase == Stopped)
      && (r.Ok? ==> r.value.Valid() && r.value.Unread() == Records(l.file[if l.read < keep then l.read else keep..keep]))
  {
    hide Reachable, NextState, FileRep, LossRep, OffsetRep, PoisonRep, Recovered, OpenVerdict, TotalLen, Barred, PoisonInv, CrashLog, WholeFrames,
      Records, OpenedFrom;
    ghost var s := spool.dir.st;
    ReachableShape(s);
    ghost var keep := spool.dir.Crash(cut);
    CrashFacts(s, keep, spool.dir.st);
    AfterCrash(s, keep, spool.dir.st, maxBytes, syncEvery);
    r := OpenSpool(spool.dir, maxBytes, syncEvery);
  }

  lemma CrashFacts(s: State, keep: nat, t: State)
    requires NextState(s, Crash(keep)) == Some(t)
    ensures s.phase == Open && s.log.synced <= keep <= |s.log.file| && TakenTo(s.log) <= |s.log.file|
    ensures t == State(Closed, CrashLog(s.log, keep), CrashLedger(s.ledger))
  {
  }
}
