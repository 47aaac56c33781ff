/** `PendingLosses` and the open `Spool`: in-memory fields that agree with the directory at all times. */
module AuditSpool {
  import opened Bytes
  import opened AuditCodec
  import opened LossLedger
  import opened LossMarker
  import opened SpoolProtocol
  import opened SpoolSafety
  import opened SpoolFiles
  import opened SpoolReader
  import opened SpoolStore
  import Numerals
  import Utf8

  /** The losses other threads add while the writer is in `persist_with`, between each two of its steps. */
  datatype Arrivals = Arrivals(
    beforeCopy: seq<nat>, beforeWrite: seq<nat>, beforeAppend: seq<nat>,
    beforeSync: seq<nat>, beforeCommit: seq<nat>, beforeSettled: seq<nat>)
  {
    function BeforeMarker(): seq<nat> { beforeCopy + beforeWrite + beforeAppend }

    function BeforeCommit(): seq<nat> { BeforeMarker() + beforeSync + beforeCommit }
  }

  /** The writer's count of fail-open records awaiting a marker. */
  class PendingLosses {
    const dir: Directory
    var state: Losses

    constructor (dir: Directory, state: Losses)
      ensures this.dir == dir && this.state == state
    {
      this.dir, this.state := dir, state;
    }

    ghost predicate Valid()
      reads this, dir
    {
      dir.Valid() && dir.st.phase == Open && state == dir.st.ledger.memory
    }

    /** `add`, from the writer or from another thread between any two of its steps. */
    method Add(n: nat)
      requires Valid()
      modifies this`state, dir`st
      ensures Valid() && state == AddLossState(old(state), n)
      ensures dir.st == old(dir.st).(ledger := Lost(old(dir.st.ledger), n))
    {
      hide NextState, Reachable, FileRep, LossRep, OffsetRep, PoisonRep;
      LoseStep(dir.st, n);
      state := AddLossState(state, n);
      dir.Step(Lose(n), dir.st.(ledger := Lost(dir.st.ledger, n)));
    }

    /** Losses arriving one call after another. */
    method AddAll(adds: seq<nat>)
      requires Valid()
      modifies this`state, dir`st
      ensures Valid() && state == AddedAll(old(state), adds)
      ensures dir.st == old(dir.st).(ledger := LostAll(old(dir.st.ledger), adds))
    {
      hide NextState, Reachable, FileRep, LossRep, OffsetRep, PoisonRep, Lost, AddLossState;
      for i := 0 to |adds|
        invariant Valid() && state == AddedAll(old(state), adds[..i])
        invariant dir.st == old(dir.st).(ledger := LostAll(old(dir.st.ledger), adds[..i]))
      {
        assert adds[..i + 1][..i] == adds[..i];
        Add(adds[i]);
      }
      assert adds[..|adds|] == adds;
    }

    method Snapshot() returns (batch: Option<Losses>)
      ensures batch.Some? <==> state.count > 0
      ensures batch.Some? ==> batch.value == state && BatchOf(batch.value, state)
    {
      batch := if state.count > 0 then Some(state) else None;
    }

    /** `persist` outside a marker flow, with losses arriving between its copy and its write: the sidecar
        catches up with memory as it was copied. */
    method Persist(arriving: seq<nat>)
      requires Valid() && WriterReady(dir.st)
      modifies this`state, dir`losses, dir`st
      ensures Valid() && WriterReady(dir.st) && state == AddedAll(old(state), arriving)
      ensures dir.losses == Some(LossFile(old(state)))
      ensures dir.st.log == old(dir.st.log) && dir.st.ledger.accounted == old(dir.st.ledger.accounted)
    {
      hide NextState, Reachable, FileRep, LossRep, OffsetRep, PoisonRep, LossFile, AddedAll, LostAll;
      var image := state;
      CopyStep(dir.st, CopyLosses);
      dir.Step(CopyLosses, InFlow(dir.st, Copied(image), true));
      LostAllKeeps(dir.st.ledger, arriving);
      AddAll(arriving);
      WriteStep(dir.st, WriteLosses);
      dir.PutLosses(image, WriteLosses, SidecarWritten(dir.st, image, NoFlow));
    }

    /** `persist` of the snapshot taken by `persist_with`, with losses arriving before its copy and before
        its write. */
    method PersistSnapshot(batch: Losses, beforeCopy: seq<nat>, beforeWrite: seq<nat>)
      requires Valid() && WriterReady(dir.st) && batch == state && state.count > 0
      modifies this`state, dir`losses, dir`st
      ensures Valid() && FlowReady(dir.st) && dir.st.ledger.flow == Persisted(batch)
      ensures state == AddedAll(batch, beforeCopy + beforeWrite) && dir.losses == Some(LossFile(AddedAll(batch, beforeCopy)))
      ensures dir.st.log == old(dir.st.log) && dir.st.ledger.accounted == old(dir.st.ledger.accounted)
    {
      hide NextState, Reachable, FileRep, LossRep, OffsetRep, PoisonRep, LossFile, AddedAll, LostAll;
      SnapshotStep(dir.st);
      dir.Step(Action.Snapshot, InFlow(dir.st, Snapshotted(batch), false));
      LostAllKeeps(dir.st.ledger, beforeCopy);
      AddAll(beforeCopy);
      var image := state;
      CopyStep(dir.st, CopySnapshot);
      dir.Step(CopySnapshot, InFlow(dir.st, SnapshotCopied(batch, image), true));
      LostAllKeeps(dir.st.ledger, beforeWrite);
      AddAll(beforeWrite);
      AddedAllAppend(batch, beforeCopy, beforeWrite);
      WriteStep(dir.st, WriteSnapshot);
      dir.PutLosses(image, WriteSnapshot, SidecarWritten(dir.st, image, Persisted(batch)));
    }

    /** `commit`, once the batch's marker is durable, with losses arriving between the settlement in memory
        and its write. Its generation check always passes: the batch's is still the pending one. */
    method Commit(batch: Losses, beforeWrite: seq<nat>)
      requires Valid() && FlowReady(dir.st) && dir.st.ledger.flow == MarkerSynced(batch)
      modifies this`state, dir`losses, dir`st
      ensures Valid() && WriterReady(dir.st)
      ensures var settled := SettleLossBatch(old(state), batch);
        state == AddedAll(settled, beforeWrite) && dir.losses == Some(LossFile(settled))
      ensures dir.st.log == old(dir.st.log) && dir.st.ledger.accounted == old(dir.st.ledger.accounted) + batch.count
    {
      hide NextState, Reachable, FileRep, LossRep, OffsetRep, PoisonRep, LossFile, SettleLossBatch, AddedAll, LostAll;
      ReachableShape(dir.st);
      if state.generation == batch.generation {
        CommitStep(dir.st);
        state := SettleLossBatch(state, batch);
        var image := state;
        dir.Step(CommitMarker, InFlow(dir.st.(ledger := InMemory(dir.st.ledger, image)), Committed(batch, image), true));
        LostAllKeeps(dir.st.ledger, beforeWrite);
        AddAll(beforeWrite);
        WriteStep(dir.st, WriteCommit);
        ghost var t := SidecarWritten(dir.st, image, NoFlow);
        dir.PutLosses(image, WriteCommit, t.(ledger := t.ledger.(accounted := t.ledger.accounted + batch.count)));
      }
    }
  }

  function LostAll(g: Ledger, adds: seq<nat>): Ledger {
    if adds == [] then g else Lost(LostAll(g, adds[..|adds| - 1]), adds[|adds| - 1])
  }

  lemma {:induction false} LostAllKeeps(g: Ledger, adds: seq<nat>)
    ensures var h := LostAll(g, adds);
      h.flow == g.flow && h.sidecar == g.sidecar && h.accounted == g.accounted && h.memory == AddedAll(g.memory, adds)
  {
    if adds != [] {
      LostAllKeeps(g, adds[..|adds| - 1]);
    }
  }

  function InFlow(s: State, flow: Flow, copied: bool): State {
    s.(ledger := s.ledger.(flow := flow, sinceImage := if copied then 0 else s.ledger.sinceImage))
  }

  function SidecarWritten(s: State, image: Losses, next: Flow): State { s.(ledger := WriteImage(s.ledger, image, next)) }

  // ----- The protocol steps behind each call -----

  lemma LoseStep(s: State, n: nat)
    requires s.phase == Open
    ensures NextState(s, Lose(n)) == Some(s.(ledger := Lost(s.ledger, n)))
  {
  }

  lemma SnapshotStep(s: State)
    requires WriterReady(s) && s.ledger.memory.count > 0
    ensures NextState(s, Snapshot) == Some(InFlow(s, Snapshotted(s.ledger.memory), false))
  {
  }

  lemma CopyStep(s: State, a: Action)
    requires (a == CopyLosses && WriterReady(s)) || (a == CopySnapshot && FlowReady(s) && s.ledger.flow.Snapshotted?)
    ensures var (m, f) := (s.ledger.memory, s.ledger.flow);
      NextState(s, a) == Some(InFlow(s, if a == CopyLosses then Copied(m) else SnapshotCopied(f.batch, m), true))
  {
  }

  lemma WriteStep(s: State, a: Action)
    requires FlowReady(s)
    requires || (a == WriteLosses && s.ledger.flow.Copied?) || (a == WriteSnapshot && s.ledger.flow.SnapshotCopied?)
             || (a == WriteCommit && s.ledger.flow.Committed?)
    ensures var f := s.ledger.flow;
      var t := SidecarWritten(s, f.image, if a == WriteSnapshot then Persisted(f.batch) else NoFlow);
      NextState(s, a) == Some(if a == WriteCommit then t.(ledger := t.ledger.(accounted := t.ledger.accounted + f.batch.count)) else t)
  {
  }

  lemma CommitStep(s: State)
    requires FlowReady(s) && s.ledger.flow.MarkerSynced?
    ensures var b := s.ledger.flow.batch;
      var settled := SettleLossBatch(s.ledger.memory, b);
      NextState(s, CommitMarker) == Some(InFlow(s.(ledger := InMemory(s.ledger, settled)), Committed(b, settled), true))
  {
  }

  /** The log after an append and the sync its cadence calls for. */
  function AppendedTo(l: Log, e: Entry): Log
    requires l.synced <= |l.file|
  {
    var l' := AppendTo(l, e);
    if l'.due then SyncLog(l') else l'
  }

  lemma AppendSteps(s: State, e: Entry, a: Action)
    requires Fits(s.log, e) && s.log.synced <= |s.log.file|
    requires
      || (a == Append(e) && WriterReady(s) && e.marker == None)
      || (a == AppendMarker(e) && FlowReady(s) && s.ledger.flow.Persisted? && e.marker == Some(s.ledger.flow.batch))
    ensures var t := State(Open, AppendTo(s.log, e),
        if a.Append? then s.ledger else s.ledger.(flow := Appended(s.ledger.flow.batch)));
      && NextState(s, a) == Some(t)
      && (t.log.due ==> NextState(t, SyncDue) == Some(t.(log := AppendedTo(s.log, e))))
  {
  }

  lemma SyncSteps(s: State, a: Action)
    requires s.log.synced <= |s.log.file|
    requires (a == Sync && WriterReady(s)) || (a == SyncMarker && FlowReady(s) && s.ledger.flow.Appended?)
    ensures NextState(s, a) == Some(s.(log := SyncLog(s.log),
      ledger := if a == Sync then s.ledger else s.ledger.(flow := MarkerSynced(s.ledger.flow.batch))))
  {
  }

  lemma BeginStep(s: State)
    requires WriterReady(s) && s.log.replay == Idle && s.log.read < |s.log.file|
    ensures NextState(s, BeginReplay)
         == Some(s.(log := s.log.(poison := Some(Poison(s.log.offset, s.log.file[s.log.read])), replay := Begun)))
  {
  }

  lemma DeliverStep(s: State)
    requires WriterReady(s) && s.log.replay == Begun && s.log.read < |s.log.file|
    ensures NextState(s, Deliver)
         == Some(s.(log := s.log.(delivered := s.log.delivered + [s.log.file[s.log.read]], replay := Delivered)))
  {
  }

  lemma AbortStep(s: State)
    requires WriterReady(s) && s.log.replay == Begun
    ensures NextState(s, Abort) == Some(s.(log := s.log.(poison := None, replay := Idle)))
  {
  }

  lemma CommitCursorSteps(s: State)
    requires WriterReady(s) && s.log.replay == Delivered && s.log.read < |s.log.file|
    ensures var t := s.(log := CursorPast(s.log));
      && NextState(s, CommitCursor) == Some(t)
      && NextState(t, ClearPoison) == Some(t.(log := t.log.(poison := None, replay := Idle)))
  {
  }

  lemma TruncateSteps(s: State)
    requires WriterReady(s) && s.log.replay == Idle && Drained(s.log) && s.log.synced <= |s.log.file|
    ensures var t := s.(log := EmptyFile(s.log).(truncating := true));
      && NextState(s, TruncateFile) == Some(t)
      && NextState(t, ResetCursor) == Some(s.(log := EmptyFile(s.log).(offset := 0)))
  {
  }

  // ----- The spool -----

  class Spool {
    const dir: Directory
    const pending: PendingLosses
    const maxBytes: nat
    const syncEvery: nat
    const recoveredTornTail: bool
    var bytes: nat
    var count: nat
    var unsynced: nat
    var replayOffset: nat

    constructor (dir: Directory, pending: PendingLosses, maxBytes: nat, syncEvery: nat, recoveredTornTail: bool,
                 bytes: nat, count: nat, replayOffset: nat)
      ensures this.dir == dir && this.pending == pending
      ensures this.maxBytes == maxBytes && this.syncEvery == syncEvery && this.recoveredTornTail == recoveredTornTail
      ensures this.bytes == bytes && this.count == count && unsynced == 0 && this.replayOffset == replayOffset
    {
      this.dir, this.pending, this.maxBytes, this.syncEvery := dir, pending, maxBytes, syncEvery;
      this.recoveredTornTail, this.bytes, this.count := recoveredTornTail, bytes, count;
      unsynced, this.replayOffset := 0, replayOffset;
    }

    /** The fields count what the directory holds: bytes of frames, frames from the cursor on, frames
        since the last sync, the cursor. */
    ghost predicate Counts(l: Log)
      reads this
    {
      && maxBytes == l.maxBytes && syncEvery == l.syncEvery && bytes == TotalLen(l.file)
      && l.read <= |l.file| && count == |l.file| - l.read
      && unsynced == l.unsynced && replayOffset == l.offset
    }

    ghost predicate Linked()
      reads this, dir, pending
    {
      pending.dir == dir && pending.Valid() && Counts(dir.st.log)
    }

    /** Open, and between two calls of its writer. */
    ghost predicate Valid()
      reads this, dir, pending
    {
      Linked() && WriterReady(dir.st)
    }

    /** The records from the replay cursor on. */
    ghost function Unread(): seq<AuditRecord>
      reads dir
      requires dir.st.log.read <= |dir.st.log.file|
    {
      Records(dir.st.log.file[dir.st.log.read..])
    }

    /** `append_inner`, before its bookkeeping: the frame is written, and synced when it is due. */
    method WriteAndSync(record: AuditRecord, sync: bool, ghost a: Action)
      requires dir.Valid() && CanAppend(dir.st, record, a) && sync == AppendTo(dir.st.log, EntryOf(record)).due
      modifies dir`spool, dir`synced, dir`st
      ensures dir.Valid() && dir.st == Written(old(dir.st), record, a)
    {
      hide NextState, Reachable, FileRep, LossRep, OffsetRep, PoisonRep, Fits, EntryOf, Encodable, AppendDecision, WriterReady, FlowReady;
      ghost var s := dir.st;
      ghost var e := EntryOf(record);
      AppendSteps(s, e, a);
      ghost var t := State(Open, AppendTo(s.log, e), if a.Append? then s.ledger else s.ledger.(flow := Appended(s.ledger.flow.batch)));
      dir.WriteFrame(record, a, t);
      if sync {
        dir.SyncFile(SyncDue, t.(log := AppendedTo(s.log, e)));
      }
    }

    /** `append_inner`: accepted exactly when the frame fits the cap; otherwise nothing changes. */
    method AppendInner(record: AuditRecord, ghost a: Action) returns (r: Result<bool>)
      requires Linked() && TextKeys(record.headers)
      requires Encodable(record) && Fits(dir.st.log, EntryOf(record)) ==> CanAppend(dir.st, record, a)
      modifies this`bytes, this`count, this`unsynced, dir`spool, dir`synced, dir`st
      ensures Linked()
      ensures r == (if Encodable(record) then Ok(old(bytes) + FrameLen(record) <= maxBytes) else Err(Io))
      ensures r == Ok(true) ==> old(CanAppend(dir.st, record, a)) && dir.st == old(Written(dir.st, record, a))
      ensures r != Ok(true) ==> unchanged(this) && unchanged(dir)
    {
      hide NextState, Reachable, FileRep, LossRep, OffsetRep, PoisonRep, Encodable, RecordBytes, EntryOf, LossMarkerBatch,
        AppendTo, AppendedTo, TotalLen, WriterReady, FlowReady;
      var frame := EncodeFrame(record);
      if frame == None {
        return Err(Io);
      }
      var decision := AppendDecision(bytes, |frame.value|, maxBytes, unsynced, syncEvery);
      EntryLength(record);
      if !decision.accepted {
        return Ok(false);
      }
      AppendCounts(dir.st.log, EntryOf(record));
      WriteAndSync(record, decision.sync, a);
      unsynced, bytes, count := decision.nextUnsynced, decision.newBytes, count + 1;
      return Ok(true);
    }

    /** `append`: the record joins the unread ones, and with the default cadence is durable on return. */
    method Append(record: AuditRecord) returns (r: Result<bool>)
      requires Valid() && TextKeys(record.headers) && LossMarkerBatch(record) == None
      modifies this`bytes, this`count, this`unsynced, dir`spool, dir`synced, dir`st
      ensures Valid()
      ensures r == (if Encodable(record) then Ok(old(bytes) + FrameLen(record) <= maxBytes) else Err(Io))
      ensures r == Ok(true) ==>
        && dir.st == old(dir.st).(log := AppendedTo(old(dir.st.log), EntryOf(record)))
        && Unread() == old(Unread()) + [record]
        && (syncEvery == 1 ==> dir.st.log.synced == |dir.st.log.file|)
      ensures r != Ok(true) ==> unchanged(this) && unchanged(dir)
    {
      hide NextState, Reachable, FileRep, LossRep, OffsetRep, PoisonRep, Encodable, RecordBytes, FrameBytes, Records, BatchOfValue;
      ReachableShape(dir.st);
      r := AppendInner(record, Action.Append(EntryOf(record)));
      if r == Ok(true) {
        AppendedUnread(old(dir.st.log), record);
      }
    }

    /** `sync`: every frame is on stable storage. */
    method Sync()
      requires Valid()
      modifies this`unsynced, dir`synced, dir`st
      ensures Valid() && unsynced == 0
      ensures dir.st == old(dir.st).(log := old(SyncLog(dir.st.log)))
    {
      hide NextState, Reachable, FileRep, LossRep, OffsetRep, PoisonRep;
      ReachableShape(dir.st);
      SyncSteps(dir.st, Action.Sync);
      dir.SyncFile(Action.Sync, dir.st.(log := SyncLog(dir.st.log)));
      unsynced := 0;
    }

    /** `append_loss_marker`: within the cap, and durable on success. Losses may arrive before its sync. */
    method AppendLossMarker(record: AuditRecord, beforeSync: seq<nat>) returns (r: Result<()>)
      requires Linked() && TextKeys(record.headers) && FlowReady(dir.st)
      requires dir.st.ledger.flow.Persisted? && LossMarkerBatch(record) == Some(dir.st.ledger.flow.batch)
      modifies this`bytes, this`count, this`unsynced, pending`state, dir`spool, dir`synced, dir`st
      ensures Linked()
      ensures r == (if !Encodable(record) then Err(Io) else if old(bytes) + FrameLen(record) <= maxBytes then Ok(()) else Err(Unavailable))
      ensures r.Ok? ==>
        && FlowReady(dir.st) && dir.st.ledger.flow == MarkerSynced(old(dir.st.ledger.flow.batch))
        && MarkerLogged(old(dir.st.log), dir.st.log, record) && pending.state == AddedAll(old(pending.state), beforeSync)
        && dir.st.ledger.accounted == old(dir.st.ledger.accounted)
      ensures r.Err? ==> unchanged(this) && unchanged(pending) && unchanged(dir)
    {
      hide NextState, Reachable, FileRep, LossRep, OffsetRep, PoisonRep, Encodable, FrameBytes, LossMarkerBatch, AppendDecision, TotalLen,
        CursorInv, PoisonInv, RangeInv, Framed, AppendedTo, AddedAll, LostAll, FrameLen;
      ReachableShape(dir.st);
      ghost var l := dir.st.log;
      var accepted := AppendInner(record, AppendMarker(EntryOf(record)));
      if accepted.Err? {
        return Err(accepted.error);
      }
      if !accepted.value {
        return Err(Unavailable);
      }
      AppendedFields(l, EntryOf(record));
      LostAllKeeps(dir.st.ledger, beforeSync);
      pending.AddAll(beforeSync);
      ghost var s := dir.st;
      SyncSteps(s, SyncMarker);
      dir.SyncFile(SyncMarker, s.(log := SyncLog(s.log), ledger := s.ledger.(flow := MarkerSynced(s.ledger.flow.batch))));
      unsynced := 0;
      return Ok(());
    }

    /** `persist_with` of a marker for all losses so far, with more arriving on other threads between any
        two of its steps. Those stay pending, in a generation no marker has named. */
    method PersistWith(headers: seq<Header>, arriving: Arrivals) returns (r: Result<Option<AuditRecord>>)
      requires Valid() && TextKeys(headers)
      modifies this`bytes, this`count, this`unsynced, pending`state, dir`spool, dir`synced, dir`losses, dir`st
      ensures Valid()
      ensures old(pending.state.count) == 0 ==> r == Ok(None) && unchanged(this) && unchanged(pending) && unchanged(dir)
      ensures r.Ok? && r.value.Some? ==> Declares(r.value.value, old(pending.state), headers)
      ensures old(pending.state.count) > 0 ==>
        var batch, m := old(pending.state), RecordsLostRecord(old(pending.state), headers);
        var settled := SettleLossBatch(AddedAll(batch, arriving.BeforeCommit()), batch);
        && r == (if !Encodable(m) then Err(Io) else if old(bytes) + FrameLen(m) <= maxBytes then Ok(Some(m)) else Err(Unavailable))
        && (r.Err? ==>
            && pending.state == AddedAll(batch, arriving.BeforeMarker())
            && dir.losses == Some(LossFile(AddedAll(batch, arriving.beforeCopy)))
            && dir.spool == old(dir.spool) && dir.st.log == old(dir.st.log)
            && dir.st.ledger.accounted == old(dir.st.ledger.accounted))
        && (r.Ok? ==>
            && LossMarkerBatch(m) == Some(batch) && MarkerLogged(old(dir.st.log), dir.st.log, m)
            && pending.state == AddedAll(settled, arriving.beforeSettled)
            && dir.losses == Some(LossFile(settled))
            && dir.st.ledger.accounted == old(dir.st.ledger.accounted) + batch.count)
    {
      hide NextState, Reachable, FileRep, LossRep, OffsetRep, PoisonRep, Encodable, FrameBytes, LossFile, RecordsLostRecord,
        LossMarkerBatch, Declares, TotalLen, CursorInv, PoisonInv, Framed, SettleLossBatch, AppendedTo, SyncLog,
        AddLossState, AddedAll, LostAll, EntryOf;
      var snapshot := pending.Snapshot();
      if snapshot == None {
        return Ok(None);
      }
      var batch := snapshot.value;
      pending.PersistSnapshot(batch, arriving.beforeCopy, arriving.beforeWrite);
      var marker := RecordsLostRecord(batch, headers);
      MarkerOf(dir.st, batch, headers);
      LostAllKeeps(dir.st.ledger, arriving.beforeAppend);
      pending.AddAll(arriving.beforeAppend);
      AddedAllAppend(batch, arriving.beforeCopy + arriving.beforeWrite, arriving.beforeAppend);
      var written := AppendLossMarker(marker, arriving.beforeSync);
      if written.Err? {
        AbandonStep(dir.st);
        dir.Step(AbandonMarker, dir.st.(ledger := dir.st.ledger.(flow := NoFlow)));
        return Err(written.error);
      }
      LostAllKeeps(dir.st.ledger, arriving.beforeCommit);
      pending.AddAll(arriving.beforeCommit);
      AddedAllAppend(batch, arriving.BeforeMarker(), arriving.beforeSync);
      AddedAllAppend(batch, arriving.BeforeMarker() + arriving.beforeSync, arriving.beforeCommit);
      pending.Commit(batch, arriving.beforeSettled);
      MarkerText(batch, headers);
      return Ok(Some(marker));
    }

    // ----- Replay -----

    /** `begin_replay`: the poison names the cursor and holds the record about to be sent. */
    method BeginReplay(record: AuditRecord)
      requires Valid() && dir.st.log.replay == Idle && dir.st.log.read < |dir.st.log.file|
      requires record == Unread()[0]
      modifies dir`poison, dir`st
      ensures Valid() && dir.poison == Some(PoisonFile(replayOffset, record))
      ensures dir.st == old(dir.st).(log := old(dir.st.log).(
        poison := Some(Poison(replayOffset, EntryOf(record))), replay := Begun))
    {
      hide NextState, Reachable, LossRep, OffsetRep, PoisonRep, Body, PoisonFile, FileHeader;
      ghost var l := dir.st.log;
      assert Genuine(l.file[l.read]) && l.file[l.read] == EntryOf(record);
      BeginStep(dir.st);
      dir.PutPoison(replayOffset, record, Action.BeginReplay,
        dir.st.(log := l.(poison := Some(Poison(replayOffset, EntryOf(record))), replay := Begun)));
    }

    /** `commit_replay_frame`: first the cursor passes the frame, then the poison goes. The cursor never
        overflows, because the frames themselves fit the cap. */
    method CommitReplayFrame(frameLen: nat)
      requires Valid() && dir.st.log.replay == Delivered && dir.st.log.read < |dir.st.log.file|
      requires frameLen == dir.st.log.file[dir.st.log.read].len
      modifies this`replayOffset, this`count, dir`offset, dir`poison, dir`st
      ensures Valid() && count == old(count) - 1 && replayOffset == old(replayOffset) + frameLen <= U64_MAX
      ensures dir.poison == None && dir.offset == Some(OffsetFile(replayOffset))
      ensures dir.st == old(dir.st).(log := old(CursorPast(dir.st.log)).(poison := None, replay := Idle))
    {
      hide NextState, Reachable, FileRep, LossRep, OffsetRep, PoisonRep, OffsetFile, TotalLen;
      ghost var s := dir.st;
      CommitCursorSteps(s);
      replayOffset := replayOffset + frameLen;
      dir.PutOffset(replayOffset, CommitCursor, s.(log := CursorPast(s.log)));
      ReachableShape(dir.st);
      count := count - 1;
      ghost var t := dir.st;
      dir.RemovePoison(ClearPoison, t.(log := t.log.(poison := None, replay := Idle)));
    }

    /** `abort_replay`, after a definite failure. */
    method AbortReplay()
      requires Valid() && dir.st.log.replay == Begun
      modifies dir`poison, dir`st
      ensures Valid() && dir.poison == None
      ensures dir.st == old(dir.st).(log := old(dir.st.log).(poison := None, replay := Idle))
    {
      hide NextState, Reachable, FileRep, LossRep, OffsetRep, PoisonRep;
      AbortStep(dir.st);
      dir.RemovePoison(Abort, dir.st.(log := dir.st.log.(poison := None, replay := Idle)));
    }

    /** `truncate` of a drained spool: the file first, then the cursor. */
    method Truncate()
      requires Valid() && dir.st.log.replay == Idle && count == 0
      modifies this`bytes, this`unsynced, this`replayOffset, dir`spool, dir`synced, dir`torn, dir`offset, dir`st
      ensures Valid() && bytes == 0 && replayOffset == 0
      ensures dir.spool == Some(FileHeader()) && dir.offset == Some(OffsetFile(0))
      ensures dir.st == old(dir.st).(log := old(EmptyFile(dir.st.log)).(offset := 0))
    {
      hide NextState, Reachable, FileRep, LossRep, OffsetRep, PoisonRep, OffsetFile, FileHeader;
      ghost var s := dir.st;
      TruncateSteps(s);
      dir.CutToHeader(TruncateFile, s.(log := EmptyFile(s.log).(truncating := true)));
      bytes, unsynced := 0, 0;
      dir.PutOffset(0, ResetCursor, s.(log := EmptyFile(s.log).(offset := 0)));
      replayOffset := 0;
    }

    // ----- Reading -----

    /** `read_all`: every record from the cursor on. */
    method ReadAll() returns (r: Result<seq<AuditRecord>>)
      requires Valid()
      ensures r == Ok(Unread())
    {
      hide NextState, Reachable, LossRep, OffsetRep, PoisonRep, FileRep, TotalLen, UnreadRecords;
      ReachableShape(dir.st);
      UnreadOfSpool(dir.spool.value, dir.torn, dir.st.log);
      r := ReadFrom(dir.spool.value, replayOffset);
    }

    /** `read_replay_batch`: at most 64 records from the cursor on, with their frame lengths, decoding
        nothing before it. */
    method ReadReplayBatch() returns (r: Result<seq<(AuditRecord, nat)>>)
      requires Valid()
      ensures r.Ok? && |r.value| == (if count < 64 then count else 64)
      ensures forall i :: 0 <= i < |r.value| ==> r.value[i] == (Unread()[i], dir.st.log.file[dir.st.log.read + i].len)
    {
      hide NextState, Reachable, LossRep, OffsetRep, PoisonRep, FileRep, TotalLen, UnreadRecords, ReadFrames;
      ReachableShape(dir.st);
      BatchRefinesScan(dir.spool.value, dir.st.log, if count < REPLAY_BATCH_RECORDS then count else REPLAY_BATCH_RECORDS);
      r := ReadBatch(dir.spool.value[HEADER_LEN + replayOffset..]);
    }
  }

  lemma MarkerKeys(batch: Losses, headers: seq<Header>)
    requires TextKeys(headers)
    ensures TextKeys(RecordsLostRecord(batch, headers).headers)
  {
    Utf8.AsciiIsText(Numerals.Ascii("event_class"));
  }

  lemma AbandonStep(s: State)
    requires FlowReady(s) && s.ledger.flow.Persisted?
    ensures NextState(s, AbandonMarker) == Some(s.(ledger := s.ledger.(flow := NoFlow)))
  {
  }

  /** A batch read back from a reachable snapshot is one its marker can report. */
  lemma MarkerOf(s: State, batch: Losses, headers: seq<Header>)
    requires Reachable(s) && s.ledger.flow == Persisted(batch) && TextKeys(headers)
    ensures LossMarkerBatch(RecordsLostRecord(batch, headers)) == Some(batch)
    ensures TextKeys(RecordsLostRecord(batch, headers).headers)
  {
    hide Reachable;
    ReachableShape(s);
    MarkerRoundTrip(batch, headers);
    MarkerKeys(batch, headers);
  }

  lemma AppendedFields(l: Log, e: Entry)
    requires l.synced <= |l.file|
    ensures var m := AppendedTo(l, e);
      !m.due && m.synced <= |m.file| && m.truncating == l.truncating && m.replay == l.replay
  {
  }

  /** The log once the marker `m` is appended and synced. */
  predicate MarkerLogged(before: Log, after: Log, m: AuditRecord) {
    before.synced <= |before.file| && after == SyncLog(AppendedTo(before, EntryOf(m)))
  }

  /** The append `a` of `record` is the writer's next step and fits. */
  ghost predicate CanAppend(s: State, record: AuditRecord, a: Action) {
    && s.phase == Open && Encodable(record) && s.log.synced <= |s.log.file| && Fits(s.log, EntryOf(record))
    && (|| (a == Append(EntryOf(record)) && WriterReady(s) && EntryOf(record).marker == None)
        || (a == AppendMarker(EntryOf(record)) && FlowReady(s) && s.ledger.flow.Persisted?
            && EntryOf(record).marker == Some(s.ledger.flow.batch)))
  }

  /** The state once `record` is appended, and synced when its cadence calls for it. */
  function Written(s: State, record: AuditRecord, a: Action): State
    requires s.log.synced <= |s.log.file| && (a.Append? || s.ledger.flow.Persisted?)
  {
    State(Open, AppendedTo(s.log, EntryOf(record)),
          if a.Append? then s.ledger else s.ledger.(flow := Appended(s.ledger.flow.batch)))
  }

  lemma AppendCounts(l: Log, e: Entry)
    requires l.synced <= |l.file|
    ensures var d, l' := AppendDecision(TotalLen(l.file), e.len, l.maxBytes, l.unsynced, l.syncEvery), AppendedTo(l, e);
      && l'.file == l.file + [e] && TotalLen(l'.file) == TotalLen(l.file) + e.len
      && l'.read == l.read && l'.offset == l.offset && l'.maxBytes == l.maxBytes && l'.syncEvery == l.syncEvery
      && (d.accepted ==> l'.unsynced == d.nextUnsynced) && AppendTo(l, e).due == d.sync
  {
    assert (l.file + [e])[..|l.file|] == l.file;
  }

  lemma AppendedUnread(l: Log, r: AuditRecord)
    requires l.read <= |l.file| && l.synced <= |l.file|
    ensures var l' := AppendedTo(l, EntryOf(r));
      l'.read <= |l'.file| && Records(l'.file[l'.read..]) == Records(l.file[l.read..]) + [r]
  {
    var l' := AppendedTo(l, EntryOf(r));
    assert l'.file[l'.read..] == l.file[l.read..] + [EntryOf(r)];
  }
}
