/** Whole lives of a spool from an empty directory: every call's precondition is met along the way. */
module SpoolScenarios {
  import opened Bytes
  import opened AuditCodec
  import opened LossLedger
  import opened LossMarker
  import opened SpoolProtocol
  import opened SpoolSafety
  import opened SpoolTheorems
  import opened SpoolFiles
  import opened SpoolReader
  import opened SpoolStore
  import opened AuditSpool
  import opened SpoolReplay
  import opened SpoolOpen

  predicate Spoolable(record: AuditRecord, maxBytes: nat) {
    Encodable(record) && LossMarkerBatch(record) == None && FrameLen(record) <= maxBytes <= U64_MAX
  }

  /** A fresh spool with one durable record. */
  method SpoolOne(record: AuditRecord, maxBytes: nat) returns (spool: Spool)
    requires Spoolable(record, maxBytes)
    ensures fresh(spool) && fresh(spool.pending) && fresh(spool.dir)
    ensures Ready(spool) && spool.count == 1 && Exact(spool.dir.st) && spool.pending.state == Losses(0, 0)
    ensures spool.dir.st.log.file == [EntryOf(record)] && spool.dir.st.log.read == 0 && spool.dir.st.log.delivered == []
  {
    hide Reachable, NextState, FileRep, LossRep, OffsetRep, PoisonRep, Encodable, FrameBytes, OpenVerdict, Records, EntryOf;
    var dir := new Directory();
    FreshRecovers(maxBytes, 1);
    var r := OpenSpool(dir, maxBytes, 1);
    spool := r.value;
    EncodableKeys(record);
    var appended := spool.Append(record);
  }

  lemma EncodableKeys(r: AuditRecord)
    requires Encodable(r)
    ensures TextKeys(r.headers)
  {
  }

  lemma FreshRecovers(maxBytes: nat, every: nat)
    ensures var s := Initial();
      && !Barred(s.log) && s.log.synced <= |s.log.file|
      && var t := Recovered(s, maxBytes, every);
      && t.log.file == [] && t.log.synced == 0 && t.log.read == 0 && t.log.delivered == [] && t.log.replay == Idle
      && t.ledger.memory == Losses(0, 0) && t.log.unsynced == 0 && Exact(t)
  {
  }

  /** A record the sink accepts is delivered once, and the spool is empty again. */
  method DeliverOne(record: AuditRecord, maxBytes: nat) returns (spool: Spool)
    requires Spoolable(record, maxBytes)
    ensures spool.Valid() && spool.count == 0 && spool.bytes == 0
    ensures spool.dir.st.log.delivered == [EntryOf(record)] && spool.dir.st.log.file == []
  {
    hide Reachable, NextState, FileRep, LossRep, OffsetRep, PoisonRep, Encodable, FrameBytes, Records, EntryOf;
    spool := SpoolOne(record, maxBytes);
    var l := spool.dir.st.log;
    var r, spooling := TryReplay(spool, _ => Accepted);
    assert l.delivered + l.file[0..1] == [EntryOf(record)];
  }

  /** A record the sink may or may not have taken stops the spool at the next open, with the record still
      in its file. */
  method DoubtStops(record: AuditRecord, maxBytes: nat, landed: bool) returns (r: Result<Spool>)
    requires Spoolable(record, maxBytes)
    ensures r == Err(Poisoned)
  {
    hide Reachable, NextState, FileRep, LossRep, OffsetRep, PoisonRep, Encodable, FrameBytes, Records, EntryOf;
    var spool := SpoolOne(record, maxBytes);
    var replayed, spooling := TryReplay(spool, _ => Uncertain(landed));
    SyncedWithin(spool.dir.spool.value, spool.dir.st.log.file, spool.dir.st.log.synced);
    r := CrashAndReopen(spool, spool.dir.synced, maxBytes, 1);
  }

  /** A loss is declared by a marker, and until then is pending. */
  method DeclareLoss(record: AuditRecord, maxBytes: nat) returns (spool: Spool, marker: Result<Option<AuditRecord>>)
    requires Spoolable(record, maxBytes)
    ensures spool.Valid()
    ensures marker.Ok? ==> marker.value.Some? && spool.pending.state == Losses(1, 0) && spool.count == 2
    ensures marker.Err? ==> spool.pending.state == Losses(1, 1) && spool.count == 1
  {
    hide Reachable, NextState, FileRep, LossRep, OffsetRep, PoisonRep, Encodable, FrameBytes, Records, EntryOf, LossFile;
    spool := SpoolOne(record, maxBytes);
    spool.pending.Add(1);
    spool.pending.Persist([]);
    marker := spool.PersistWith([], Arrivals([], [], [], [], [], []));
  }

  /** An append that its cadence does not sync. */
  method AppendUnsynced(spool: Spool, record: AuditRecord)
    requires Ready(spool) && Spoolable(record, spool.maxBytes)
    requires spool.unsynced + 1 < spool.syncEvery && spool.bytes + FrameLen(record) <= spool.maxBytes
    modifies spool`bytes, spool`count, spool`unsynced, spool.dir`spool, spool.dir`synced, spool.dir`st
    ensures Ready(spool) && spool.count == old(spool.count) + 1 && spool.unsynced == old(spool.unsynced) + 1
    ensures spool.bytes == old(spool.bytes) + FrameLen(record)
    ensures var (l, m) := (old(spool.dir.st.log), spool.dir.st.log);
      m.file == l.file + [EntryOf(record)] && m.synced == l.synced && m.read == l.read
  {
    hide Reachable, NextState, FileRep, LossRep, OffsetRep, PoisonRep, Encodable, FrameBytes, Records, EntryOf, AppendedTo;
    EncodableKeys(record);
    var appended := spool.Append(record);
    EntryLength(record);
    UnsyncedFields(old(spool.dir.st.log), EntryOf(record));
  }

  lemma UnsyncedFields(l: Log, e: Entry)
    requires l.synced <= |l.file| && Fits(l, e) && l.unsynced + 1 < l.syncEvery
    ensures AppendedTo(l, e) == l.(file := l.file + [e], due := false, unsynced := l.unsynced + 1)
    ensures TotalLen(AppendedTo(l, e).file) == TotalLen(l.file) + e.len
  {
    assert (l.file + [e])[..|l.file|] == l.file;
  }

  /** A cadence above one can cost the spool: three records are appended and not synced, the sink takes two,
      and a crash keeps the first frame alone. The cursor is past it, and the spool does not open again. */
  method ReplayAheadOfSync(a: AuditRecord, b: AuditRecord, c: AuditRecord, maxBytes: nat) returns (r: Result<Spool>)
    requires Spoolable(a, maxBytes) && Spoolable(b, maxBytes) && Spoolable(c, maxBytes)
    requires FrameLen(a) + FrameLen(b) + FrameLen(c) <= maxBytes
    ensures r == Err(Io)
  {
    hide Reachable, NextState, FileRep, LossRep, OffsetRep, PoisonRep, Encodable, FrameBytes, Records, EntryOf, OpenVerdict, OpenedFrom;
    var dir := new Directory();
    FreshRecovers(maxBytes, 4);
    var result := OpenSpool(dir, maxBytes, 4);
    var spool := result.value;
    AppendUnsynced(spool, a);
    AppendUnsynced(spool, b);
    AppendUnsynced(spool, c);
    r := TakeTwoAndCrash(spool, a, b, c);
  }

  method TakeTwoAndCrash(spool: Spool, a: AuditRecord, b: AuditRecord, c: AuditRecord) returns (r: Result<Spool>)
    requires Ready(spool) && spool.count == 3 && spool.maxBytes <= U64_MAX
    requires spool.dir.st.log.synced == spool.dir.st.log.read == 0 && spool.dir.st.log.file == [EntryOf(a), EntryOf(b), EntryOf(c)]
    modifies spool, spool.dir
    ensures r == Err(Io)
  {
    hide Reachable, NextState, LossRep, OffsetRep, PoisonRep, Encodable, FrameBytes, Records, EntryOf, WholeFrames, Body;
    var reply := k => if k < 2 then Accepted else Refused;
    assert Taken(reply, 2, 1) == 0 && Taken(reply, 1, 2) == 1 && Taken(reply, 0, 3) == 2;
    var replayed, spooling := TryReplay(spool, reply);
    ghost var l := spool.dir.st.log;
    CutAtFrame(l.file, 1);
    assert l.file[..1] == [EntryOf(a)] && TotalLen(l.file[..1]) == FrameLen(a) by { EntryLength(a); }
    SyncedWithin(spool.dir.spool.value, l.file, 1);
    r := CrashAndReopen(spool, HEADER_LEN + FrameLen(a), spool.maxBytes, 1);
  }
}
