/** The spool directory. Each durable write the spool makes is one method here and one step of the
    protocol, so what `SpoolTheorems` says of all runs holds of the bytes at every moment. */
module SpoolStore {
  import opened Bytes
  import opened AuditCodec
  import opened LossLedger
  import opened SpoolProtocol
  import opened SpoolSafety
  import opened SpoolTheorems
  import opened SpoolFiles

  ghost predicate Reachable(s: State) { exists trace :: Legal(trace) && Run(trace) == s }

  lemma ReachableStep(s: State, a: Action)
    requires Reachable(s) && Enabled(s, a)
    ensures Reachable(Next(s, a))
  {
    var trace :| Legal(trace) && Run(trace) == s;
    RunStep(trace, a);
  }

  lemma ReachableInv(s: State)
    requires Reachable(s)
    ensures Inv(s)
  {
    var trace :| Legal(trace) && Run(trace) == s;
    InvOfRun(trace);
  }

  /** The parts of the invariant that the byte level needs. */
  lemma ReachableShape(s: State)
    requires Reachable(s)
    ensures Shape(s.log) && CursorInv(s.phase, s.log) && PoisonInv(s.phase, s.log) && SyncInv(s.phase, s.log)
    ensures RangeInv(s.phase, s.ledger)
  {
    ReachableInv(s);
  }

  /** What `SpoolTheorems` proves of every run therefore holds of every state a directory is ever in. */
  lemma ReachablePromises(s: State)
    requires Reachable(s)
    ensures Shape(s.log) && s.log.delivered <= Live(s.log) && s.log.committed <= |s.log.delivered| <= s.log.committed + 1
    ensures s.phase == Open ==> Live(s.log)[..s.log.committed] + s.log.file[s.log.read..] == Live(s.log)
    ensures Exact(s) ==>
      s.ledger.lossEvents == s.ledger.accounted + s.ledger.sidecar.count + s.ledger.unpersisted + s.ledger.forgotten
    ensures Exact(s) ==> StrictlyNewer(DurableMarkers(s)) && s.ledger.accounted <= Reported(DurableMarkers(s))
  {
    hide Legal, Run, Shape, DurableMarkers, Reported, CommittedCount;
    var trace :| Legal(trace) && Run(trace) == s;
    AtMostOnceInOrder(trace);
    if Exact(s) {
      LossesAccounted(trace);
      MarkerGenerationsIncrease(trace);
      MarkersSettledOnce(trace);
    }
  }

  /** The part of a protocol state that the directory's files hold. */
  datatype Disk = Disk(file: seq<Entry>, offset: nat, poison: Option<Poison>, sidecar: Losses)

  function DiskOf(s: State): Disk { Disk(s.log.file, s.log.offset, s.log.poison, s.ledger.sidecar) }

  /** Four files, and how much of the spool file is on stable storage. */
  class Directory {
    var spool: Option<seq<u8>>
    var synced: nat
    var losses: Option<seq<u8>>
    var offset: Option<seq<u8>>
    var poison: Option<seq<u8>>
    ghost var st: State
    ghost var torn: seq<u8>

    ghost predicate Holds(d: Disk)
      reads this
    {
      && FileRep(spool, torn, d.file) && LossRep(losses, d.sidecar)
      && OffsetRep(offset, d.offset) && PoisonRep(poison, d.poison)
    }

    /** While the spool is open its file has no torn tail, and the OS holds the synced frames; what a
        crash left is on stable storage. */
    ghost predicate Flushed()
      reads this
    {
      match st.phase
      case Open =>
        && spool.Some? && torn == [] && st.log.synced <= |st.log.file|
        && synced == HEADER_LEN + TotalLen(st.log.file[..st.log.synced])
      case Closed => spool.Some? ==> synced == |spool.value|
      case Stopped => true
    }

    /** The bytes stand for a state that some run of the protocol reaches. */
    ghost predicate Valid()
      reads this
    {
      Reachable(st) && Holds(DiskOf(st)) && Flushed()
    }

    /** A directory recovery can work on: nothing is open. */
    ghost predicate AtRest()
      reads this
    {
      Valid() && st.phase == Closed
    }

    constructor ()
      ensures AtRest() && st == Initial()
      ensures spool == None && losses == None && offset == None && poison == None
    {
      spool, synced, losses, offset, poison := None, 0, None, None, None;
      st, torn := Initial(), [];
      new;
      assert Legal([]) && Run([]) == Initial();
    }

    /** A protocol step is taken; the bytes it writes are written by the caller. */
    ghost method Take(a: Action)
      requires Reachable(st) && NextState(st, a).Some?
      modifies this`st
      ensures Reachable(st) && Some(st) == old(NextState(st, a))
    {
      ReachableStep(st, a);
      st := Next(st, a);
    }

    /** A step that writes nothing. */
    ghost method Step(a: Action, next: State)
      requires Valid() && NextState(st, a) == Some(next)
      requires DiskOf(next) == DiskOf(st) && next.phase == st.phase && next.log.synced == st.log.synced
      modifies this`st
      ensures Valid() && st == next
    {
      hide NextState, FileRep, LossRep, OffsetRep, PoisonRep, Reachable;
      Take(a);
    }

    /** `persist_loss_state`. */
    method PutLosses(state: Losses, ghost a: Action, ghost next: State)
      requires Valid() && NextState(st, a) == Some(next)
      requires DiskOf(next) == DiskOf(st).(sidecar := state)
      requires next.phase == st.phase && next.log.synced == st.log.synced
      modifies this`losses, this`st
      ensures Valid() && st == next && losses == Some(LossFile(state))
    {
      hide NextState, FileRep, OffsetRep, PoisonRep, Reachable, LossFile;
      losses := Some(LossFile(state));
      Take(a);
    }

    /** `persist_u64` of the replay cursor. */
    method PutOffset(value: nat, ghost a: Action, ghost next: State)
      requires Valid() && NextState(st, a) == Some(next)
      requires DiskOf(next) == DiskOf(st).(offset := value)
      requires next.phase == st.phase && next.log.synced == st.log.synced
      modifies this`offset, this`st
      ensures Valid() && st == next && offset == Some(OffsetFile(value))
    {
      hide NextState, FileRep, LossRep, PoisonRep, Reachable, OffsetFile;
      offset := Some(OffsetFile(value));
      Take(a);
    }

    method PutPoison(at: nat, record: AuditRecord, ghost a: Action, ghost next: State)
      requires Valid() && NextState(st, a) == Some(next) && Encodable(record)
      requires DiskOf(next) == DiskOf(st).(poison := Some(Poison(at, EntryOf(record))))
      requires next.phase == st.phase && next.log.synced == st.log.synced
      modifies this`poison, this`st
      ensures Valid() && st == next && poison == Some(PoisonFile(at, record))
    {
      hide NextState, FileRep, LossRep, OffsetRep, Reachable, PoisonFile;
      poison := Some(PoisonFile(at, record));
      Take(a);
    }

    /** `clear_replay_poison`. */
    method RemovePoison(ghost a: Action, ghost next: State)
      requires Valid() && NextState(st, a) == Some(next)
      requires DiskOf(next) == DiskOf(st).(poison := None)
      requires next.phase == st.phase && next.log.synced == st.log.synced
      modifies this`poison, this`st
      ensures Valid() && st == next && poison == None
    {
      hide NextState, FileRep, LossRep, OffsetRep, Reachable;
      poison := None;
      Take(a);
    }

    /** A frame written at the end of the open spool file, not yet synced. */
    method WriteFrame(record: AuditRecord, ghost a: Action, ghost next: State)
      requires Valid() && NextState(st, a) == Some(next) && Encodable(record)
      requires st.phase == Open && next.phase == Open && spool.Some?
      requires DiskOf(next) == DiskOf(st).(file := st.log.file + [EntryOf(record)])
      requires next.log.synced == st.log.synced
      modifies this`spool, this`st
      ensures Valid() && st == next && spool == Some(old(spool.value) + FrameBytes(record))
    {
      hide NextState, FileRep, LossRep, OffsetRep, PoisonRep, Reachable;
      FrameWritten(spool.value, st.log.file, record);
      assert (st.log.file + [EntryOf(record)])[..st.log.synced] == st.log.file[..st.log.synced];
      spool := Some(spool.value + FrameBytes(record));
      Take(a);
    }

    /** `sync_all` of the open spool file. */
    method SyncFile(ghost a: Action, ghost next: State)
      requires Valid() && NextState(st, a) == Some(next)
      requires st.phase == Open && next.phase == Open && spool.Some?
      requires DiskOf(next) == DiskOf(st) && next.log.synced == |st.log.file|
      modifies this`synced, this`st
      ensures Valid() && st == next && synced == |spool.value|
    {
      hide NextState, FileRep, LossRep, OffsetRep, PoisonRep, Reachable;
      FileLength(spool.value, st.log.file);
      assert st.log.file[..|st.log.file|] == st.log.file;
      synced := |spool.value|;
      Take(a);
    }

    /** `set_len` to the header and `sync_all`. */
    method CutToHeader(ghost a: Action, ghost next: State)
      requires Valid() && NextState(st, a) == Some(next) && spool.Some?
      requires next.phase == st.phase && st.phase != Stopped
      requires DiskOf(next) == DiskOf(st).(file := []) && next.log.synced == 0
      modifies this`spool, this`synced, this`torn, this`st
      ensures Valid() && st == next && spool == Some(FileHeader()) && torn == []
    {
      hide NextState, LossRep, OffsetRep, PoisonRep, Reachable;
      EmptySpool();
      spool, synced := Some(FileHeader()), HEADER_LEN;
      torn := [];
      Take(a);
    }

    /** `open` gives up. */
    ghost method Stop()
      requires AtRest() && Barred(st.log)
      modifies this`st
      ensures Valid() && st == old(st).(phase := Stopped)
    {
      hide FileRep, LossRep, OffsetRep, PoisonRep, Reachable;
      Take(Refuse);
    }

    /** A crash at any moment: the synced bytes of the spool file survive, and any part of the rest
        up to a cut at an arbitrary byte. The sidecars are replaced by rename and survive whole. */
    method Crash(cut: nat) returns (ghost keep: nat)
      requires Valid() && st.phase == Open
      requires spool.Some? && synced <= cut <= |spool.value|
      modifies this
      ensures Valid() && st.phase == Closed
      ensures NextState(old(st), Action.Crash(keep)) == Some(st) && keep == WholeFrames(Records(old(st.log.file)), cut - HEADER_LEN)
      ensures spool == Some(old(spool.value)[..cut])
      ensures losses == old(losses) && offset == old(offset) && poison == old(poison)
    {
      hide FileRep, LossRep, OffsetRep, PoisonRep, Reachable, WholeFrames;
      ghost var tail;
      CrashWithin(st);
      keep, tail := CutOfSpool(spool.value, st.log.file, st.log.synced, cut);
      CrashStep(st, keep);
      spool, synced := Some(spool.value[..cut]), cut;
      torn := tail;
      hide NextState;
      Take(Action.Crash(keep));
    }
  }

  lemma CrashStep(s: State, keep: nat)
    requires s.phase == Open && s.log.synced <= keep <= |s.log.file| && TakenTo(s.log) <= |s.log.file|
    ensures NextState(s, Crash(keep)) == Some(State(Closed, CrashLog(s.log, keep), CrashLedger(s.ledger)))
  {
  }

  /** The sink takes only frames of the file. */
  lemma CrashWithin(s: State)
    requires Reachable(s) && s.phase == Open
    ensures TakenTo(s.log) <= |s.log.file|
  {
    hide Reachable;
    ReachableShape(s);
  }

  lemma FrameWritten(spool: seq<u8>, es: seq<Entry>, r: AuditRecord)
    requires FileRep(Some(spool), [], es) && Encodable(r)
    ensures FileRep(Some(spool + FrameBytes(r)), [], es + [EntryOf(r)])
  {
    hide FrameBytes, Body, Encodable;
    BodySnoc(es, r);
    assert Body(es) + [] == Body(es);
    Extended(Body(es), FrameBytes(r));
  }

  lemma Extended(body: seq<u8>, frame: seq<u8>)
    ensures WithHeader(body) + frame == WithHeader(body + frame + [])
  {
  }

  lemma FileLength(spool: seq<u8>, es: seq<Entry>)
    requires FileRep(Some(spool), [], es)
    ensures |spool| == HEADER_LEN + TotalLen(es)
  {
    BodySize(es);
  }

  lemma SyncedWithin(spool: seq<u8>, es: seq<Entry>, n: nat)
    requires FileRep(Some(spool), [], es) && n <= |es|
    ensures HEADER_LEN + TotalLen(es[..n]) <= |spool|
  {
    hide FileRep, TotalLen;
    FileLength(spool, es);
    TotalLenMonotone(es, n, |es|);
    assert es[..|es|] == es;
  }

  lemma EmptySpool()
    ensures FileRep(Some(FileHeader()), [], [])
  {
    assert Records([]) == [];
    assert WithHeader([] + []) == FileHeader();
  }

  lemma CutOfSpool(spool: seq<u8>, es: seq<Entry>, synced: nat, cut: nat) returns (keep: nat, tail: seq<u8>)
    requires FileRep(Some(spool), [], es) && synced <= |es|
    requires HEADER_LEN + TotalLen(es[..synced]) <= cut <= |spool|
    ensures synced <= keep <= |es| && FileRep(Some(spool[..cut]), tail, es[..keep])
    ensures keep == WholeFrames(Records(es), cut - HEADER_LEN)
  {
    hide Body, Genuine;
    var body := Body(es);
    assert body + [] == body;
    keep, tail := CutOfFile(es, synced, cut - HEADER_LEN);
    CutBody(body, cut, Body(es[..keep]), tail);
  }

  lemma CutBody(body: seq<u8>, cut: nat, whole: seq<u8>, tail: seq<u8>)
    requires HEADER_LEN <= cut <= HEADER_LEN + |body| && body[..cut - HEADER_LEN] == whole + tail
    ensures WithHeader(body)[..cut] == WithHeader(whole + tail)
  {
    assert WithHeader(body)[..cut] == FileHeader() + body[..cut - HEADER_LEN];
  }
}
