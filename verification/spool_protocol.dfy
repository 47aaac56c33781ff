/** The audit spool as a step system: appends, syncs, replay, truncation, the loss-marker flow,
    concurrent losses, crashes and recovery, with no bound on any of them. Each step makes at most
    one durable write, so a crash can fall between any two. */
module SpoolProtocol {
  import opened Bytes
  import opened AuditCodec
  import opened LossLedger

  /** One frame of the spool file: the record, its frame length, and the losses it reports if it is
      a records-lost marker. */
  datatype Entry = Entry(record: AuditRecord, len: nat, marker: Option<Losses>)

  datatype Phase = Closed | Open | Stopped
  datatype Replay = Idle | Begun | Delivered | CursorCommitted
  datatype Poison = Poison(at: nat, entry: Entry)

  /** The spool file, its replay cursor and poison, and the open spool's bookkeeping.
      `adrift` says that a crash left the cursor past every frame of a file that still has some.
      `admitted` and `delivered` are history: every entry that became durable in the spool, or that the
      sink took before it did, every entry the sink took, in order, and how many the cursor passed. */
  datatype Log = Log(
    file: seq<Entry>, synced: nat, read: nat, offset: nat,
    poison: Option<Poison>, replay: Replay, adrift: bool,
    due: bool, unsynced: nat, truncating: bool,
    maxBytes: nat, syncEvery: nat,
    admitted: seq<Entry>, delivered: seq<Entry>, committed: nat)

  /** Where the writer's `persist`, `persist_with` or `commit` call is. Each copies the state under
      the lock (`image`) and writes the copy afterwards, so a loss can land between the two. */
  datatype Flow =
    | NoFlow
    | Copied(image: Losses)
    | Snapshotted(batch: Losses)
    | SnapshotCopied(batch: Losses, image: Losses)
    | Persisted(batch: Losses)
    | Appended(batch: Losses)
    | MarkerSynced(batch: Losses)
    | Committed(batch: Losses, image: Losses)

  /** `memory` is `PendingLosses`, `sidecar` the `audit.losses` file. History: every loss so far,
      those added since the last written copy, since the last copy taken, those only memory held at
      a crash, those durably settled against a marker, calls that added none, and whether every counter
      has stayed below its last value so far. */
  datatype Ledger = Ledger(
    memory: Losses, sidecar: Losses, flow: Flow,
    lossEvents: nat, unpersisted: nat, sinceImage: nat, forgotten: nat, accounted: nat, idleAdds: nat, exact: bool)

  datatype State = State(phase: Phase, log: Log, ledger: Ledger)

  datatype Action =
    | Append(entry: Entry) | SyncDue | Sync
    | BeginReplay | Deliver | Abort | CommitCursor | ClearPoison
    | TruncateFile | ResetCursor
    | Lose(n: nat)
    | CopyLosses | WriteLosses
    | Snapshot | CopySnapshot | WriteSnapshot | AppendMarker(entry: Entry) | AbandonMarker
    | SyncMarker | CommitMarker | WriteCommit
    | Crash(keep: nat)
    | ClearStalePoison | Refuse | Reconcile | FinishOpen(maxBytes: nat, syncEvery: nat)

  // ----- Pieces of the state -----

  function TotalLen(es: seq<Entry>): nat {
    if es == [] then 0 else TotalLen(es[..|es| - 1]) + es[|es| - 1].len
  }

  function Markers(es: seq<Entry>): seq<Losses> {
    if es == [] then []
    else
      var last := es[|es| - 1];
      Markers(es[..|es| - 1]) + (if last.marker.Some? then [last.marker.value] else [])
  }

  /** `spool_append_decision`. */
  datatype Decision = Decision(accepted: bool, newBytes: nat, sync: bool, nextUnsynced: nat)

  function AppendDecision(bytes: nat, frame: nat, max: nat, unsynced: nat, every: nat): Decision {
    if bytes > max || frame > max - bytes then Decision(false, bytes, false, unsynced)
    else
      var next := unsynced + 1;
      Decision(true, bytes + frame, next >= every, if next >= every then 0 else next)
  }

  predicate Fits(l: Log, e: Entry) {
    e.len >= 4 && AppendDecision(TotalLen(l.file), e.len, l.maxBytes, l.unsynced, l.syncEvery).accepted
  }

  function AppendTo(l: Log, e: Entry): Log {
    var d := AppendDecision(TotalLen(l.file), e.len, l.maxBytes, l.unsynced, l.syncEvery);
    l.(file := l.file + [e], due := d.sync, unsynced := if d.sync then l.unsynced else d.nextUnsynced)
  }

  /** The first `n` frames are on stable storage from now on. */
  function Admit(l: Log, n: nat): Log
    requires l.synced <= n <= |l.file|
  {
    l.(synced := n, admitted := l.admitted + l.file[l.synced..n])
  }

  function SyncLog(l: Log): Log
    requires l.synced <= |l.file|
  {
    Admit(l, |l.file|).(due := false, unsynced := 0)
  }

  /** Every entry the spool has room for in its history: the admitted ones, then those still volatile. */
  function Live(l: Log): seq<Entry>
    requires l.synced <= |l.file|
  {
    l.admitted + l.file[l.synced..]
  }

  /** How many live entries the persisted cursor has passed. */
  function CommittedCount(l: Log): int { |l.admitted| - l.synced + l.read }

  /** The frames up to here have gone to the sink. */
  function TakenTo(l: Log): nat { if l.replay == Delivered then l.read + 1 else l.read }

  function DurableMarkers(s: State): seq<Losses> { Markers(s.log.admitted) }

  /** The durable marker of the sidecar's generation, while the sidecar still counts its losses. */
  function PendingIn(markers: seq<Losses>, sidecar: Losses): Option<Losses> {
    if sidecar.count > 0 then Find(markers, sidecar.generation) else None
  }

  function PendingMarker(s: State): Option<Losses>
    requires s.log.synced <= |s.log.file|
  {
    PendingIn(Markers(s.log.file[..s.log.synced]), s.ledger.sidecar)
  }

  function Drained(l: Log): bool { l.read == |l.file| }

  // ----- Steps -----

  /** The writer is serial: it starts nothing while an append, truncation or loss write is under way. */
  predicate WriterReady(s: State) {
    s.phase == Open && s.ledger.flow == NoFlow && !s.log.due && !s.log.truncating
  }

  predicate FlowReady(s: State) { s.phase == Open && !s.log.due && !s.log.truncating }

  /** Recovery is under way, past the cursor check. */
  predicate Recovering(s: State) { s.phase == Closed && s.log.synced == |s.log.file| && !s.log.adrift }

  /** `open` fails: the cursor is past the frames, or a poison is not behind it. */
  predicate Barred(l: Log) { l.adrift || (l.poison.Some? && l.poison.value.at >= l.offset) }

  predicate Enabled(s: State, a: Action) {
    var (l, g) := (s.log, s.ledger);
    match a
    case Append(e) => WriterReady(s) && Fits(l, e) && e.marker == None
    case SyncDue => s.phase == Open && l.due && l.synced <= |l.file|
    case Sync => WriterReady(s) && l.synced <= |l.file|
    case BeginReplay => WriterReady(s) && l.replay == Idle && l.read < |l.file|
    case Deliver => WriterReady(s) && l.replay == Begun && l.read < |l.file|
    case Abort => WriterReady(s) && l.replay == Begun
    case CommitCursor => WriterReady(s) && l.replay == Delivered && l.read < |l.file|
    case ClearPoison => WriterReady(s) && l.replay == CursorCommitted
    case TruncateFile =>
      Drained(l) && l.synced <= |l.file| && (
        || (WriterReady(s) && l.replay == Idle)
        || (Recovering(s) && l.poison == None))
    case ResetCursor =>
      l.file == [] && (
        || (s.phase == Open && l.truncating)
        || (Recovering(s) && l.poison == None))
    case Lose(n) => s.phase == Open
    case CopyLosses => WriterReady(s)
    case WriteLosses => FlowReady(s) && g.flow.Copied?
    case Snapshot => WriterReady(s) && g.memory.count > 0
    case CopySnapshot => FlowReady(s) && g.flow.Snapshotted?
    case WriteSnapshot => FlowReady(s) && g.flow.SnapshotCopied?
    case AppendMarker(e) => FlowReady(s) && g.flow.Persisted? && Fits(l, e) && e.marker == Some(g.flow.batch)
    case AbandonMarker => FlowReady(s) && g.flow.Persisted?
    case SyncMarker => FlowReady(s) && g.flow.Appended? && l.synced <= |l.file|
    case CommitMarker => FlowReady(s) && g.flow.MarkerSynced?
    case WriteCommit => FlowReady(s) && g.flow.Committed?
    case Crash(keep) => s.phase == Open && l.synced <= keep <= |l.file| && TakenTo(l) <= |l.file|
    case ClearStalePoison => Recovering(s) && l.poison.Some? && l.poison.value.at < l.offset
    case Refuse => s.phase == Closed && Barred(l)
    case Reconcile => Recovering(s) && l.poison == None && PendingMarker(s).Some?
    case FinishOpen(max, every) =>
      && Recovering(s) && l.poison == None && (PendingMarker(s) == None || !g.exact)
      && !(Drained(l) && l.offset > 0)
      && max <= U64_MAX && 0 < every <= U64_MAX
  }

  /** Synced bytes survive a crash, and some prefix of the rest, which is durable from then on. A cursor
      past the frames that survive is at rest only if none do. */
  function CrashLog(l: Log, keep: nat): Log
    requires l.synced <= keep <= |l.file| && TakenTo(l) <= |l.file|
  {
    var known := if keep < TakenTo(l) then TakenTo(l) else keep;
    l.(file := l.file[..keep], synced := keep, admitted := l.admitted + l.file[l.synced..known],
       read := if keep < l.read then keep else l.read, adrift := 0 < keep < l.read,
       due := false, unsynced := 0, truncating := false, replay := Idle)
  }

  /** `set_len` to the header: whatever was still volatile had gone to the sink. */
  function EmptyFile(l: Log): Log
    requires l.synced <= |l.file|
  {
    l.(file := [], synced := 0, read := 0, unsynced := 0, admitted := Live(l))
  }

  /** The cursor passes the frame at it. */
  function CursorPast(l: Log): Log
    requires l.read < |l.file|
  {
    l.(offset := l.offset + l.file[l.read].len, read := l.read + 1, committed := l.committed + 1, replay := CursorCommitted)
  }

  /** Memory is gone: the flow with it, and the losses no sidecar write had reached. */
  function CrashLedger(g: Ledger): Ledger {
    g.(memory := g.sidecar, flow := NoFlow, unpersisted := 0, sinceImage := 0, forgotten := g.forgotten + g.unpersisted)
  }

  /** `PendingLosses::add`. */
  function Lost(g: Ledger, n: nat): Ledger {
    g.(memory := AddLossState(g.memory, n), lossEvents := g.lossEvents + n,
       unpersisted := g.unpersisted + n, sinceImage := g.sinceImage + n,
       idleAdds := g.idleAdds + (if n == 0 then 1 else 0), exact := g.exact && Unsaturated(g.memory, n))
  }

  /** A settlement in memory; the generation a remainder moves to must not be the last. */
  function InMemory(g: Ledger, settled: Losses): Ledger { g.(memory := settled, exact := g.exact && settled.generation < U64_MAX) }

  /** `reconcile` of the sidecar just read against the marker found for it, if any. */
  function Reconciled(g: Ledger, pending: Option<Losses>): Ledger {
    if pending == None then g
    else
      var settled := SettledAgainst(g.sidecar, pending);
      InMemory(g, settled).(sidecar := settled, accounted := g.accounted + pending.value.count)
  }

  /** `persist_loss_state` of a copy of the in-memory state. */
  function WriteImage(g: Ledger, image: Losses, next: Flow): Ledger {
    g.(sidecar := image, unpersisted := g.sinceImage, flow := next)
  }

  function Next(s: State, a: Action): State
    requires Enabled(s, a)
  {
    var (l, g) := (s.log, s.ledger);
    match a
    case Append(e) => s.(log := AppendTo(l, e))
    case SyncDue => s.(log := SyncLog(l))
    case Sync => s.(log := SyncLog(l))
    case BeginReplay => s.(log := l.(poison := Some(Poison(l.offset, l.file[l.read])), replay := Begun))
    case Deliver => s.(log := l.(delivered := l.delivered + [l.file[l.read]], replay := Delivered))
    case Abort => s.(log := l.(poison := None, replay := Idle))
    case CommitCursor => s.(log := CursorPast(l))
    case ClearPoison => s.(log := l.(poison := None, replay := Idle))
    case TruncateFile => s.(log := EmptyFile(l).(truncating := s.phase == Open))
    case ResetCursor => s.(log := l.(offset := 0, truncating := false))
    case Lose(n) => s.(ledger := Lost(g, n))
    case CopyLosses => s.(ledger := g.(flow := Copied(g.memory), sinceImage := 0))
    case WriteLosses => s.(ledger := WriteImage(g, g.flow.image, NoFlow))
    case Snapshot => s.(ledger := g.(flow := Snapshotted(g.memory)))
    case CopySnapshot => s.(ledger := g.(flow := SnapshotCopied(g.flow.batch, g.memory), sinceImage := 0))
    case WriteSnapshot => s.(ledger := WriteImage(g, g.flow.image, Persisted(g.flow.batch)))
    case AppendMarker(e) => s.(log := AppendTo(l, e), ledger := g.(flow := Appended(g.flow.batch)))
    case AbandonMarker => s.(ledger := g.(flow := NoFlow))
    case SyncMarker => s.(log := SyncLog(l), ledger := g.(flow := MarkerSynced(g.flow.batch)))
    case CommitMarker =>
      var settled := SettleLossBatch(g.memory, g.flow.batch);
      s.(ledger := InMemory(g, settled).(flow := Committed(g.flow.batch, settled), sinceImage := 0))
    case WriteCommit =>
      s.(ledger := WriteImage(g, g.flow.image, NoFlow).(accounted := g.accounted + g.flow.batch.count))
    case Crash(keep) =>
      State(Closed, CrashLog(l, keep), CrashLedger(g))
    case ClearStalePoison => s.(log := l.(poison := None))
    case Refuse => s.(phase := Stopped)
    case Reconcile => s.(ledger := Reconciled(g, PendingMarker(s)))
    case FinishOpen(max, every) =>
      s.(phase := Open, log := l.(maxBytes := max, syncEvery := every, unsynced := 0, replay := Idle))
  }

  /** The state after an action, or `None` when the action cannot happen. */
  function NextState(s: State, a: Action): Option<State> {
    if Enabled(s, a) then Some(Next(s, a)) else None
  }

  /** An empty directory that no process has opened yet. */
  function Initial(): State {
    State(Closed, Log([], 0, 0, 0, None, Idle, false, false, 0, false, 0, 1, [], [], 0),
          Ledger(Losses(0, 0), Losses(0, 0), NoFlow, 0, 0, 0, 0, 0, 0, true))
  }

  predicate Legal(trace: seq<Action>)
    decreases |trace|, 0
  {
    trace == [] || (Legal(trace[..|trace| - 1]) && Enabled(Run(trace[..|trace| - 1]), trace[|trace| - 1]))
  }

  /** The state a legal trace of actions leads to. */
  function Run(trace: seq<Action>): State
    requires Legal(trace)
    decreases |trace|, 1
  {
    if trace == [] then Initial() else Next(Run(trace[..|trace| - 1]), trace[|trace| - 1])
  }

  lemma RunStep(trace: seq<Action>, a: Action)
    requires Legal(trace) && Enabled(Run(trace), a)
    ensures Legal(trace + [a]) && Run(trace + [a]) == Next(Run(trace), a)
  {
    assert (trace + [a])[..|trace|] == trace;
  }
}
