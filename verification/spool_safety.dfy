/** What every run of the spool protocol keeps. */
module SpoolSafety {
  import opened Bytes
  import opened LossLedger
  import opened SpoolProtocol

  // ----- Sequences of entries -----

  lemma {:induction false} MarkersAppend(a: seq<Entry>, b: seq<Entry>)
    ensures Markers(a + b) == Markers(a) + Markers(b)
  {
    if b == [] {
      assert a + b == a;
    } else {
      assert (a + b)[..|a + b| - 1] == a + b[..|b| - 1];
      MarkersAppend(a, b[..|b| - 1]);
    }
  }

  lemma MarkersSnoc(es: seq<Entry>, e: Entry)
    ensures Markers(es + [e]) == Markers(es) + (if e.marker.Some? then [e.marker.value] else [])
  {
    assert (es + [e])[..|es|] == es;
  }

  lemma TotalLenSnoc(es: seq<Entry>, k: nat)
    requires k < |es|
    ensures TotalLen(es[..k + 1]) == TotalLen(es[..k]) + es[k].len
  {
    assert es[..k + 1][..k] == es[..k];
  }

  lemma {:induction false} TotalLenMonotone(es: seq<Entry>, j: nat, k: nat)
    requires j <= k <= |es|
    ensures TotalLen(es[..j]) <= TotalLen(es[..k])
  {
    if j < k {
      TotalLenMonotone(es, j, k - 1);
      TotalLenSnoc(es, k - 1);
    }
  }

  // ----- The log -----

  predicate PoisonAtCursor(l: Log) { l.poison.Some? && l.poison.value.at == l.offset }

  predicate Framed(es: seq<Entry>) { forall i :: 0 <= i < |es| ==> es[i].len >= 4 }

  predicate Shape(l: Log) {
    && Framed(l.file)
    && l.read <= |l.file| && l.synced <= |l.file|
    && TotalLen(l.file) <= U64_MAX
    && l.maxBytes <= U64_MAX
    && 0 < l.syncEvery
  }

  /** The durable frames are the last entries admitted. */
  predicate Anchored(l: Log) {
    l.synced <= |l.admitted| && l.synced <= |l.file| && l.admitted[|l.admitted| - l.synced..] == l.file[..l.synced]
  }

  /** Nothing is missing: the cursor has its place among the live entries, and the sink holds what it has
      passed, or that and the entry at the cursor. */
  predicate Whole(l: Log) {
    && Anchored(l) && !l.adrift && CommittedCount(l) == l.committed && l.read <= |l.file|
    && (l.delivered == Live(l)[..l.committed] || (l.committed < |Live(l)| && l.delivered == Live(l)[..l.committed + 1]))
  }

  /** The cursor is a frame boundary, except where the file is empty: in the window of a truncation that
      has not yet reset the cursor, or after a crash that lost frames the cursor had passed. If such a
      crash left other frames, the cursor is past them all. */
  predicate CursorInv(p: Phase, l: Log) {
    && l.offset <= U64_MAX
    && (if l.adrift then p != Open && l.file != [] && l.offset > TotalLen(l.file)
        else (|| (l.read <= |l.file| && l.offset == TotalLen(l.file[..l.read]))
              || (l.file == [] && (p == Open ==> l.truncating))))
    && (l.truncating ==> p == Open && l.file == [] && l.replay == Idle && !l.due)
  }

  predicate PoisonInv(p: Phase, l: Log) {
    match p
    case Open =>
      (match l.replay
       case Idle => l.poison == None
       case Begun => PoisonAtCursor(l) && l.read < |l.file|
       case Delivered => PoisonAtCursor(l) && l.read < |l.file|
       case CursorCommitted => l.poison.Some? && l.poison.value.at < l.offset)
    case Closed => l.poison == None || l.poison.value.at <= l.offset
    case Stopped => Barred(l)
  }

  /** At most one delivery is ahead of the cursor, and the poison names it. A spool that will not open may
      have lost frames, but only ones the sink had taken. */
  predicate DeliveryInv(p: Phase, l: Log) {
    && l.committed <= |l.delivered| <= l.committed + 1
    && (|l.delivered| > l.committed ==> PoisonAtCursor(l))
    && match p
       case Open => Whole(l) && (|l.delivered| > l.committed <==> l.replay == Delivered)
       case Closed => Whole(l) || (Barred(l) && l.delivered == l.admitted)
       case Stopped => Whole(l) || l.delivered == l.admitted
  }

  predicate SyncInv(p: Phase, l: Log) {
    match p
    case Open => l.unsynced < l.syncEvery && |l.file| - l.synced == (if l.due then l.unsynced + 1 else l.unsynced)
    case Closed => l.synced == |l.file| && !l.due
    case Stopped => l.synced == |l.file| && !l.due
  }

  predicate LogInv(p: Phase, l: Log) {
    Shape(l) && CursorInv(p, l) && PoisonInv(p, l) && DeliveryInv(p, l) && SyncInv(p, l)
  }

  // ----- The loss ledger -----

  predicate Positive(ms: seq<Losses>) { forall i :: 0 <= i < |ms| ==> ms[i].count > 0 }

  /** Ledger facts against the markers of the whole durable history (`durable`), of the frames still
      in the file (`onFile`), and of the frames not yet durable (`volatile`). */
  predicate MarkerInv(g: Ledger, durable: seq<Losses>, onFile: seq<Losses>, volatile: seq<Losses>) {
    && Positive(durable) && StrictlyNewer(durable + volatile)
    && NoneAbove(durable + volatile, g.sidecar.generation)
    && |onFile| <= |durable| && durable[|durable| - |onFile|..] == onFile
    && (match PendingIn(onFile, g.sidecar)
        case Some(m) => g.accounted + m.count == Reported(durable) && m.count <= g.sidecar.count
        case None => g.accounted == Reported(durable) && (g.sidecar.count > 0 ==> AllBelow(durable, g.sidecar.generation)))
  }

  /** Every loss is settled against a durable marker, pending in the sidecar, added since the last
      sidecar write, or was held only in memory at a crash: exactly one of these. */
  predicate Conserved(g: Ledger) {
    g.lossEvents == g.accounted + g.sidecar.count + g.unpersisted + g.forgotten
  }

  predicate BatchOf(batch: Losses, state: Losses) {
    batch.generation == state.generation && 0 < batch.count <= state.count
  }

  predicate FlowInv(p: Phase, g: Ledger, onFile: seq<Losses>, volatile: seq<Losses>) {
    var pending := PendingIn(onFile, g.sidecar);
    && g.sinceImage <= g.unpersisted
    && (p != Open ==> volatile == [] && g.flow == NoFlow && g.memory == g.sidecar && g.unpersisted == 0)
    && (p == Open ==>
        match g.flow
        case NoFlow => volatile == [] && pending == None && Grown(g.sidecar, g.unpersisted, g.memory)
        case Copied(image) =>
          && volatile == [] && pending == None
          && Grown(g.sidecar, g.unpersisted - g.sinceImage, image) && Grown(image, g.sinceImage, g.memory)
        case Snapshotted(b) =>
          volatile == [] && pending == None && Grown(g.sidecar, g.unpersisted, g.memory) && BatchOf(b, g.memory)
        case SnapshotCopied(b, image) =>
          && volatile == [] && pending == None && BatchOf(b, image)
          && Grown(g.sidecar, g.unpersisted - g.sinceImage, image) && Grown(image, g.sinceImage, g.memory)
        case Persisted(b) =>
          volatile == [] && pending == None && Grown(g.sidecar, g.unpersisted, g.memory) && BatchOf(b, g.sidecar)
        case Appended(b) =>
          && ((volatile == [b] && pending == None) || (volatile == [] && pending == Some(b)))
          && Grown(g.sidecar, g.unpersisted, g.memory) && BatchOf(b, g.sidecar)
        case MarkerSynced(b) =>
          volatile == [] && pending == Some(b) && Grown(g.sidecar, g.unpersisted, g.memory) && BatchOf(b, g.sidecar)
        case Committed(b, image) =>
          && volatile == [] && pending == Some(b) && BatchOf(b, g.sidecar)
          && image == SettleLossBatch(Losses(g.sidecar.generation, g.sidecar.count + (g.unpersisted - g.sinceImage)), b)
          && Grown(image, g.sinceImage, g.memory))
  }

  predicate LossInv(p: Phase, g: Ledger, durable: seq<Losses>, onFile: seq<Losses>, volatile: seq<Losses>) {
    && MarkerInv(g, durable, onFile, volatile)
    && Conserved(g)
    && FlowInv(p, g, onFile, volatile)
    && g.memory.generation < U64_MAX
  }

  /** Between the snapshot and the commit of a marker. */
  predicate InFlight(f: Flow) {
    f.Snapshotted? || f.SnapshotCopied? || f.Persisted? || f.Appended? || f.MarkerSynced?
  }

  /** Both loss states stay `u64` values, and a batch in flight keeps its generation, saturated or not. */
  predicate RangeInv(p: Phase, g: Ledger) {
    && InRange(g.memory) && InRange(g.sidecar)
    && (g.flow.Copied? || g.flow.SnapshotCopied? || g.flow.Committed? ==> InRange(g.flow.image))
    && (InFlight(g.flow) ==> BatchOf(g.flow.batch, g.memory))
    && (p != Open ==> g.flow == NoFlow && g.memory == g.sidecar)
  }

  /** Every counter has stayed below its last value: what the loss accounting needs. */
  predicate Exact(s: State) { s.ledger.exact }

  /** A counter cannot saturate before there were as many losses, and empty additions, as it counts. */
  predicate CostInv(g: Ledger) {
    var seen := g.lossEvents + g.idleAdds;
    seen < U64_MAX ==>
      && g.exact && Cost(g.memory) <= seen && Cost(g.sidecar) <= seen
      && (g.flow.Copied? || g.flow.SnapshotCopied? || g.flow.Committed? ==> Cost(g.flow.image) <= seen)
  }

  /** The sink has taken no marker that is still volatile, and no pending marker is behind the cursor. */
  predicate PassedInv(l: Log, sidecar: Losses) {
    && l.read <= |l.file| && l.synced <= |l.file|
    && (l.synced < TakenTo(l) <= |l.file| ==> Markers(l.file[l.synced..TakenTo(l)]) == [])
    && PendingIn(Markers(l.file[..if l.read < l.synced then l.read else l.synced]), sidecar) == None
  }

  predicate LossInvOf(s: State) {
    var l := s.log;
    && l.synced <= |l.file|
    && LossInv(s.phase, s.ledger, Markers(l.admitted), Markers(l.file[..l.synced]), Markers(l.file[l.synced..]))
  }

  predicate LossInvAt(s: State) { LossInvOf(s) && PassedInv(s.log, s.ledger.sidecar) }

  predicate Inv(s: State) {
    && LogInv(s.phase, s.log) && RangeInv(s.phase, s.ledger) && CostInv(s.ledger)
    && (Exact(s) ==> LossInvAt(s))
  }

  // ----- Preservation: the log -----

  lemma FreshLog(l: Log)
    requires l.file == [] && l.synced == l.read == l.offset == l.committed == 0 && l.admitted == l.delivered == []
    requires l.poison == None && !l.adrift && !l.truncating && !l.due && l.maxBytes <= U64_MAX && 0 < l.syncEvery
    ensures LogInv(Closed, l)
  {
    hide TotalLen;
    assert TotalLen([]) == 0 by { EmptyTotal(); }
    assert l.file[..0] == [] && Live(l) == [];
    assert l.admitted[0..] == l.file[..0];
  }

  lemma EmptyTotal()
    ensures TotalLen([]) == 0
  {
  }

  lemma InitialLog()
    ensures LogInv(Initial().phase, Initial().log)
  {
    hide LogInv;
    FreshLog(Initial().log);
  }

  /** A frame has its place among the live entries. */
  lemma LiveAt(l: Log, i: nat)
    requires Anchored(l) && i < |l.file|
    ensures Live(l)[|l.admitted| - l.synced + i] == l.file[i]
  {
    if i < l.synced {
      assert l.admitted[|l.admitted| - l.synced..][i] == l.file[..l.synced][i];
    }
  }

  /** The live entries up to a frame that is volatile, or just past the durable ones. */
  lemma LiveTo(l: Log, n: nat)
    requires Anchored(l) && l.synced <= n <= |l.file|
    ensures Live(l)[..|l.admitted| - l.synced + n] == l.admitted + l.file[l.synced..n]
  {
    assert l.file[l.synced..][..n - l.synced] == l.file[l.synced..n];
  }

  lemma AdmitLive(l: Log, n: nat)
    requires Anchored(l) && l.synced <= n <= |l.file|
    ensures Anchored(Admit(l, n)) && Live(Admit(l, n)) == Live(l)
  {
    var l' := Admit(l, n);
    assert l.file[..n] == l.file[..l.synced] + l.file[l.synced..n];
    assert l'.admitted[|l'.admitted| - n..] == l.file[..n];
    assert l.file[l.synced..] == l.file[l.synced..n] + l.file[n..];
  }

  lemma AppendLive(l: Log, e: Entry)
    requires Whole(l)
    ensures Whole(AppendTo(l, e)) && Live(AppendTo(l, e)) == Live(l) + [e]
  {
    var l' := AppendTo(l, e);
    assert l'.file[..l.synced] == l.file[..l.synced];
    assert l'.file[l.synced..] == l.file[l.synced..] + [e];
  }

  lemma AppendLog(p: Phase, l: Log, e: Entry)
    requires LogInv(p, l) && p == Open && !l.due && !l.truncating && Fits(l, e)
    ensures LogInv(p, AppendTo(l, e))
  {
    hide Whole;
    var l' := AppendTo(l, e);
    AppendLive(l, e);
    assert l'.file[..l.read] == l.file[..l.read];
    TotalLenSnoc(l'.file, |l.file|);
    assert l'.file[..|l.file|] == l.file && l'.file[..|l.file| + 1] == l'.file;
  }

  /** Being whole is about the entries, the cursor's place among them and the deliveries alone. */
  lemma SameWhole(l: Log, l': Log)
    requires Whole(l) && l'.file == l.file && l'.synced == l.synced && l'.read == l.read && l'.admitted == l.admitted
    requires l'.delivered == l.delivered && l'.committed == l.committed && l'.adrift == l.adrift
    ensures Whole(l')
  {
  }

  lemma SyncWhole(l: Log)
    requires Whole(l)
    ensures Whole(SyncLog(l))
  {
    AdmitLive(l, |l.file|);
    hide Anchored, Live;
  }

  lemma SyncLogKeeps(p: Phase, l: Log)
    requires LogInv(p, l) && p == Open
    ensures LogInv(p, SyncLog(l))
  {
    hide Framed, TotalLen, Live;
    SyncWhole(l);
    hide Whole;
  }

  lemma CutShape(l: Log, keep: nat)
    requires Shape(l) && keep <= |l.file|
    ensures Framed(l.file[..keep]) && TotalLen(l.file[..keep]) <= TotalLen(l.file)
  {
    TotalLenMonotone(l.file, keep, |l.file|);
    assert l.file[..|l.file|] == l.file;
  }

  lemma {:induction false} FramesAddUp(es: seq<Entry>, j: nat, k: nat)
    requires Framed(es) && j <= k <= |es|
    ensures TotalLen(es[..j]) + 4 * (k - j) <= TotalLen(es[..k])
  {
    if j < k {
      FramesAddUp(es, j, k - 1);
      TotalLenSnoc(es, k - 1);
    }
  }

  lemma CrashCursor(l: Log, keep: nat)
    requires Shape(l) && CursorInv(Open, l) && l.synced <= keep <= |l.file| && TakenTo(l) <= |l.file|
    ensures CursorInv(Closed, CrashLog(l, keep))
  {
    var l' := CrashLog(l, keep);
    if keep < l.read {
      FramesAddUp(l.file, keep, l.read);
    } else {
      assert l.file[..keep][..l.read] == l.file[..l.read];
    }
  }

  /** Every frame the sink has taken survives: nothing is missing. */
  lemma CrashKeepsWhole(l: Log, keep: nat)
    requires Whole(l) && l.synced <= keep <= |l.file| && TakenTo(l) <= keep
    requires |l.delivered| > l.committed <==> l.replay == Delivered
    ensures Whole(CrashLog(l, keep))
  {
    var l' := CrashLog(l, keep);
    AdmitLive(l, keep);
    LiveTo(l, keep);
    assert l.file[..keep][..keep] == l.file[..keep] && l.file[..keep][keep..] == [];
    assert Live(l') == l'.admitted == Live(l)[..|l.admitted| - l.synced + keep];
  }

  /** Some frame the sink has taken is lost: it took everything the spool admitted, and the spool opens
      only if no frame is left. */
  lemma CrashLosesTaken(l: Log, keep: nat)
    requires Whole(l) && PoisonInv(Open, l) && l.synced <= keep <= |l.file| && keep < TakenTo(l) <= |l.file|
    requires |l.delivered| > l.committed <==> l.replay == Delivered
    ensures var l' := CrashLog(l, keep); l'.delivered == l'.admitted && (Barred(l') || Whole(l'))
  {
    var l' := CrashLog(l, keep);
    LiveTo(l, TakenTo(l));
    assert l'.admitted == Live(l)[..|l.admitted| - l.synced + TakenTo(l)];
    if !Barred(l') {
      assert l'.file == [] && l'.admitted[|l'.admitted|..] == l'.file[..0];
      assert Live(l') == l'.admitted;
    }
  }

  lemma CrashKeepsLog(l: Log, keep: nat)
    requires LogInv(Open, l) && l.synced <= keep <= |l.file| && TakenTo(l) <= |l.file|
    ensures LogInv(Closed, CrashLog(l, keep))
  {
    hide Framed, TotalLen, Whole;
    CutShape(l, keep);
    CrashCursor(l, keep);
    if TakenTo(l) <= keep {
      CrashKeepsWhole(l, keep);
    } else {
      CrashLosesTaken(l, keep);
    }
  }

  lemma DeliverLog(s: State)
    requires LogInv(s.phase, s.log) && Enabled(s, Deliver)
    ensures LogInv(Open, Next(s, Deliver).log)
  {
    hide TotalLen, Framed;
    var l := s.log;
    DeliverWhole(l, Next(s, Deliver).log);
    hide Whole;
  }

  lemma DeliverWhole(l: Log, l': Log)
    requires Whole(l) && l.read < |l.file| && |l.delivered| == l.committed
    requires l' == l.(delivered := l.delivered + [l.file[l.read]], replay := Delivered)
    ensures Whole(l')
  {
    LiveAt(l, l.read);
    assert Live(l)[..l.committed + 1] == Live(l)[..l.committed] + [Live(l)[l.committed]];
  }

  lemma PassWhole(l: Log, l': Log)
    requires Whole(l) && l.read < |l.file| && l.delivered == Live(l)[..l.committed + 1]
    requires l' == l.(offset := l'.offset, read := l.read + 1, committed := l.committed + 1, replay := CursorCommitted)
    ensures Whole(l')
  {
  }

  lemma CommitCursorLog(s: State)
    requires LogInv(s.phase, s.log) && Enabled(s, CommitCursor)
    ensures LogInv(Open, Next(s, CommitCursor).log)
  {
    var (l, l') := (s.log, Next(s, CommitCursor).log);
    PassWhole(l, l');
    hide Whole;
    assert l'.offset == TotalLen(l.file[..l'.read]) <= TotalLen(l.file) by {
      assert l.file != [] && !l.adrift;
      TotalLenSnoc(l.file, l.read);
      TotalLenMonotone(l.file, l.read + 1, |l.file|);
      assert l.file[..|l.file|] == l.file;
    }
  }

  lemma PoisonLog(s: State, a: Action)
    requires LogInv(s.phase, s.log) && Enabled(s, a)
    requires a.BeginReplay? || a.Abort? || a.ClearPoison?
    ensures LogInv(Open, Next(s, a).log)
  {
    hide Markers, PendingIn, SettleLossBatch;
  }

  lemma EmptyFileKeeps(l: Log)
    requires Whole(l) && l.read == |l.file|
    ensures Whole(EmptyFile(l)) && Live(EmptyFile(l)) == Live(l)
  {
    var l' := EmptyFile(l);
    assert l'.admitted[|l'.admitted|..] == l'.file[..0] && Live(l') == l'.admitted;
  }

  lemma TruncateLog(s: State)
    requires LogInv(s.phase, s.log) && Enabled(s, TruncateFile)
    ensures LogInv(s.phase, Next(s, TruncateFile).log)
  {
    hide Markers, PendingIn;
    assert Whole(s.log);
    EmptyFileKeeps(s.log);
    hide Whole;
    assert TotalLen([]) == 0;
  }

  lemma ResetLog(p: Phase, l: Log, l': Log)
    requires LogInv(p, l) && l.file == [] && l' == l.(offset := 0, truncating := false)
    requires (p == Open && l.truncating) || (p == Closed && l.poison == None)
    ensures LogInv(p, l')
  {
    hide Framed;
    if Whole(l) {
      SameWhole(l, l');
    }
    hide Whole;
    assert l.file[..0] == [] && TotalLen([]) == 0;
  }

  lemma StaleLog(l: Log, l': Log)
    requires LogInv(Closed, l) && !Barred(l) && l' == l.(poison := None)
    ensures LogInv(Closed, l')
  {
    hide Framed, TotalLen;
    SameWhole(l, l');
    hide Whole;
  }

  lemma OpenedLog(l: Log, l': Log, max: nat, every: nat)
    requires LogInv(Closed, l) && !Barred(l) && l.poison == None && !(Drained(l) && l.offset > 0) && max <= U64_MAX && 0 < every
    requires l' == l.(maxBytes := max, syncEvery := every, unsynced := 0, replay := Idle)
    ensures LogInv(Open, l')
  {
    hide Framed;
    SameWhole(l, l');
    hide Whole;
    assert l.file == [] ==> l.file[..l.read] == [];
    assert TotalLen([]) == 0;
  }

  lemma RecoveryLog(s: State, a: Action)
    requires LogInv(s.phase, s.log) && Enabled(s, a)
    requires a.ResetCursor? || a.ClearStalePoison? || a.Refuse? || a.Reconcile? || a.FinishOpen?
    ensures LogInv(Next(s, a).phase, Next(s, a).log)
  {
    hide Markers, SettleLossBatch, PendingIn, Shape, CursorInv, DeliveryInv, TotalLen;
    var (l, l') := (s.log, Next(s, a).log);
    match a
    case ResetCursor => ResetLog(s.phase, l, l');
    case ClearStalePoison => StaleLog(l, l');
    case FinishOpen(max, every) => OpenedLog(l, l', max, every);
    case Refuse => RefusedLog(l);
    case Reconcile =>
  }

  lemma RefusedLog(l: Log)
    requires LogInv(Closed, l) && Barred(l)
    ensures LogInv(Stopped, l)
  {
    hide Framed, TotalLen, Whole;
  }

  /** Every step keeps the log in order. */
  lemma LogStep(s: State, a: Action)
    requires LogInv(s.phase, s.log) && Enabled(s, a)
    ensures LogInv(Next(s, a).phase, Next(s, a).log)
  {
    match a
    case Append(e) => AppendLog(s.phase, s.log, e);
    case AppendMarker(e) => AppendLog(s.phase, s.log, e);
    case SyncDue => SyncLogKeeps(s.phase, s.log);
    case Sync => SyncLogKeeps(s.phase, s.log);
    case SyncMarker => SyncLogKeeps(s.phase, s.log);
    case Crash(keep) => CrashKeepsLog(s.log, keep);
    case BeginReplay => PoisonLog(s, a);
    case Deliver => DeliverLog(s);
    case Abort => PoisonLog(s, a);
    case CommitCursor => CommitCursorLog(s);
    case ClearPoison => PoisonLog(s, a);
    case TruncateFile => TruncateLog(s);
    case ResetCursor => RecoveryLog(s, a);
    case ClearStalePoison => RecoveryLog(s, a);
    case Refuse => RecoveryLog(s, a);
    case Reconcile => RecoveryLog(s, a);
    case FinishOpen(_, _) => RecoveryLog(s, a);
    case _ =>
  }

  // ----- Preservation: the ledger -----

  lemma LoseKeepsFlow(g: Ledger, n: nat, d: seq<Losses>, f: seq<Losses>, v: seq<Losses>)
    requires LossInv(Open, g, d, f, v) && Unsaturated(g.memory, n)
    ensures FlowInv(Open, Lost(g, n), f, v)
  {
    hide MarkerInv, PendingIn, AddLossState, Grown, Unsaturated;
    if g.flow.Copied? || g.flow.SnapshotCopied? || g.flow.Committed? {
      AddGrows(g.flow.image, g.sinceImage, g.memory, n);
    } else {
      AddGrows(g.sidecar, g.unpersisted, g.memory, n);
      if g.flow.Snapshotted? {
        assert BatchOf(g.flow.batch, AddLossState(g.memory, n)) by { BatchStays(g.flow.batch, g.memory, n); }
      }
    }
  }

  lemma BatchStays(b: Losses, l: Losses, n: nat)
    requires BatchOf(b, l) && Unsaturated(l, n)
    ensures BatchOf(b, AddLossState(l, n))
  {
  }

  lemma LoseKeeps(g: Ledger, n: nat, d: seq<Losses>, f: seq<Losses>, v: seq<Losses>)
    requires LossInv(Open, g, d, f, v) && Unsaturated(g.memory, n)
    ensures LossInv(Open, Lost(g, n), d, f, v)
  {
    LoseKeepsFlow(g, n, d, f, v);
    assert MarkerInv(Lost(g, n), d, f, v);
  }

  /** Writing a copy of the in-memory state that settles nothing. */
  lemma WriteCopyKeeps(g: Ledger, image: Losses, next: Flow, d: seq<Losses>, f: seq<Losses>)
    requires LossInv(Open, g, d, f, [])
    requires || (g.flow == Copied(image) && next == NoFlow)
             || (g.flow.SnapshotCopied? && g.flow.image == image && next == Persisted(g.flow.batch))
    ensures LossInv(Open, WriteImage(g, image, next), d, f, [])
  {
    assert d + [] == d;
    assert image.count > 0 ==> AllBelow(d, image.generation);
    if image.count > 0 {
      forall i | 0 <= i < |f| ensures f[i].generation < image.generation {
        assert f[i] == d[|d| - |f| + i];
      }
    }
    assert PendingIn(f, image) == None;
  }

  lemma CommitKeeps(g: Ledger, d: seq<Losses>, f: seq<Losses>)
    requires LossInv(Open, g, d, f, []) && g.flow.MarkerSynced?
    requires SettleLossBatch(g.memory, g.flow.batch).generation < U64_MAX
    ensures g.memory.generation == g.flow.batch.generation
    ensures var settled := SettleLossBatch(g.memory, g.flow.batch);
      LossInv(Open, InMemory(g, settled).(flow := Committed(g.flow.batch, settled), sinceImage := 0), d, f, [])
  {
    hide PendingIn, SettleLossBatch;
    SettleConserves(g.memory, g.flow.batch);
    assert g.memory == Losses(g.sidecar.generation, g.sidecar.count + g.unpersisted);
  }

  /** A settlement that is now durable: its marker is credited, and nothing is left pending beside it. */
  lemma SettledMarkers(before: Losses, after: Losses, d: seq<Losses>, f: seq<Losses>)
    requires NoneAbove(d, before.generation) && |f| <= |d| && d[|d| - |f|..] == f
    requires before.count > 0 && (after.count == 0 || after.generation == before.generation + 1)
    requires after.generation >= before.generation
    ensures PendingIn(f, after) == None
    ensures NoneAbove(d, after.generation) && (after.count > 0 ==> AllBelow(d, after.generation))
  {
    forall i | 0 <= i < |f| ensures f[i].generation <= before.generation {
      assert f[i] == d[|d| - |f| + i];
    }
  }

  lemma SettleRaises(state: Losses, batch: Losses)
    ensures state.generation <= SettleLossBatch(state, batch).generation
  {
  }

  lemma WriteCommitKeeps(g: Ledger, d: seq<Losses>, f: seq<Losses>)
    requires LossInv(Open, g, d, f, []) && g.flow.Committed?
    ensures LossInv(Open, WriteImage(g, g.flow.image, NoFlow).(accounted := g.accounted + g.flow.batch.count), d, f, [])
  {
    hide SettleLossBatch;
    var (b, image) := (g.flow.batch, g.flow.image);
    var merged := Losses(g.sidecar.generation, g.sidecar.count + (g.unpersisted - g.sinceImage));
    assert d + [] == d;
    SettleRaises(merged, b);
    SettleConserves(merged, b);
    SettledMarkers(g.sidecar, image, d, f);
  }

  lemma ReconcileKeeps(g: Ledger, d: seq<Losses>, f: seq<Losses>)
    requires LossInv(Closed, g, d, f, []) && PendingIn(f, g.sidecar).Some?
    requires SettledAgainst(g.sidecar, PendingIn(f, g.sidecar)).generation < U64_MAX
    ensures var pending := PendingIn(f, g.sidecar);
      var settled := SettledAgainst(g.sidecar, pending);
      && settled.count + pending.value.count == g.sidecar.count
      && PendingIn(f, settled) == None
      && LossInv(Closed, Reconciled(g, pending), d, f, [])
  {
    var m := PendingIn(f, g.sidecar).value;
    assert d + [] == d;
    var i :| 0 <= i < |f| && f[i] == m;
    assert d[|d| - |f| + i] == m;
    SettleConserves(g.sidecar, m);
    SettledMarkers(g.sidecar, SettleLossBatch(g.sidecar, m), d, f);
  }

  // ----- Preservation: frames becoming durable, or lost, under the ledger -----

  lemma AppendMarkerKeeps(g: Ledger, b: Losses, d: seq<Losses>, f: seq<Losses>)
    requires LossInv(Open, g, d, f, []) && g.flow == Persisted(b)
    ensures LossInv(Open, g.(flow := Appended(b)), d, f, [b])
  {
    assert d + [] == d;
  }

  /** A marker in flight becomes durable: from here on it is pending, and settled losses lag by it. */
  lemma AdmitMarker(g: Ledger, b: Losses, d: seq<Losses>, f: seq<Losses>)
    requires MarkerInv(g, d, f, [b]) && PendingIn(f, g.sidecar) == None && BatchOf(b, g.sidecar)
    ensures MarkerInv(g, d + [b], f + [b], []) && PendingIn(f + [b], g.sidecar) == Some(b)
  {
    assert d + [b] + [] == d + [b];
    FindSnoc(f, b, g.sidecar.generation);
    ReportedSnoc(d, b);
    SuffixSnoc(d, f, b);
  }

  lemma SuffixSnoc(d: seq<Losses>, f: seq<Losses>, b: Losses)
    requires |f| <= |d| && d[|d| - |f|..] == f
    ensures (d + [b])[|d + [b]| - |f + [b]|..] == f + [b]
  {
  }

  lemma AdmitMarkers(p: Phase, g: Ledger, d: seq<Losses>, f: seq<Losses>, v: seq<Losses>)
    requires LossInv(p, g, d, f, v)
    ensures MarkerInv(g, d + v, f + v, [])
    ensures v == [] ==> PendingIn(f + v, g.sidecar) == PendingIn(f, g.sidecar)
    ensures v != [] ==> g.flow.Appended? && v == [g.flow.batch] && PendingIn(f + v, g.sidecar) == Some(g.flow.batch)
  {
    if v == [] {
      assert d + v == d && f + v == f;
    } else {
      AdmitMarker(g, g.flow.batch, d, f);
    }
  }

  lemma DropVolatile(p: Phase, g: Ledger, d: seq<Losses>, f: seq<Losses>, v: seq<Losses>)
    requires LossInv(p, g, d, f, v)
    ensures MarkerInv(g, d, f, [])
  {
    assert d + [] == d;
    forall i, j | 0 <= i < j < |d| ensures d[i].generation < d[j].generation {
      assert (d + v)[i] == d[i] && (d + v)[j] == d[j];
    }
    forall i | 0 <= i < |d| ensures d[i].generation <= g.sidecar.generation {
      assert (d + v)[i] == d[i];
    }
  }

  lemma SyncKeeps(g: Ledger, g': Ledger, d: seq<Losses>, f: seq<Losses>, v: seq<Losses>)
    requires LossInv(Open, g, d, f, v)
    requires g' == g || (g.flow.Appended? && g' == g.(flow := MarkerSynced(g.flow.batch)))
    ensures LossInv(Open, g', d + v, f + v, [])
  {
    AdmitMarkers(Open, g, d, f, v);
  }

  /** A crash keeps some prefix of the volatile frames: their marker, or nothing. */
  lemma CrashKeepsLedger(g: Ledger, d: seq<Losses>, f: seq<Losses>, kept: seq<Losses>, lost: seq<Losses>)
    requires LossInv(Open, g, d, f, kept + lost)
    ensures LossInv(Closed, CrashLedger(g), d + kept, f + kept, [])
  {
    if lost == [] {
      assert kept + lost == kept;
      AdmitMarkers(Open, g, d, f, kept);
    } else {
      assert kept == [] by { assert |kept + lost| <= 1; }
      DropVolatile(Open, g, d, f, kept + lost);
      assert d + kept == d && f + kept == f;
    }
  }

  lemma TruncateKeeps(p: Phase, g: Ledger, d: seq<Losses>, f: seq<Losses>)
    requires LossInv(p, g, d, f, []) && PendingIn(f, g.sidecar) == None
    ensures LossInv(p, g, d, [], [])
  {
  }

  // ----- Preservation: every step -----

  lemma NextOfAppend(s: State, e: Entry, a: Action)
    requires Enabled(s, a) && (a == Append(e) || a == AppendMarker(e))
    ensures s.phase == Open && Next(s, a).phase == Open && Next(s, a).log == AppendTo(s.log, e)
    ensures a.Append? ==> e.marker == None && Next(s, a).ledger == s.ledger
    ensures a.AppendMarker? ==>
      s.ledger.flow.Persisted? && e.marker == Some(s.ledger.flow.batch) && Next(s, a).ledger == s.ledger.(flow := Appended(s.ledger.flow.batch))
  {
  }

  lemma AppendedMarkers(l: Log, e: Entry)
    requires l.synced <= |l.file|
    ensures var l' := AppendTo(l, e);
      && l'.synced == l.synced && l'.admitted == l.admitted && l'.file[..l.synced] == l.file[..l.synced] && |l'.file| == |l.file| + 1
      && Markers(l'.file[l.synced..]) == Markers(l.file[l.synced..]) + (if e.marker.Some? then [e.marker.value] else [])
  {
    hide Markers, TotalLen;
    var l' := AppendTo(l, e);
    assert l'.file[l.synced..] == l.file[l.synced..] + [e];
    MarkersSnoc(l.file[l.synced..], e);
  }

  lemma AppendLoss(s: State, e: Entry, a: Action)
    requires LossInvOf(s) && Enabled(s, a) && (a == Append(e) || a == AppendMarker(e))
    ensures LossInvOf(Next(s, a))
  {
    hide MarkerInv, Markers, Enabled, Next, AppendTo, Grown, PendingIn, SettleLossBatch;
    var (l, g) := (s.log, s.ledger);
    NextOfAppend(s, e, a);
    AppendedMarkers(l, e);
    var v := Markers(l.file[l.synced..]);
    if a.AppendMarker? {
      assert v == [] && v + [g.flow.batch] == [g.flow.batch];
      AppendMarkerKeeps(g, g.flow.batch, Markers(l.admitted), Markers(l.file[..l.synced]));
    } else {
      assert v + [] == v;
    }
  }

  lemma AdmittedMarkers(l: Log, n: nat)
    requires l.synced <= n <= |l.file|
    ensures var added := Markers(l.file[l.synced..n]);
      && Markers(Admit(l, n).admitted) == Markers(l.admitted) + added
      && Markers(l.file[..n]) == Markers(l.file[..l.synced]) + added
      && Markers(l.file[l.synced..]) == added + Markers(l.file[n..])
  {
    hide Markers;
    MarkersAppend(l.admitted, l.file[l.synced..n]);
    MarkersAppend(l.file[..l.synced], l.file[l.synced..n]);
    assert l.file[..l.synced] + l.file[l.synced..n] == l.file[..n];
    MarkersAppend(l.file[l.synced..n], l.file[n..]);
    assert l.file[l.synced..n] + l.file[n..] == l.file[l.synced..];
  }

  lemma NextOfSync(s: State, a: Action)
    requires Enabled(s, a) && (a.SyncDue? || a.Sync? || a.SyncMarker?)
    ensures s.phase == Open && Next(s, a).phase == Open && s.log.synced <= |s.log.file| && Next(s, a).log == SyncLog(s.log)
    ensures var (g, g') := (s.ledger, Next(s, a).ledger);
      g' == g || (g.flow.Appended? && g' == g.(flow := MarkerSynced(g.flow.batch)))
  {
  }

  lemma SyncLoss(s: State, a: Action)
    requires LossInvOf(s) && Enabled(s, a) && (a.SyncDue? || a.Sync? || a.SyncMarker?)
    ensures LossInvOf(Next(s, a))
  {
    hide LossInv, Markers, Enabled, Next;
    var l := s.log;
    NextOfSync(s, a);
    AdmittedMarkers(l, |l.file|);
    assert l.file[l.synced..|l.file|] == l.file[l.synced..] && l.file[|l.file|..] == [];
    NoMarkers();
    SyncKeeps(s.ledger, Next(s, a).ledger, Markers(l.admitted), Markers(l.file[..l.synced]), Markers(l.file[l.synced..]));
  }

  lemma NoMarkersWithin(es: seq<Entry>, i: nat, j: nat, k: nat)
    requires i <= j <= k <= |es| && Markers(es[i..k]) == []
    ensures Markers(es[i..j]) == []
  {
    assert es[i..k] == es[i..j] + es[j..k];
    MarkersAppend(es[i..j], es[j..k]);
  }

  lemma NextOfCrash(s: State, keep: nat)
    requires Enabled(s, Crash(keep))
    ensures s.phase == Open && s.log.synced <= keep <= |s.log.file| && TakenTo(s.log) <= |s.log.file|
    ensures Next(s, Crash(keep)) == State(Closed, CrashLog(s.log, keep), CrashLedger(s.ledger))
  {
  }

  lemma CrashLoss(s: State, keep: nat)
    requires LossInvAt(s) && Enabled(s, Crash(keep))
    ensures LossInvOf(Next(s, Crash(keep)))
  {
    hide Markers, LossInv, Enabled, Next, PendingIn;
    NextOfCrash(s, keep);
    var l := s.log;
    AdmittedMarkers(l, keep);
    var l' := CrashLog(l, keep);
    assert l'.file[..keep] == l.file[..keep] && l'.file[keep..] == [];
    if keep < TakenTo(l) {
      NoMarkersWithin(l.file, l.synced, keep, TakenTo(l));
      MarkersAppend(l.admitted, l.file[l.synced..TakenTo(l)]);
    }
    NoMarkers();
    CrashKeepsLedger(s.ledger, Markers(l.admitted), Markers(l.file[..l.synced]), Markers(l.file[l.synced..keep]), Markers(l.file[keep..]));
  }

  lemma NoMarkers()
    ensures Markers([]) == []
  {
  }

  lemma TruncateLoss(s: State)
    requires LogInv(s.phase, s.log) && LossInvAt(s) && Enabled(s, TruncateFile)
    ensures LossInvOf(Next(s, TruncateFile))
  {
    hide MarkerInv, CursorInv, PoisonInv, DeliveryInv, Shape;
    var l := s.log;
    assert Markers(l.file[l.synced..]) == [];
    MarkersAppend(l.admitted, l.file[l.synced..]);
    assert Markers(l.admitted) + [] == Markers(l.admitted);
    var l' := Next(s, TruncateFile).log;
    assert l'.file[..l'.synced] == [] && l'.file[l'.synced..] == [];
    TruncateKeeps(s.phase, s.ledger, Markers(l.admitted), Markers(l.file[..l.synced]));
  }

  /** Steps of the loss flow that neither write the sidecar nor touch the spool. */
  lemma CopyKeeps(g: Ledger, g': Ledger, d: seq<Losses>, f: seq<Losses>)
    requires LossInv(Open, g, d, f, [])
    requires
      || (g.flow.NoFlow? && g' == g.(flow := Copied(g.memory), sinceImage := 0))
      || (g.flow.NoFlow? && g.memory.count > 0 && g' == g.(flow := Snapshotted(g.memory)))
      || (g.flow.Snapshotted? && g' == g.(flow := SnapshotCopied(g.flow.batch, g.memory), sinceImage := 0))
      || (g.flow.Persisted? && g' == g.(flow := NoFlow))
    ensures LossInv(Open, g', d, f, [])
  {
    assert MarkerInv(g', d, f, []);
  }

  predicate CopyAction(a: Action) {
    a.WriteLosses? || a.WriteSnapshot? || a.CopyLosses? || a.Snapshot? || a.CopySnapshot? || a.AbandonMarker?
  }

  predicate SettleAction(a: Action) { a.Lose? || a.CommitMarker? || a.WriteCommit? || a.Reconcile? }

  lemma CopyLoss(s: State, a: Action)
    requires LossInvOf(s) && Enabled(s, a) && CopyAction(a)
    ensures LossInvOf(Next(s, a))
  {
    hide MarkerInv, Markers, Grown, PendingIn, SettleLossBatch;
    var (l, g, g') := (s.log, s.ledger, Next(s, a).ledger);
    var (d, f) := (Markers(l.admitted), Markers(l.file[..l.synced]));
    if a.WriteLosses? {
      WriteCopyKeeps(g, g.flow.image, NoFlow, d, f);
    } else if a.WriteSnapshot? {
      WriteCopyKeeps(g, g.flow.image, Persisted(g.flow.batch), d, f);
    } else {
      CopyKeeps(g, g', d, f);
    }
  }

  lemma SettleLoss(s: State, a: Action)
    requires LossInvOf(s) && Enabled(s, a) && SettleAction(a) && Exact(Next(s, a))
    ensures LossInvOf(Next(s, a))
  {
    hide MarkerInv, Markers;
    var (l, g) := (s.log, s.ledger);
    var (d, f, v) := (Markers(l.admitted), Markers(l.file[..l.synced]), Markers(l.file[l.synced..]));
    match a
    case Lose(n) => LoseKeeps(g, n, d, f, v);
    case CommitMarker => CommitKeeps(g, d, f);
    case WriteCommit => WriteCommitKeeps(g, d, f);
    case Reconcile => ReconcileKeeps(g, d, f);
  }

  /** Steps of the log that change no durable or volatile frame, and recovery's phase changes. */
  lemma CursorLoss(s: State, a: Action)
    requires LossInvOf(s) && Enabled(s, a) && Exact(s)
    requires a.BeginReplay? || a.Deliver? || a.Abort? || a.CommitCursor? || a.ClearPoison? || a.ResetCursor?
          || a.ClearStalePoison? || a.Refuse? || a.FinishOpen?
    ensures LossInvOf(Next(s, a))
  {
    hide MarkerInv, Markers, SettleLossBatch, TotalLen;
    assert Next(s, a).ledger == s.ledger;
    assert PendingMarker(s) == PendingIn(Markers(s.log.file[..s.log.synced]), s.ledger.sidecar);
  }

  /** Every step keeps the loss accounting, as long as no counter saturates. */
  lemma LossStep(s: State, a: Action)
    requires LogInv(s.phase, s.log) && LossInvAt(s) && Enabled(s, a) && Exact(Next(s, a))
    ensures LossInvOf(Next(s, a))
  {
    hide LogInv, LossInvOf, PassedInv;
    if a.Append? || a.AppendMarker? {
      AppendLoss(s, a.entry, a);
    } else if a.SyncDue? || a.Sync? || a.SyncMarker? {
      SyncLoss(s, a);
    } else if a.Crash? {
      CrashLoss(s, a.keep);
    } else if a.TruncateFile? {
      TruncateLoss(s);
    } else if CopyAction(a) {
      CopyLoss(s, a);
    } else if SettleAction(a) {
      SettleLoss(s, a);
    } else {
      CursorLoss(s, a);
    }
  }

  // ----- Preservation: what the cursor has passed -----

  lemma NoneInPrefix(es: seq<Entry>, k: nat, sidecar: Losses)
    requires k <= |es| && PendingIn(Markers(es), sidecar) == None
    ensures PendingIn(Markers(es[..k]), sidecar) == None
  {
    assert es == es[..k] + es[k..];
    MarkersAppend(es[..k], es[k..]);
    var (ms, all) := (Markers(es[..k]), Markers(es));
    assert forall i :: 0 <= i < |ms| ==> ms[i] == all[i];
  }

  /** Frames the sink took before they were durable hold no marker, so their becoming durable adds none. */
  lemma PassedDurable(l: Log, sidecar: Losses, read: nat)
    requires l.synced <= read <= TakenTo(l) <= |l.file|
    requires l.synced < TakenTo(l) ==> Markers(l.file[l.synced..TakenTo(l)]) == []
    requires PendingIn(Markers(l.file[..l.synced]), sidecar) == None
    ensures PendingIn(Markers(l.file[..read]), sidecar) == None
  {
    if l.synced < read {
      NoMarkersWithin(l.file, l.synced, read, TakenTo(l));
      assert l.file[..read] == l.file[..l.synced] + l.file[l.synced..read];
      MarkersAppend(l.file[..l.synced], l.file[l.synced..read]);
    }
  }

  lemma SyncPassed(s: State)
    requires LogInv(s.phase, s.log) && s.phase == Open && PassedInv(s.log, s.ledger.sidecar)
    ensures PassedInv(SyncLog(s.log), s.ledger.sidecar)
  {
    hide Markers, PendingIn, CursorInv, Shape, SyncInv, DeliveryInv;
    var l := s.log;
    assert TakenTo(l) <= |l.file|;
    if l.synced < l.read {
      PassedDurable(l, s.ledger.sidecar, l.read);
    }
  }

  lemma CrashPassed(s: State, keep: nat)
    requires PassedInv(s.log, s.ledger.sidecar) && Enabled(s, Crash(keep))
    ensures PassedInv(CrashLog(s.log, keep), s.ledger.sidecar)
  {
    hide Markers, PendingIn;
    var (l, l') := (s.log, CrashLog(s.log, keep));
    assert l'.file[..l'.read] == l.file[..l'.read];
    if l.synced < l'.read {
      PassedDurable(l, s.ledger.sidecar, l'.read);
    }
  }

  /** The sink and the cursor move on only while no marker is in flight or pending. */
  lemma ReplayPassed(s: State, a: Action)
    requires LogInv(s.phase, s.log) && LossInvAt(s) && Enabled(s, a) && (a.Deliver? || a.CommitCursor?)
    ensures PassedInv(Next(s, a).log, s.ledger.sidecar)
  {
    hide Markers, PendingIn, MarkerInv, CursorInv, PoisonInv, DeliveryInv, Grown;
    var (l, l') := (s.log, Next(s, a).log);
    if l'.synced < TakenTo(l') <= |l.file| {
      assert l.file[l.synced..] == l.file[l.synced..|l.file|];
      NoMarkersWithin(l.file, l.synced, TakenTo(l'), |l.file|);
    }
    var k := if l'.read < l.synced then l'.read else l.synced;
    NoneInPrefix(l.file[..l.synced], k, s.ledger.sidecar);
    assert l.file[..l.synced][..k] == l.file[..k];
  }

  /** A sidecar write leaves no marker pending. */
  lemma WritePassed(s: State, a: Action)
    requires Enabled(s, a) && LossInvAt(s) && LossInvOf(Next(s, a)) && Exact(Next(s, a))
    requires a.WriteLosses? || a.WriteSnapshot? || a.WriteCommit? || a.Reconcile?
    ensures PassedInv(s.log, Next(s, a).ledger.sidecar)
  {
    hide Markers, PendingIn, MarkerInv, Grown, SettleLossBatch;
    var (l, g) := (s.log, Next(s, a).ledger);
    assert PendingIn(Markers(l.file[..l.synced]), g.sidecar) == None by {
      if a.Reconcile? {
        ReconcileKeeps(s.ledger, Markers(l.admitted), Markers(l.file[..l.synced]));
      }
    }
    var k := if l.read < l.synced then l.read else l.synced;
    NoneInPrefix(l.file[..l.synced], k, g.sidecar);
    assert l.file[..l.synced][..k] == l.file[..k];
  }

  lemma AppendPassed(l: Log, sidecar: Losses, e: Entry)
    requires PassedInv(l, sidecar) && TakenTo(l) <= |l.file|
    ensures PassedInv(AppendTo(l, e), sidecar)
  {
    hide Markers, PendingIn;
    var l' := AppendTo(l, e);
    assert l'.file[..if l.read < l.synced then l.read else l.synced] == l.file[..if l.read < l.synced then l.read else l.synced];
    if l.synced < TakenTo(l) {
      assert l'.file[l.synced..TakenTo(l)] == l.file[l.synced..TakenTo(l)];
    }
  }

  /** Steps that move neither the durable frames, the cursor nor the sidecar. */
  lemma StillPassed(s: State, a: Action)
    requires PassedInv(s.log, s.ledger.sidecar) && LogInv(s.phase, s.log) && Enabled(s, a)
    requires !(a.Append? || a.AppendMarker? || a.SyncDue? || a.Sync? || a.SyncMarker? || a.Crash? || a.Deliver? || a.CommitCursor?
               || a.WriteLosses? || a.WriteSnapshot? || a.WriteCommit? || a.Reconcile?)
    ensures PassedInv(Next(s, a).log, Next(s, a).ledger.sidecar)
  {
    hide Shape, CursorInv, DeliveryInv;
    if a.TruncateFile? {
      NoMarkers();
    }
  }

  lemma PassedStep(s: State, a: Action)
    requires LogInv(s.phase, s.log) && LossInvAt(s) && Enabled(s, a) && Exact(Next(s, a))
    requires LossInvOf(Next(s, a))
    ensures PassedInv(Next(s, a).log, Next(s, a).ledger.sidecar)
  {
    hide LossInvOf, PassedInv, CursorInv, DeliveryInv, SyncInv;
    if a.Append? || a.AppendMarker? {
      AppendPassed(s.log, s.ledger.sidecar, a.entry);
    } else if a.SyncDue? || a.Sync? || a.SyncMarker? {
      SyncPassed(s);
    } else if a.Crash? {
      CrashPassed(s, a.keep);
    } else if a.Deliver? || a.CommitCursor? {
      ReplayPassed(s, a);
    } else if a.WriteLosses? || a.WriteSnapshot? || a.WriteCommit? || a.Reconcile? {
      WritePassed(s, a);
    } else {
      StillPassed(s, a);
    }
  }

  // ----- Preservation: ranges and costs, saturated or not -----

  lemma RangeStep(s: State, a: Action)
    requires RangeInv(s.phase, s.ledger) && Enabled(s, a)
    ensures RangeInv(Next(s, a).phase, Next(s, a).ledger)
  {
    hide Markers, Find, TotalLen;
  }

  lemma CostStep(s: State, a: Action)
    requires RangeInv(s.phase, s.ledger) && CostInv(s.ledger) && (Exact(s) ==> LossInvAt(s)) && Enabled(s, a)
    ensures CostInv(Next(s, a).ledger)
  {
    hide Markers, Find, TotalLen, Cost, LossInvAt, SettleLossBatch, AddLossState, Unsaturated;
    var g := s.ledger;
    var seen := g.lossEvents + g.idleAdds;
    if seen < U64_MAX {
      match a
      case Lose(n) =>
        if seen + (if n == 0 then 1 else n) < U64_MAX {
          CostOfAdding(g.memory, n);
        }
      case CommitMarker => CostOfSettling(g.memory, g.flow.batch);
      case Reconcile =>
        PendingPositive(s);
        CostOfSettling(g.sidecar, PendingMarker(s).value);
      case _ =>
    }
  }

  lemma PendingPositive(s: State)
    requires LossInvAt(s) && PendingMarker(s).Some?
    ensures PendingMarker(s).value.count > 0
  {
    hide Markers;
    var (l, m) := (s.log, PendingMarker(s).value);
    var (d, f) := (Markers(l.admitted), Markers(l.file[..l.synced]));
    var i :| 0 <= i < |f| && f[i] == m;
    assert d[|d| - |f| + i] == m;
  }

  lemma UntouchedInv(s: State)
    requires s.phase == Closed && s.ledger == Initial().ledger && LogInv(Closed, s.log)
    requires s.log.file == [] && s.log.admitted == []
    ensures Inv(s)
  {
    var l := s.log;
    assert l.file[..l.synced] == [] && l.file[l.synced..] == [];
    assert Markers([]) == [] && Reported([]) == 0;
  }

  /** The step system keeps its invariant. */
  lemma InvStep(s: State, a: Action)
    requires Inv(s) && Enabled(s, a)
    ensures Inv(Next(s, a))
  {
    hide RangeInv, CostInv, LossInvOf, PassedInv, CursorInv, PoisonInv, DeliveryInv, SyncInv;
    LogStep(s, a);
    RangeStep(s, a);
    CostStep(s, a);
    if Exact(Next(s, a)) {
      LossStep(s, a);
      PassedStep(s, a);
    }
  }

  /** The invariant holds after every legal run, of any length. */
  lemma {:induction false} InvOfRun(trace: seq<Action>)
    requires Legal(trace)
    ensures Inv(Run(trace))
  {
    hide Inv;
    if trace == [] {
      InitialLog();
      UntouchedInv(Initial());
    } else {
      InvOfRun(trace[..|trace| - 1]);
      InvStep(Run(trace[..|trace| - 1]), trace[|trace| - 1]);
    }
  }
}
