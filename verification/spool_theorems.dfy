/** The promises of the audit spool, for every run of any length. */
module SpoolTheorems {
  import opened Bytes
  import opened LossLedger
  import opened SpoolProtocol
  import opened SpoolSafety

  // ----- Delivery -----

  lemma UnreadIsTheRest(l: Log)
    requires Whole(l)
    ensures l.committed <= |Live(l)| && Live(l)[l.committed..] == l.file[l.read..]
  {
    forall i | 0 <= i < |l.file| - l.read ensures Live(l)[l.committed..][i] == l.file[l.read..][i] {
      LiveAt(l, l.read + i);
    }
  }

  /** The sink holds a prefix of the live entries: in order, and none twice. It is what the cursor has
      passed plus at most the one entry whose poison stops the next open. The passed entries followed by
      the unread frames are exactly the live ones, except in a spool that will not open again: there
      frames may be missing, but the sink holds every admitted entry. */
  lemma AtMostOnceInOrder(trace: seq<Action>)
    requires Legal(trace)
    ensures var l := Run(trace).log;
      && Shape(l) && l.delivered <= Live(l)
      && l.committed <= |l.delivered| <= l.committed + 1
      && (|l.delivered| > l.committed ==> PoisonAtCursor(l))
      && (|| Live(l)[..l.committed] + l.file[l.read..] == Live(l)
          || (Run(trace).phase != Open && Barred(l) && l.delivered == l.admitted))
  {
    hide Run, Legal, LossInvAt, RangeInv, CostInv;
    InvOfRun(trace);
    var l := Run(trace).log;
    if Whole(l) {
      UnreadIsTheRest(l);
    }
  }

  lemma StepExtendsHistory(s: State, a: Action)
    requires Inv(s) && Enabled(s, a)
    ensures s.log.admitted <= Next(s, a).log.admitted
    ensures s.log.delivered <= Next(s, a).log.delivered
    ensures s.log.committed <= Next(s, a).log.committed
  {
    hide LossInvAt, RangeInv, CostInv, DeliveryInv, PoisonInv, CursorInv, SettleLossBatch, Lost, PendingMarker, Markers, TotalLen;
  }

  /** Nothing that became durable is ever taken back: admissions, deliveries and the committed count
      only grow, across crashes, reopens and truncations alike. */
  lemma {:induction false} HistoryOnlyGrows(trace: seq<Action>, more: seq<Action>)
    requires Legal(trace + more)
    ensures Legal(trace)
    ensures Run(trace).log.admitted <= Run(trace + more).log.admitted
    ensures Run(trace).log.delivered <= Run(trace + more).log.delivered
    ensures Run(trace).log.committed <= Run(trace + more).log.committed
  {
    if more == [] {
      assert trace + more == trace;
    } else {
      var t, most := trace + more, more[..|more| - 1];
      assert t[..|t| - 1] == trace + most;
      hide Enabled, Next, Inv;
      HistoryOnlyGrows(trace, most);
      InvOfRun(trace + most);
      StepExtendsHistory(Run(trace + most), t[|t| - 1]);
    }
  }

  // ----- When a crash bars the next open -----

  /** After a crash, `open` fails exactly if some frames survived but one the cursor had passed did not,
      or the crash fell between the first and the last write of a delivery. */
  lemma CrashBarsOpenIff(trace: seq<Action>, keep: nat)
    requires Legal(trace) && Enabled(Run(trace), Crash(keep))
    ensures var l := Run(trace).log;
      Barred(Next(Run(trace), Crash(keep)).log) <==> (0 < keep < l.read || l.replay == Begun || l.replay == Delivered)
  {
    hide Run, Legal, LossInvAt, RangeInv, CostInv, DeliveryInv, CursorInv;
    InvOfRun(trace);
  }

  /** A cursor past the frames costs nothing but the open: the sink has taken every admitted entry. */
  lemma AdriftHoldsNothingBack(trace: seq<Action>)
    requires Legal(trace) && Run(trace).log.adrift
    ensures Run(trace).phase != Open && Run(trace).log.delivered == Run(trace).log.admitted
  {
    hide Run, Legal, LossInvAt, RangeInv, CostInv;
    InvOfRun(trace);
  }

  /** Every open of the run uses the default cadence: a sync per append. */
  predicate DefaultCadence(trace: seq<Action>) {
    forall i :: 0 <= i < |trace| && trace[i].FinishOpen? ==> trace[i].syncEvery == 1
  }

  predicate TakenIsDurable(s: State) {
    !s.log.adrift && TakenTo(s.log) <= s.log.synced && (s.phase == Open ==> s.log.syncEvery == 1)
  }

  lemma DurableStep(s: State, a: Action)
    requires Inv(s) && Enabled(s, a) && TakenIsDurable(s) && (a.FinishOpen? ==> a.syncEvery == 1)
    ensures TakenIsDurable(Next(s, a))
  {
    hide LossInvAt, RangeInv, CostInv, DeliveryInv, CursorInv, Markers, TotalLen, PendingMarker;
  }

  /** With the default cadence the sink only ever takes durable frames, and no crash leaves the cursor
      past the frames. */
  lemma {:induction false} DefaultCadenceNeverDrifts(trace: seq<Action>)
    requires Legal(trace) && DefaultCadence(trace)
    ensures TakenIsDurable(Run(trace))
  {
    if trace != [] {
      var before, a := trace[..|trace| - 1], trace[|trace| - 1];
      hide Enabled, Next, Inv, TakenIsDurable;
      DefaultCadenceNeverDrifts(before);
      InvOfRun(before);
      DurableStep(Run(before), a);
    }
  }

  // ----- Losses -----

  /** Exact loss accounting: every loss is settled against a durable marker, pending in the sidecar,
      added since the last sidecar write, or was held only in memory at a crash. */
  lemma LossesAccounted(trace: seq<Action>)
    requires Legal(trace) && Exact(Run(trace))
    ensures var g := Run(trace).ledger;
      g.lossEvents == g.accounted + g.sidecar.count + g.unpersisted + g.forgotten
  {
    InvOfRun(trace);
  }

  /** Durable markers carry strictly increasing generations, none above the sidecar's, so a lookup by
      generation alone finds the only candidate. */
  lemma MarkerGenerationsIncrease(trace: seq<Action>)
    requires Legal(trace) && Exact(Run(trace))
    ensures var s := Run(trace); var ms := DurableMarkers(s);
      && StrictlyNewer(ms) && NoneAbove(ms, s.ledger.sidecar.generation)
      && forall i :: 0 <= i < |ms| ==> Find(ms, ms[i].generation) == Some(ms[i])
  {
    InvOfRun(trace);
    var s := Run(trace);
    var ms, v := DurableMarkers(s), Markers(s.log.file[s.log.synced..]);
    forall i, j | 0 <= i < j < |ms| ensures ms[i].generation < ms[j].generation {
      assert (ms + v)[i] == ms[i] && (ms + v)[j] == ms[j];
    }
    forall i | 0 <= i < |ms| ensures ms[i].generation <= s.ledger.sidecar.generation {
      assert (ms + v)[i] == ms[i];
    }
    forall i | 0 <= i < |ms| ensures Find(ms, ms[i].generation) == Some(ms[i]) {
      FindIsUnique(ms, i);
    }
  }

  /** NothingPending losses never exceed what durable markers report, and the two are equal whenever the
      writer is idle on an open spool. */
  lemma MarkersSettledOnce(trace: seq<Action>)
    requires Legal(trace) && Exact(Run(trace))
    ensures var s := Run(trace);
      && s.ledger.accounted <= Reported(DurableMarkers(s))
      && (s.phase == Open && s.ledger.flow == NoFlow ==> s.ledger.accounted == Reported(DurableMarkers(s)))
  {
    InvOfRun(trace);
  }

  /** In the serial flow `commit` never meets a generation other than its batch's, and the pending
      count covers the batch: the clamped case of the settlement is unreachable. */
  lemma CommitMeetsItsGeneration(trace: seq<Action>)
    requires Legal(trace) && Run(trace).ledger.flow.MarkerSynced?
    ensures var g := Run(trace).ledger;
      BatchOf(g.flow.batch, g.memory)
  {
    InvOfRun(trace);
  }

  /** Saturation is exactly where counting stops being exact. */
  lemma AddIsExactIffBelowSaturation(l: Losses, added: nat)
    requires InRange(l) && 0 < added <= U64_MAX
    ensures AddLossState(l, added).count == l.count + added <==> l.count + added <= U64_MAX
    ensures InRange(AddLossState(l, added))
  {
  }

  /** A run saturates no counter before it has seen 2^64 - 1 losses and empty additions. */
  lemma FewLossesNeverSaturate(trace: seq<Action>)
    requires Legal(trace) && Run(trace).ledger.lossEvents + Run(trace).ledger.idleAdds < U64_MAX
    ensures Exact(Run(trace))
  {
    hide Run, Legal;
    InvOfRun(trace);
  }

  /** A marker is pending only while its own frame is unread, and the sink takes no marker that is not
      yet durable. So a truncation, at run time or in `open`, never drops a pending marker. */
  lemma PendingMarkerIsUnread(trace: seq<Action>)
    requires Legal(trace) && Exact(Run(trace))
    ensures var (l, sidecar) := (Run(trace).log, Run(trace).ledger.sidecar);
      && Shape(l)
      && (l.read <= l.synced ==> PendingIn(Markers(l.file[..l.read]), sidecar) == None)
      && (l.synced <= TakenTo(l) <= |l.file| ==> Markers(l.file[l.synced..TakenTo(l)]) == [])
      && (Enabled(Run(trace), TruncateFile) ==> PendingMarker(Run(trace)) == None)
  {
    hide Run, Legal, RangeInv, CostInv, CursorInv, PoisonInv, DeliveryInv, MarkerInv;
    InvOfRun(trace);
    if Enabled(Run(trace), TruncateFile) {
      DrainedIsSettled(Run(trace));
    }
  }

  // ----- Recovery -----

  predicate RecoveryAction(a: Action) {
    a.ClearStalePoison? || a.Reconcile? || a.TruncateFile? || a.ResetCursor?
  }

  predicate NeedsTruncate(l: Log) { Drained(l) && l.offset > 0 }

  function Truncated(l: Log): Log
    requires l.synced <= |l.file|
  {
    if NeedsTruncate(l) then EmptyFile(l).(truncating := false, offset := 0) else l
  }

  /** What `Spool::open` leaves behind: stale poison cleared, losses reconciled against the file, and
      a drained file truncated. */
  function Recovered(s: State, max: nat, every: nat): State
    requires s.log.synced <= |s.log.file|
  {
    State(Open, Truncated(s.log.(poison := None)).(maxBytes := max, syncEvery := every, unsynced := 0, replay := Idle),
          Reconciled(s.ledger, PendingMarker(s)))
  }

  /** The durable writes recovery makes from `s`, in the order `open` makes them. */
  function RecoveryTrace(s: State, max: nat, every: nat): seq<Action>
    requires s.log.synced <= |s.log.file|
  {
    (if s.log.poison.Some? then [ClearStalePoison] else [])
    + (if PendingMarker(s).Some? then [Reconcile] else [])
    + (if NeedsTruncate(s.log) then [TruncateFile, ResetCursor] else [])
    + [FinishOpen(max, every)]
  }

  lemma BarredIffRefused(s: State)
    requires Inv(s) && s.phase == Closed
    ensures Barred(s.log) <==> (s.log.adrift || PoisonAtCursor(s.log))
    ensures Barred(s.log) <==> Enabled(s, Refuse)
  {
  }

  lemma ReconcileSettles(s: State)
    requires Inv(s) && s.phase == Closed && PendingMarker(s).Some?
    requires Reconciled(s.ledger, PendingMarker(s)).exact
    ensures var g := Reconciled(s.ledger, PendingMarker(s));
      && PendingMarker(s.(ledger := g)) == None
      && g.sidecar.count + PendingMarker(s).value.count == s.ledger.sidecar.count
  {
    hide CursorInv, PoisonInv, DeliveryInv, CostInv, RangeInv, Markers;
    var l := s.log;
    assert Markers(l.file[l.synced..]) == [] by { assert l.file[l.synced..] == []; NoMarkers(); }
    ReconcileKeeps(s.ledger, Markers(l.admitted), Markers(l.file[..l.synced]));
  }

  lemma PoisonStage(trace: seq<Action>) returns (t: seq<Action>)
    requires Legal(trace) && Run(trace).phase == Closed && !Barred(Run(trace).log)
    ensures Legal(t) && Run(t) == Run(trace).(log := Run(trace).log.(poison := None))
    ensures t == trace + (if Run(trace).log.poison.Some? then [ClearStalePoison] else [])
  {
    InvOfRun(trace);
    t := trace;
    if Run(trace).log.poison.Some? {
      RunStep(trace, ClearStalePoison);
      t := trace + [ClearStalePoison];
    } else {
      assert trace + [] == trace;
    }
  }

  /** No marker is left to settle; once a counter has saturated, one may look pending for good. */
  predicate NothingPending(s: State) { s.log.synced <= |s.log.file| && (PendingMarker(s) == None || !Exact(s)) }

  lemma LossStage(trace: seq<Action>) returns (t: seq<Action>)
    requires Legal(trace) && Run(trace).phase == Closed && Run(trace).log.poison == None && !Run(trace).log.adrift
    ensures Legal(t) && Shape(Run(trace).log) && Run(t) == Run(trace).(ledger := Reconciled(Run(trace).ledger, PendingMarker(Run(trace))))
    ensures NothingPending(Run(t))
    ensures t == trace + (if PendingMarker(Run(trace)).Some? then [Reconcile] else [])
  {
    InvOfRun(trace);
    t := trace;
    if PendingMarker(Run(trace)).Some? {
      if Reconciled(Run(trace).ledger, PendingMarker(Run(trace))).exact {
        ReconcileSettles(Run(trace));
      }
      RunStep(trace, Reconcile);
      t := trace + [Reconcile];
    } else {
      assert trace + [] == trace;
    }
  }

  lemma TruncateStage(trace: seq<Action>) returns (t: seq<Action>)
    requires Legal(trace) && Run(trace).phase == Closed && !Barred(Run(trace).log) && Run(trace).log.poison == None
    requires Shape(Run(trace).log) && NothingPending(Run(trace))
    ensures Legal(t) && Run(t) == Run(trace).(log := Truncated(Run(trace).log))
    ensures Shape(Run(t).log) && NothingPending(Run(t))
    ensures t == trace + (if NeedsTruncate(Run(trace).log) then [TruncateFile, ResetCursor] else [])
  {
    hide LossInvAt, RangeInv, CostInv, CursorInv, PoisonInv, DeliveryInv;
    InvOfRun(trace);
    t := trace;
    if NeedsTruncate(Run(trace).log) {
      RunStep(trace, TruncateFile);
      RunStep(trace + [TruncateFile], ResetCursor);
      t := trace + [TruncateFile] + [ResetCursor];
      assert t == trace + [TruncateFile, ResetCursor];
      InvOfRun(t);
      assert Run(t).log.file[..0] == [];
    } else {
      assert trace + [] == trace;
    }
  }

  lemma FinishStage(trace: seq<Action>, max: nat, every: nat)
    requires Legal(trace) && Run(trace).phase == Closed && !Barred(Run(trace).log) && Run(trace).log.poison == None
    requires Shape(Run(trace).log) && NothingPending(Run(trace)) && !NeedsTruncate(Run(trace).log)
    requires max <= U64_MAX && 0 < every <= U64_MAX
    ensures Legal(trace + [FinishOpen(max, every)])
    ensures Run(trace + [FinishOpen(max, every)])
         == State(Open, Run(trace).log.(maxBytes := max, syncEvery := every, unsynced := 0, replay := Idle), Run(trace).ledger)
  {
    InvOfRun(trace);
    RunStep(trace, FinishOpen(max, every));
  }

  lemma LastStages(trace: seq<Action>, max: nat, every: nat, truncates: bool)
    requires Legal(trace) && Run(trace).phase == Closed && !Barred(Run(trace).log) && Run(trace).log.poison == None
    requires Shape(Run(trace).log) && NothingPending(Run(trace)) && truncates == NeedsTruncate(Run(trace).log)
    requires max <= U64_MAX && 0 < every <= U64_MAX
    ensures var reopened := trace + ((if truncates then [TruncateFile, ResetCursor] else []) + [FinishOpen(max, every)]);
      && Legal(reopened)
      && Run(reopened)
         == State(Open, Truncated(Run(trace).log).(maxBytes := max, syncEvery := every, unsynced := 0, replay := Idle), Run(trace).ledger)
  {
    hide NothingPending;
    var t := TruncateStage(trace);
    FinishStage(t, max, every);
    assert t + [FinishOpen(max, every)]
        == trace + ((if truncates then [TruncateFile, ResetCursor] else []) + [FinishOpen(max, every)]);
  }

  lemma FirstStages(trace: seq<Action>) returns (t: seq<Action>)
    requires Legal(trace) && Run(trace).phase == Closed && !Barred(Run(trace).log)
    ensures var s := Run(trace);
      && Shape(s.log) && Legal(t) && Shape(Run(t).log) && NothingPending(Run(t))
      && t == trace + ((if s.log.poison.Some? then [ClearStalePoison] else []) + (if PendingMarker(s).Some? then [Reconcile] else []))
      && Run(t) == State(Closed, s.log.(poison := None), Reconciled(s.ledger, PendingMarker(s)))
  {
    hide Run, Legal, Reconciled, NothingPending, LossInvAt, RangeInv, CostInv, CursorInv, PoisonInv, DeliveryInv, SyncInv, PendingIn, Markers;
    InvOfRun(trace);
    var t1 := PoisonStage(trace);
    t := LossStage(t1);
  }

  /** Recovery is total: from every closed state a run can reach, the writes `open` makes are all
      possible in their order, unless the cursor is past the frames or a poison sits at it. */
  lemma RecoveryIsTotal(trace: seq<Action>, max: nat, every: nat)
    requires Legal(trace) && Run(trace).phase == Closed && !Barred(Run(trace).log)
    requires max <= U64_MAX && 0 < every <= U64_MAX
    ensures var s := Run(trace);
      && Shape(s.log)
      && var reopened := trace + RecoveryTrace(s, max, every);
      && Legal(reopened) && Run(reopened) == Recovered(s, max, every)
  {
    hide Run, Legal, Reconciled, Framed, PendingMarker, NothingPending;
    var s := Run(trace);
    var t := FirstStages(trace);
    var truncates := NeedsTruncate(s.log);
    LastStages(t, max, every, truncates);
    assert t + ((if truncates then [TruncateFile, ResetCursor] else []) + [FinishOpen(max, every)])
        == trace + RecoveryTrace(s, max, every);
  }

  lemma RecoveredInv(trace: seq<Action>, max: nat, every: nat)
    requires Legal(trace) && Run(trace).phase == Closed && !Barred(Run(trace).log)
    requires max <= U64_MAX && 0 < every <= U64_MAX
    ensures Shape(Run(trace).log) && Inv(Recovered(Run(trace), max, every))
  {
    hide Recovered, RecoveryTrace, Inv;
    RecoveryIsTotal(trace, max, every);
    InvOfRun(trace + RecoveryTrace(Run(trace), max, every));
  }

  /** Recovery is exact: the open spool's unread frames are precisely the admitted entries not yet
      committed, the sink holds precisely the committed ones, and nothing admitted is forgotten. */
  lemma RecoveryIsExact(trace: seq<Action>, max: nat, every: nat)
    requires Legal(trace) && Run(trace).phase == Closed && !Barred(Run(trace).log)
    ensures var s := Run(trace);
      && Shape(s.log) && s.log.committed <= |s.log.admitted|
      && var t := Recovered(s, max, every);
      && t.log.admitted == s.log.admitted
      && t.log.delivered == s.log.delivered == s.log.admitted[..s.log.committed]
      && t.log.read <= |t.log.file| == t.log.synced
      && t.log.file[t.log.read..] == s.log.admitted[s.log.committed..]
      && t.log.offset == TotalLen(t.log.file[..t.log.read])
  {
    hide Run, Legal, LossInvAt, RangeInv, CostInv, Reconciled, PendingMarker;
    InvOfRun(trace);
    var l := Run(trace).log;
    UnreadIsTheRest(l);
    assert l.file[l.synced..] == [] && Live(l) == l.admitted;
    assert l.file == [] ==> l.file[..0] == [];
  }

  /** The reopened spool's losses are what the sidecar held minus those the durable marker beside them
      reports, and every loss is still accounted for. */
  lemma RecoveredLosses(trace: seq<Action>, max: nat, every: nat)
    requires Legal(trace) && Run(trace).phase == Closed && Shape(Run(trace).log)
    requires Exact(Recovered(Run(trace), max, every))
    ensures var s := Run(trace);
      && var g := Recovered(s, max, every).ledger;
      && g.memory == g.sidecar
      && g.sidecar.count + (if PendingMarker(s).Some? then PendingMarker(s).value.count else 0) == s.ledger.sidecar.count
      && g.lossEvents == g.accounted + g.sidecar.count + g.forgotten
      && g.accounted == Reported(DurableMarkers(s))
  {
    hide Run, Legal, CursorInv, PoisonInv, DeliveryInv, RangeInv, CostInv;
    InvOfRun(trace);
    if PendingMarker(Run(trace)).Some? {
      ReconcileSettles(Run(trace));
    }
  }

  lemma RestartAfterReconcile(s: State, g: Ledger, max: nat, every: nat)
    requires s.log.synced <= |s.log.file| && g == Reconciled(s.ledger, PendingMarker(s))
    requires PendingMarker(s.(ledger := g)) == None
    ensures Recovered(s.(ledger := g), max, every) == Recovered(s, max, every)
  {
  }

  lemma NextOfReconcile(s: State)
    requires s.phase == Closed && Enabled(s, Reconcile)
    ensures s.log.synced <= |s.log.file| && PendingMarker(s).Some?
    ensures Next(s, Reconcile) == s.(ledger := Reconciled(s.ledger, PendingMarker(s)))
  {
  }

  lemma NextOfTruncate(s: State)
    requires Enabled(s, TruncateFile)
    ensures Next(s, TruncateFile).ledger == s.ledger
  {
  }

  lemma RestartAfterLogWrite(s: State, a: Action, max: nat, every: nat)
    requires LogInv(s.phase, s.log) && s.phase == Closed && Enabled(s, a)
    requires a.ClearStalePoison? || ((a.TruncateFile? || a.ResetCursor?) && s.log.offset > 0)
    requires a.TruncateFile? ==> PendingMarker(s) == None
    ensures Next(s, a).log.synced <= |Next(s, a).log.file|
    ensures Recovered(Next(s, a), max, every) == Recovered(s, max, every)
  {
    hide PoisonInv, DeliveryInv;
    assert s.log.file[s.log.synced..] == [];
    if a.TruncateFile? || a.ResetCursor? {
      assert Markers([]) == [];
      assert s.log.file == [] ==> s.log.file[..0] == [];
      assert Next(s, a).log.file[..0] == [];
      assert PendingMarker(s) == None == PendingMarker(Next(s, a));
    }
  }

  lemma DrainedIsSettled(s: State)
    requires Inv(s) && Exact(s) && Enabled(s, TruncateFile)
    ensures PendingMarker(s) == None
  {
    hide RangeInv, CostInv, CursorInv, PoisonInv, DeliveryInv, MarkerInv;
  }

  lemma RestartMayGoOn(s: State, a: Action)
    requires LogInv(s.phase, s.log) && s.phase == Closed && !Barred(s.log)
    requires RecoveryAction(a) && Enabled(s, a) && (a.TruncateFile? || a.ResetCursor? ==> s.log.offset > 0)
    ensures Next(s, a).phase == Closed && !Barred(Next(s, a).log)
  {
    hide DeliveryInv, CursorInv;
  }

  /** Recovery can be cut short after any of its writes: starting over leads to the same spool. */
  lemma RecoveryIsRestartable(s: State, a: Action, max: nat, every: nat)
    requires Inv(s) && s.phase == Closed && !Barred(s.log)
    requires RecoveryAction(a) && Enabled(s, a) && (a.TruncateFile? || a.ResetCursor? ==> s.log.offset > 0)
    requires a.Reconcile? || a.TruncateFile? ==> Exact(Next(s, a))
    ensures Next(s, a).phase == Closed && !Barred(Next(s, a).log) && Inv(Next(s, a))
    ensures Recovered(Next(s, a), max, every) == Recovered(s, max, every)
  {
    hide CursorInv, PoisonInv, DeliveryInv, SyncInv, LossInvAt, RangeInv, CostInv, Enabled, Next, Recovered, Barred;
    InvStep(s, a);
    RestartMayGoOn(s, a);
    if a.Reconcile? {
      NextOfReconcile(s);
      ReconcileSettles(s);
      RestartAfterReconcile(s, Next(s, a).ledger, max, every);
    } else {
      if a.TruncateFile? {
        assert Exact(s) by { NextOfTruncate(s); }
        DrainedIsSettled(s);
      }
      RestartAfterLogWrite(s, a, max, every);
    }
  }

  /** Reconciling again on a second reopen changes nothing: a crash right after open recovers the very
      same spool and the very same losses. */
  lemma SecondReopenChangesNothing(trace: seq<Action>, max: nat, every: nat)
    requires Legal(trace) && Run(trace).phase == Closed && !Barred(Run(trace).log)
    requires max <= U64_MAX && 0 < every <= U64_MAX
    requires Shape(Run(trace).log) && Exact(Recovered(Run(trace), max, every))
    ensures var t := Recovered(Run(trace), max, every);
      && Enabled(t, Crash(|t.log.file|))
      && Recovered(Next(t, Crash(|t.log.file|)), max, every) == t
  {
    hide Run, Legal, RangeInv, CostInv;
    RecoveredInv(trace, max, every);
    InvOfRun(trace);
    ReopenOfIdle(Recovered(Run(trace), max, every));
  }

  lemma ReopenOfIdle(t: State)
    requires Inv(t) && Exact(t) && t.phase == Open && t.log.replay == Idle && t.ledger.flow == NoFlow
    requires t.log.synced == |t.log.file| && t.log.unsynced == 0 && !t.log.truncating && !NeedsTruncate(t.log)
    requires t.ledger.unpersisted == 0 && t.ledger.memory == t.ledger.sidecar
    ensures Enabled(t, Crash(|t.log.file|))
    ensures Recovered(Next(t, Crash(|t.log.file|)), t.log.maxBytes, t.log.syncEvery) == t
  {
    hide CostInv, MarkerInv, Shape, TotalLen, Markers;
    var c := Next(t, Crash(|t.log.file|));
    assert t.log.file[..|t.log.file|] == t.log.file;
    assert t.log.admitted + t.log.file[t.log.synced..|t.log.file|] == t.log.admitted;
    assert c.log.(replay := t.log.replay) == t.log;
    assert PendingMarker(c) == PendingMarker(t) == None;
  }

  // ----- Why the order of recovery matters -----

  /** Truncating a drained spool before the poison check strands it exactly when a poison is left:
      the reset cursor can no longer pass it, although the sink has taken every admitted entry. */
  lemma TruncateBeforePoisonStrands(trace: seq<Action>)
    requires Legal(trace) && Run(trace).phase == Closed && NeedsTruncate(Run(trace).log) && !Barred(Run(trace).log)
    ensures var l := Run(trace).log;
      && Shape(l)
      && (Barred(Truncated(l)) <==> l.poison.Some?)
      && l.delivered == l.admitted
  {
    hide Run, Legal, LossInvAt, RangeInv, CostInv;
    InvOfRun(trace);
    var l := Run(trace).log;
    UnreadIsTheRest(l);
    assert l.file[l.synced..] == [] && Live(l) == l.admitted;
  }

  /** The run that delivers one entry and crashes before its poison is removed. */
  function CrashBeforeClear(e: Entry, max: nat): seq<Action> {
    [FinishOpen(max, 1), Append(e), SyncDue, BeginReplay, Deliver, CommitCursor, Crash(1)]
  }

  /** Such a state is reached, with any one entry: it opens as the code has it and not the other way. */
  lemma StrandingIsReachable(e: Entry, max: nat)
    requires e.marker == None && 4 <= e.len <= max <= U64_MAX
    ensures var trace := CrashBeforeClear(e, max);
      && Legal(trace) && Run(trace).phase == Closed && Shape(Run(trace).log)
      && NeedsTruncate(Run(trace).log) && !Barred(Run(trace).log) && Barred(Truncated(Run(trace).log))
  {
    var t := DeliverOne(e, max);
    RunStep(t, Crash(1));
    hide Run, Legal;
    assert t + [Crash(1)] == CrashBeforeClear(e, max);
    assert [e][..1] == [e] && [e][..0] == [];
    assert TotalLen([e]) == TotalLen([]) + e.len;
  }

  lemma DeliverOne(e: Entry, max: nat) returns (t: seq<Action>)
    requires e.marker == None && 4 <= e.len <= max <= U64_MAX
    ensures t == [FinishOpen(max, 1), Append(e), SyncDue, BeginReplay, Deliver, CommitCursor] && Legal(t)
    ensures Run(t) == Initial().(phase := Open,
      log := Initial().log.(file := [e], synced := 1, read := 1, offset := e.len, poison := Some(Poison(0, e)), replay := CursorCommitted,
        maxBytes := max, syncEvery := 1, admitted := [e], delivered := [e], committed := 1))
  {
    t := WriteOne(e, max);
    RunStep(t, BeginReplay);
    t := t + [BeginReplay];
    RunStep(t, Deliver);
    t := t + [Deliver];
    RunStep(t, CommitCursor);
    t := t + [CommitCursor];
  }

  lemma WriteOne(e: Entry, max: nat) returns (t: seq<Action>)
    requires e.marker == None && 4 <= e.len <= max <= U64_MAX
    ensures t == [FinishOpen(max, 1), Append(e), SyncDue] && Legal(t)
    ensures Run(t) == Initial().(phase := Open,
      log := Initial().log.(file := [e], synced := 1, maxBytes := max, syncEvery := 1, admitted := [e]))
  {
    assert Markers(Initial().log.file[..0]) == [] && TotalLen([]) == 0;
    t := [];
    RunStep(t, FinishOpen(max, 1));
    t := t + [FinishOpen(max, 1)];
    RunStep(t, Append(e));
    assert Run(t + [Append(e)]).log.file == [e];
    t := t + [Append(e)];
    RunStep(t, SyncDue);
    t := t + [SyncDue];
    assert [] + [e][0..1] == [e];
  }

  /** The settlement that left a remainder in its marker's generation settled it again on reopen. */
  lemma SupersededSettlementSettlesTwice(state: Losses, batch: Losses, markers: seq<Losses>)
    requires BatchOf(batch, state) && batch.count < state.count && state.generation < U64_MAX
    requires StrictlyNewer(markers + [batch])
    ensures PendingIn(markers + [batch], Losses(state.generation, state.count - batch.count)) == Some(batch)
    ensures PendingIn(markers + [batch], SettleLossBatch(state, batch)) == None
  {
    var ms := markers + [batch];
    FindIsUnique(ms, |markers|);
    forall i | 0 <= i < |ms| ensures ms[i].generation <= batch.generation {
      assert ms[|markers|] == batch;
    }
  }
}
