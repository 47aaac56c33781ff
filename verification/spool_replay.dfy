/** Draining the spool to the sink, in order. */
module SpoolReplay {
  import opened Bytes
  import opened AuditCodec
  import opened SpoolProtocol
  import opened SpoolSafety
  import opened SpoolFiles
  import opened SpoolStore
  import opened SpoolReader
  import opened AuditSpool

  /** What a write to the sink comes to. An uncertain one may have landed all the same. */
  datatype SinkReply = Accepted | Refused | Uncertain(landed: bool)

  /** How many of the next `n` writes the sink accepts before the first it does not, if its replies
      from write `from` on are `reply`. */
  function Taken(reply: nat -> SinkReply, from: nat, n: nat): (k: nat)
    ensures k <= n
    decreases n
  {
    if n == 0 || reply(from) != Accepted then 0 else 1 + Taken(reply, from + 1, n - 1)
  }

  lemma TakenStep(reply: nat -> SinkReply, from: nat, n: nat)
    requires n > 0
    ensures Taken(reply, from, n) == if reply(from) == Accepted then 1 + Taken(reply, from + 1, n - 1) else 0
  {
  }

  /** Taking `size` at a time is taking them all. */
  lemma {:induction false} TakenInBatches(reply: nat -> SinkReply, from: nat, n: nat, size: nat)
    requires size <= n
    ensures var k := Taken(reply, from, size);
      && (k < size ==> Taken(reply, from, n) == k && reply(from + k) != Accepted)
      && (k == size ==> Taken(reply, from, n) == k + Taken(reply, from + k, n - k))
    decreases size
  {
    if size > 0 && reply(from) == Accepted {
      TakenInBatches(reply, from + 1, n - 1, size - 1);
    }
  }

  /** The log with `k` more entries delivered and passed by the cursor. */
  function Advanced(l: Log, k: nat): Log
    requires l.read + k <= |l.file|
  {
    l.(read := l.read + k, offset := TotalLen(l.file[..l.read + k]), committed := l.committed + k,
       delivered := l.delivered + l.file[l.read..l.read + k])
  }

  lemma AdvancedByNone(l: Log)
    requires l.read <= |l.file| && l.offset == TotalLen(l.file[..l.read])
    ensures Advanced(l, 0) == l
  {
    assert l.delivered + l.file[l.read..l.read] == l.delivered;
  }

  lemma StartsAtCursor(s: State)
    requires Reachable(s) && s.phase == Open && !s.log.truncating
    ensures s.log.read <= |s.log.file| && Advanced(s.log, 0) == s.log
  {
    hide Reachable, TotalLen, Advanced;
    ReachableShape(s);
    AdvancedByNone(s.log);
  }

  /** The log with the entry at its cursor delivered and passed. */
  function Passed(l: Log): Log
    requires l.read < |l.file|
  {
    CursorPast(l).(delivered := l.delivered + [l.file[l.read]], replay := l.replay)
  }

  lemma AdvancedByOneMore(l: Log, k: nat)
    requires l.read + k < |l.file|
    ensures var m := Advanced(l, k);
      Advanced(l, k + 1) == Passed(m)
  {
    hide TotalLen;
    TotalLenSnoc(l.file, l.read + k);
    DeliveredSlices(l.delivered, l.file, l.read, l.read + k, l.read + k + 1);
    assert l.file[l.read + k..l.read + k + 1] == [l.file[l.read + k]];
  }

  lemma DeliveredSlices(delivered: seq<Entry>, file: seq<Entry>, i: nat, j: nat, k: nat)
    requires i <= j <= k <= |file|
    ensures delivered + file[i..j] + file[j..k] == delivered + file[i..k]
  {
    var (a, b) := (file[i..j], file[j..k]);
    assert file[i..k] == a + b;
    assert delivered + a + b == delivered + (a + b);
  }

  /** The log when an uncertain write stops replay: the poison stays at the cursor. */
  function Stuck(l: Log, landed: bool): Log
    requires l.read < |l.file|
  {
    var begun := l.(poison := Some(Poison(l.offset, l.file[l.read])), replay := Begun);
    if landed then begun.(delivered := l.delivered + [l.file[l.read]], replay := Delivered) else begun
  }

  /** One record of `try_replay`. */
  method ReplayRecord(spool: Spool, record: AuditRecord, frameLen: nat, reply: SinkReply)
    requires spool.Valid() && spool.dir.st.log.replay == Idle && spool.dir.st.log.read < |spool.dir.st.log.file|
    requires record == spool.Unread()[0] && frameLen == spool.dir.st.log.file[spool.dir.st.log.read].len
    modifies spool`replayOffset, spool`count, spool.dir`offset, spool.dir`poison, spool.dir`st
    ensures spool.Valid()
    ensures spool.dir.st.(log := old(spool.dir.st.log)) == old(spool.dir.st)
    ensures var l := old(spool.dir.st.log);
      spool.dir.st.log == match reply
        case Accepted => Passed(l)
        case Refused => l
        case Uncertain(landed) => Stuck(l, landed)
  {
    hide NextState, Reachable, FileRep, LossRep, OffsetRep, PoisonRep, TotalLen, Records, EntryOf, PoisonFile, OffsetFile;
    ghost var l := spool.dir.st.log;
    ReachableShape(spool.dir.st);
    NextEntry(spool.dir.spool.value, l);
    spool.BeginReplay(record);
    if reply == Accepted || reply == Uncertain(true) {
      DeliverStep(spool.dir.st);
      ghost var m := spool.dir.st.log;
      spool.dir.Step(Deliver, spool.dir.st.(log := m.(delivered := m.delivered + [m.file[m.read]], replay := Delivered)));
    }
    match reply
    case Accepted => spool.CommitReplayFrame(frameLen);
    case Refused => spool.AbortReplay();
    case Uncertain(_) =>
  }

  lemma NextEntry(spool: seq<u8>, l: Log)
    requires FileRep(Some(spool), [], l.file) && l.read < |l.file|
    ensures EntryOf(Records(l.file[l.read..])[0]) == l.file[l.read]
  {
    assert Genuine(l.file[l.read]);
  }

  /** Where `k` accepted writes, and the reply to the next, leave the log. */
  function Replayed(l: Log, k: nat, n: nat, reply: nat -> SinkReply, from: nat): Log
    requires k <= n && l.read + n <= |l.file|
  {
    if k < n && reply(from + k).Uncertain? then Stuck(Advanced(l, k), reply(from + k).landed) else Advanced(l, k)
  }

  ghost predicate Ready(spool: Spool)
    reads spool, spool.dir, spool.pending
  {
    spool.Valid() && spool.dir.st.log.replay == Idle
  }

  lemma ReadyFacts(spool: Spool)
    requires Ready(spool)
    ensures var l := spool.dir.st.log; spool.Valid() && l.read + spool.count == |l.file| && Advanced(l, 0) == l
  {
    hide Reachable, FileRep, LossRep, OffsetRep, PoisonRep, TotalLen, Advanced;
    StartsAtCursor(spool.dir.st);
  }

  /** `batch` is what `ReadReplayBatch` found at the cursor of `l`. */
  ghost predicate AtCursor(batch: seq<(AuditRecord, nat)>, l: Log) {
    && l.read + |batch| <= |l.file|
    && forall i :: 0 <= i < |batch| ==> batch[i] == (l.file[l.read + i].record, l.file[l.read + i].len)
  }

  /** One batch of `try_replay`: stops at the first record the sink does not accept. */
  method ReplayBatch(spool: Spool, batch: seq<(AuditRecord, nat)>, reply: nat -> SinkReply, from: nat) returns (k: nat)
    requires Ready(spool) && AtCursor(batch, spool.dir.st.log)
    modifies spool`replayOffset, spool`count, spool.dir`offset, spool.dir`poison, spool.dir`st
    ensures spool.Valid() && k == Taken(reply, from, |batch|)
    ensures spool.dir.st == old(spool.dir.st).(log := Replayed(old(spool.dir.st.log), k, |batch|, reply, from))
  {
    hide NextState, Reachable, FileRep, LossRep, OffsetRep, PoisonRep, TotalLen, Records, Advanced, Taken;
    ghost var (s, l) := (spool.dir.st, spool.dir.st.log);
    StartsAtCursor(s);
    k := 0;
    while k < |batch|
      invariant k <= |batch| && Ready(spool) && spool.dir.st == s.(log := Advanced(l, k))
      invariant Taken(reply, from, |batch|) == k + Taken(reply, from + k, |batch| - k)
    {
      AdvancedByOneMore(l, k);
      AdvancedFields(l, k);
      NextRecord(spool.dir.st.log);
      ReplayRecord(spool, batch[k].0, batch[k].1, reply(from + k));
      TakenStep(reply, from + k, |batch| - k);
      if reply(from + k) != Accepted {
        return;
      }
      k := k + 1;
    }
  }

  /** Reads the next batch and replays it. */
  method ReplayNext(spool: Spool, reply: nat -> SinkReply, from: nat) returns (k: nat, size: nat)
    requires Ready(spool)
    modifies spool`replayOffset, spool`count, spool.dir`offset, spool.dir`poison, spool.dir`st
    ensures size == (if old(spool.count) < REPLAY_BATCH_RECORDS then old(spool.count) else REPLAY_BATCH_RECORDS)
    ensures spool.Valid() && k == Taken(reply, from, size)
    ensures spool.dir.st == old(spool.dir.st).(log := Replayed(old(spool.dir.st.log), k, size, reply, from))
    ensures (k < size && reply(from + k).Uncertain?) || (Ready(spool) && spool.count == old(spool.count) - k)
  {
    hide NextState, Reachable, FileRep, LossRep, OffsetRep, PoisonRep, TotalLen, Records, Advanced, Taken;
    var batch := spool.ReadReplayBatch();
    BatchAtCursor(spool.dir.st.log, batch.value);
    size := |batch.value|;
    k := ReplayBatch(spool, batch.value, reply, from);
    AdvancedFields(old(spool.dir.st.log), k);
  }

  lemma AdvancedFields(l: Log, k: nat)
    requires l.read + k <= |l.file|
    ensures var m := Advanced(l, k);
      && m.file == l.file && m.read == l.read + k && m.synced == l.synced && m.replay == l.replay && m.admitted == l.admitted
  {
  }

  lemma NextRecord(l: Log)
    requires l.read < |l.file|
    ensures Records(l.file[l.read..])[0] == l.file[l.read].record
  {
  }

  /** Batch after batch, until nothing is left or a record is not accepted. */
  method Drain(spool: Spool, reply: nat -> SinkReply) returns (replayed: nat)
    requires Ready(spool)
    modifies spool`replayOffset, spool`count, spool.dir`offset, spool.dir`poison, spool.dir`st
    ensures spool.Valid() && replayed == Taken(reply, 0, old(spool.count))
    ensures spool.dir.st == old(spool.dir.st).(log := Replayed(old(spool.dir.st.log), replayed, old(spool.count), reply, 0))
    ensures (replayed < old(spool.count) && reply(replayed).Uncertain?) || (Ready(spool) && spool.count == old(spool.count) - replayed)
  {
    hide NextState, Reachable, FileRep, LossRep, OffsetRep, PoisonRep, TotalLen, Records, Advanced, Taken, Stuck, Ready, Spool.Valid;
    ghost var (s, l, n) := (spool.dir.st, spool.dir.st.log, spool.count);
    ReadyFacts(spool);
    replayed := 0;
    var more := true;
    while more
      invariant replayed <= n && Ready(spool) && spool.Valid() && spool.dir.st == s.(log := Advanced(l, replayed)) && spool.count == n - replayed
      invariant Taken(reply, 0, n) == replayed + (if more then Taken(reply, replayed, n - replayed) else 0)
      invariant !more ==> replayed == n || reply(replayed) == Refused
      decreases more, spool.count
    {
      AdvancedFields(l, replayed);
      var k, size := ReplayNext(spool, reply, replayed);
      AdvancedTwice(l, replayed, k);
      TakenInBatches(reply, replayed, n - replayed, size);
      more := size > 0 && k == size;
      replayed := replayed + k;
      if k < size && reply(replayed).Uncertain? {
        break;
      }
    }
  }

  /** The log once its last `n` entries are delivered and the drained file is truncated. */
  function DrainedLog(l: Log, n: nat): Log
    requires l.read + n == |l.file| && l.synced <= |l.file|
  {
    EmptyFile(Advanced(l, n)).(offset := 0)
  }

  /** `try_replay` against a sink that answers the k-th write of this pass with `reply(k)`. What the sink
      takes is exactly a prefix of the unread records, in order; a drained spool is truncated and left;
      a refusal leaves the rest for the next pass; an uncertain write leaves its poison at the cursor. */
  method TryReplay(spool: Spool, reply: nat -> SinkReply) returns (r: Result<()>, spooling: bool)
    requires Ready(spool)
    modifies spool`bytes, spool`count, spool`unsynced, spool`replayOffset, spool.dir
    ensures spool.Valid()
    ensures var (l, n) := (old(spool.dir.st.log), old(spool.count)); var k := Taken(reply, 0, n);
      && spool.dir.st == old(spool.dir.st).(log :=
           if 0 < k == n then DrainedLog(l, n) else Replayed(l, k, n, reply, 0))
      && r == (if k < n && reply(k).Uncertain? then Err(Indeterminate) else Ok(()))
      && spooling == (k < n)
  {
    hide NextState, Reachable, FileRep, LossRep, OffsetRep, PoisonRep, TotalLen, Records, Advanced, Taken, Stuck, FileHeader, OffsetFile;
    if spool.count == 0 {
      StartsAtCursor(spool.dir.st);
      return Ok(()), false;
    }
    var n := spool.count;
    var replayed := Drain(spool, reply);
    if replayed < n && reply(replayed).Uncertain? {
      return Err(Indeterminate), true;
    }
    if spool.count == 0 {
      spool.Truncate();
      return Ok(()), false;
    }
    return Ok(()), true;
  }

  /** A sink that accepts everything gets every unread entry, in order, and the drain ends. */
  lemma {:induction false} EverythingIsDelivered(l: Log, reply: nat -> SinkReply, from: nat, n: nat)
    requires l.read + n == |l.file| && forall i :: from <= i < from + n ==> reply(i) == Accepted
    ensures Taken(reply, from, n) == n && Advanced(l, n).delivered == l.delivered + l.file[l.read..]
  {
    AllTaken(reply, from, n);
    assert l.file[l.read..l.read + n] == l.file[l.read..];
  }

  lemma {:induction false} AllTaken(reply: nat -> SinkReply, from: nat, n: nat)
    requires forall i :: from <= i < from + n ==> reply(i) == Accepted
    ensures Taken(reply, from, n) == n
    decreases n
  {
    if n > 0 {
      AllTaken(reply, from + 1, n - 1);
    }
  }

  lemma BatchAtCursor(l: Log, batch: seq<(AuditRecord, nat)>)
    requires l.read + |batch| <= |l.file|
    requires forall i :: 0 <= i < |batch| ==> batch[i] == (Records(l.file[l.read..])[i], l.file[l.read + i].len)
    ensures AtCursor(batch, l)
  {
  }

  lemma AdvancedTwice(l: Log, j: nat, k: nat)
    requires l.read + j + k <= |l.file|
    ensures Advanced(l, j).read == l.read + j && Advanced(l, j).file == l.file
    ensures Advanced(Advanced(l, j), k) == Advanced(l, j + k)
  {
    hide TotalLen;
    DeliveredSlices(l.delivered, l.file, l.read, l.read + j, l.read + j + k);
  }
}
