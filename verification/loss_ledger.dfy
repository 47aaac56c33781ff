/** Fail-open loss accounting: the pending (generation, count) state, how a loss is added to it and
    how a durable marker settles it, and the marker lists a spool's history carries. */
module LossLedger {
  import opened Bytes

  /** `AuditLosses`; both fields are `u64`, see `InRange`. */
  datatype Losses = Losses(generation: nat, count: nat)

  predicate InRange(l: Losses) { l.generation <= U64_MAX && l.count <= U64_MAX }

  function SaturatingAdd(a: nat, b: nat): nat { if a + b > U64_MAX then U64_MAX else a + b }

  /** `add_loss_state`: the first loss after a settlement opens a fresh generation. */
  function AddLossState(l: Losses, added: nat): Losses {
    Losses(if l.count == 0 then SaturatingAdd(l.generation, 1) else l.generation, SaturatingAdd(l.count, added))
  }

  /** `settle_loss_batch`. */
  function SettleLossBatch(state: Losses, batch: Losses): Losses {
    if state.generation != batch.generation then state
    else if batch.count >= state.count then Losses(state.generation, 0)
    else Losses(if state.generation < U64_MAX then state.generation + 1 else state.generation, state.count - batch.count)
  }

  /** `reconcile` of `state` against the marker found for it, if any. */
  function SettledAgainst(state: Losses, pending: Option<Losses>): Losses {
    if pending == None then state else SettleLossBatch(state, pending.value)
  }

  // ----- What a run's arithmetic looks like while no counter saturates -----

  /** `m` is `l` with `n` losses added, however they were split into calls: the count is the sum, and the
      generation moved on exactly if `l` had nothing pending. */
  predicate Grown(l: Losses, n: nat, m: Losses) {
    && m.count == l.count + n
    && (if l.count > 0 then m.generation == l.generation
        else if n > 0 then m.generation > l.generation
        else m.generation >= l.generation)
  }

  /** No counter saturates when `added` losses join `l`. */
  predicate Unsaturated(l: Losses, added: nat) {
    l.count + added <= U64_MAX && AddLossState(l, added).generation < U64_MAX
  }

  /** While no counter saturates, adding losses one call at a time is adding their sum. */
  lemma AddGrows(l: Losses, earlier: nat, m: Losses, added: nat)
    requires Grown(l, earlier, m) && Unsaturated(m, added)
    ensures Grown(l, earlier + added, AddLossState(m, added))
  {
  }

  /** `add` called once for each of `adds`, in order. */
  function AddedAll(l: Losses, adds: seq<nat>): Losses {
    if adds == [] then l else AddLossState(AddedAll(l, adds[..|adds| - 1]), adds[|adds| - 1])
  }

  lemma {:induction false} AddedAllAppend(l: Losses, a: seq<nat>, b: seq<nat>)
    ensures AddedAll(AddedAll(l, a), b) == AddedAll(l, a + b)
  {
    if b == [] {
      assert a + b == a;
    } else {
      assert (a + b)[..|a + b| - 1] == a + b[..|b| - 1];
      AddedAllAppend(l, a, b[..|b| - 1]);
    }
  }

  /** A settlement takes off exactly what the marker reports, and a remainder moves to a generation
      no marker has named yet. */
  lemma SettleConserves(state: Losses, batch: Losses)
    requires batch.generation == state.generation < U64_MAX && 0 < batch.count <= state.count
    ensures var r := SettleLossBatch(state, batch);
      && r.count + batch.count == state.count
      && r.generation == (if r.count == 0 then state.generation else state.generation + 1)
  {
  }

  /** Losses a state must have seen: its pending ones, and one for every generation before. */
  function Cost(l: Losses): nat { if l.count == 0 then l.generation else l.generation + l.count - 1 }

  lemma CostOfAdding(l: Losses, n: nat)
    requires Cost(l) + (if n == 0 then 1 else n) < U64_MAX
    ensures Unsaturated(l, n) && Cost(AddLossState(l, n)) <= Cost(l) + (if n == 0 then 1 else n)
  {
  }

  lemma CostOfSettling(state: Losses, batch: Losses)
    requires batch.count > 0 && Cost(state) < U64_MAX
    ensures Cost(SettleLossBatch(state, batch)) <= Cost(state) && SettleLossBatch(state, batch).generation < U64_MAX
  {
  }

  // ----- Marker lists -----

  function Reported(ms: seq<Losses>): nat {
    if ms == [] then 0 else Reported(ms[..|ms| - 1]) + ms[|ms| - 1].count
  }

  lemma ReportedSnoc(ms: seq<Losses>, m: Losses)
    ensures Reported(ms + [m]) == Reported(ms) + m.count
  {
    assert (ms + [m])[..|ms|] == ms;
  }

  predicate StrictlyNewer(ms: seq<Losses>) {
    forall i, j :: 0 <= i < j < |ms| ==> ms[i].generation < ms[j].generation
  }

  predicate NoneAbove(ms: seq<Losses>, generation: nat) {
    forall i :: 0 <= i < |ms| ==> ms[i].generation <= generation
  }

  predicate AllBelow(ms: seq<Losses>, generation: nat) {
    forall i :: 0 <= i < |ms| ==> ms[i].generation < generation
  }

  /** The first marker of `generation`, as `reconcile` looks it up. */
  function Find(ms: seq<Losses>, generation: nat): (m: Option<Losses>)
    ensures m.Some? ==> m.value in ms && m.value.generation == generation
    ensures m.None? <==> forall i :: 0 <= i < |ms| ==> ms[i].generation != generation
  {
    if ms == [] then None
    else if ms[0].generation == generation then Some(ms[0])
    else Find(ms[1..], generation)
  }

  /** Lookup by generation alone finds the only candidate. */
  lemma {:induction false} FindIsUnique(ms: seq<Losses>, i: nat)
    requires i < |ms| && StrictlyNewer(ms)
    ensures Find(ms, ms[i].generation) == Some(ms[i])
  {
    if i > 0 {
      assert ms[1..][i - 1] == ms[i];
      FindIsUnique(ms[1..], i - 1);
    }
  }

  lemma {:induction false} FindSnoc(ms: seq<Losses>, m: Losses, generation: nat)
    ensures Find(ms + [m], generation)
         == (if Find(ms, generation).Some? then Find(ms, generation)
             else if m.generation == generation then Some(m) else None)
  {
    if ms == [] {
      assert ms + [m] == [m];
    } else {
      assert (ms + [m])[1..] == ms[1..] + [m];
      FindSnoc(ms[1..], m, generation);
    }
  }

  /** A settlement on any input: another generation's batch changes nothing; otherwise as much is taken off
      as there is, and what remains moves to the next generation, unless that is the last. */
  lemma SettleAlways(state: Losses, batch: Losses)
    ensures var r := SettleLossBatch(state, batch);
      if batch.generation != state.generation then r == state
      else
        && r.count == (if batch.count < state.count then state.count - batch.count else 0)
        && r.generation == (if r.count > 0 && state.generation < U64_MAX then state.generation + 1 else state.generation)
  {
  }
}
