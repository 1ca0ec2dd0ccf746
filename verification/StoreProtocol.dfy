/** Many threads writing at once: the write transaction, the counters lock and
    the commit as separate steps, in any interleaving, with any step failing. */
module StoreProtocol {
  import opened Text
  import opened Bytes
  import opened Table
  import opened StoreSpec
  import opened LocalStore

  type Tid = nat

  /** What a thread will do to its namespace's counter once its commit lands. */
  datatype Tally = Keep | Put(projected: nat) | Subtract(released: nat)

  datatype Phase =
    | Idle
    // Inside a write transaction that sees the table `base`.
    | Begun(h: Handle, req: Request, base: Table)
    // Holding the counters lock too.
    | Locked(h: Handle, req: Request, base: Table)
    // Verdict passed, writes staged.
    | Staged(h: Handle, req: Request, staged: Table, tally: Tally)
    // Committed: the transaction is over, the lock is not.
    | Landed(h: Handle, req: Request, tally: Tally)
    // Only the lock is left to give back.
    | Closing
    // Returning an error with the lock and the transaction still held.
    | Failing
    // The lock is back; the transaction is about to be aborted.
    | Aborting

  datatype State = State(
    table: Table,
    counters: map<Bytes, nat>,
    writer: Option<Tid>,
    holder: Option<Tid>,
    phases: seq<Phase>)

  datatype Step =
    | Begin(t: Tid, h: Handle, req: Request)
    | Lock(t: Tid)
    | Decide(t: Tid)
    | Fail(t: Tid)
    | CommitLands(t: Tid)
    | CommitFails(t: Tid)
    | Recounts(t: Tid)
    | DropLock(t: Tid)
    | DropTxn(t: Tid)

  /* ----- The decision, taken from the cache ----- */

  datatype Decision = Refuse(error: StorageError) | Stage(staged: Table, tally: Tally)

  ghost function Released(t: Table, h: Handle, req: Request): nat {
    Sum(Cost(t), Touched(h.prefix, Ops(req)))
  }

  ghost function Charged(t: Table, h: Handle, req: Request): nat {
    Sum(Cost(After(t, h.prefix, req)), Touched(h.prefix, Ops(req)))
  }

  ghost function Used(t: Table, counters: map<Bytes, nat>, prefix: Bytes): nat {
    if prefix in counters then counters[prefix] else Footprint(t, prefix)
  }

  ghost function Decided(t: Table, counters: map<Bytes, nat>, h: Handle, req: Request): Decision {
    var after := After(t, h.prefix, req);
    var released := Released(t, h, req);
    if req.DeleteOne? then
      Stage(after, if h.prefix in counters then Subtract(released) else Keep)
    else if h.quota.None? && h.prefix !in counters then
      Stage(after, Keep)
    else
      var charged := Charged(t, h, req);
      var projected := SaturatingSub(Used(t, counters, h.prefix), released) + charged;
      if h.quota.Some? && projected > h.quota.value then
        Refuse(if charged > h.quota.value
               then QuotaUnsatisfiable(charged, h.quota.value)
               else QuotaExceeded(projected, h.quota.value))
      else
        Stage(after, Put(projected))
  }

  function Tallied(counters: map<Bytes, nat>, prefix: Bytes, tally: Tally): map<Bytes, nat> {
    match tally
    case Keep => counters
    case Put(n) => counters[prefix := n]
    case Subtract(n) =>
      if prefix in counters then counters[prefix := SaturatingSub(counters[prefix], n)] else counters
  }

  /* ----- Steps ----- */

  ghost predicate Enabled(s: State, step: Step) {
    && step.t < |s.phases|
    && var phase := s.phases[step.t];
       match step
       case Begin(_, h, req) => phase.Idle? && s.writer.None? && |h.prefix| == PREFIX_LEN && CapVerdict(req).None?
       case Lock(_) => phase.Begun? && s.holder.None?
       case Decide(_) => phase.Locked?
       case Fail(_) => phase.Locked? || phase.Staged?
       case CommitLands(_) => phase.Staged?
       case CommitFails(_) => phase.Staged?
       case Recounts(_) => phase.Landed?
       case DropLock(_) => phase.Closing? || phase.Failing?
       case DropTxn(_) => phase.Aborting?
  }

  ghost function Take(s: State, step: Step): State
    requires Enabled(s, step)
  {
    var t := step.t;
    var phase := s.phases[t];
    match step
    case Begin(_, h, req) => s.(writer := Some(t), phases := s.phases[t := Begun(h, req, s.table)])
    case Lock(_) => s.(holder := Some(t), phases := s.phases[t := Locked(phase.h, phase.req, phase.base)])
    case Decide(_) =>
      (match Decided(phase.base, s.counters, phase.h, phase.req)
       case Refuse(_) => s.(phases := s.phases[t := Failing])
       case Stage(staged, tally) => s.(phases := s.phases[t := Staged(phase.h, phase.req, staged, tally)]))
    case Fail(_) => s.(phases := s.phases[t := Failing])
    case CommitLands(_) =>
      s.(table := phase.staged, writer := None, phases := s.phases[t := Landed(phase.h, phase.req, phase.tally)])
    case CommitFails(_) => s.(writer := None, phases := s.phases[t := Closing])
    case Recounts(_) =>
      s.(counters := Tallied(s.counters, phase.h.prefix, phase.tally), phases := s.phases[t := Closing])
    case DropLock(_) => s.(holder := None, phases := s.phases[t := if phase.Failing? then Aborting else Idle])
    case DropTxn(_) => s.(writer := None, phases := s.phases[t := Idle])
  }

  ghost predicate Initial(s: State) {
    && s.counters == map[] && s.writer.None? && s.holder.None?
    && forall t :: 0 <= t < |s.phases| ==> s.phases[t].Idle?
  }

  /** `s'` is reached from `s` by `steps`. */
  ghost predicate Runs(s: State, steps: seq<Step>, s': State)
    decreases |steps|
  {
    if steps == [] then s == s'
    else Enabled(s, steps[0]) && Runs(Take(s, steps[0]), steps[1..], s')
  }

  /* ----- What every step keeps ----- */

  predicate HoldsTxn(phase: Phase) {
    phase.Begun? || phase.Locked? || phase.Staged? || phase.Failing? || phase.Aborting?
  }

  predicate HoldsLock(phase: Phase) {
    phase.Locked? || phase.Staged? || phase.Landed? || phase.Closing? || phase.Failing?
  }

  /** Each resource is held by the one thread it says. */
  ghost predicate Exclusive(s: State) {
    && (forall t :: 0 <= t < |s.phases| ==> (HoldsTxn(s.phases[t]) <==> s.writer == Some(t)))
    && (forall t :: 0 <= t < |s.phases| ==> (HoldsLock(s.phases[t]) <==> s.holder == Some(t)))
    && (s.writer.Some? ==> s.writer.value < |s.phases|)
    && (s.holder.Some? ==> s.holder.value < |s.phases|)
  }

  ghost predicate PhaseFits(s: State, phase: Phase) {
    match phase
    case Begun(h, req, base) => |h.prefix| == PREFIX_LEN && CapVerdict(req).None? && base == s.table
    case Locked(h, req, base) =>
      && |h.prefix| == PREFIX_LEN && CapVerdict(req).None? && base == s.table
      && CountersAgree(s.table, s.counters)
    case Staged(h, req, staged, tally) =>
      && |h.prefix| == PREFIX_LEN && CapVerdict(req).None?
      && staged == After(s.table, h.prefix, req)
      && QuotaVerdict(s.table, h, req).None?
      && CountersAgree(s.table, s.counters)
      && CountersAgree(staged, Tallied(s.counters, h.prefix, tally))
      && (tally.Subtract? ==> h.prefix in s.counters && tally.released <= s.counters[h.prefix])
    case Landed(h, req, tally) =>
      && |h.prefix| == PREFIX_LEN
      && CountersAgree(s.table, Tallied(s.counters, h.prefix, tally))
      && (tally.Subtract? ==> h.prefix in s.counters && tally.released <= s.counters[h.prefix])
    case Closing | Failing => CountersAgree(s.table, s.counters)
    case Idle | Aborting => true
  }

  ghost predicate Inv(s: State) {
    && Exclusive(s)
    && (forall t :: 0 <= t < |s.phases| ==> PhaseFits(s, s.phases[t]))
    && (s.holder.None? ==> CountersAgree(s.table, s.counters))
  }

  /** With an agreeing cache the decision is the cache-free verdict, the tally
      gives the new footprint, and no subtraction saturates. */
  lemma DecisionIsExact(t: Table, counters: map<Bytes, nat>, h: Handle, req: Request)
    requires CountersAgree(t, counters) && |h.prefix| == PREFIX_LEN
    ensures Released(t, h, req) <= Used(t, counters, h.prefix) == Footprint(t, h.prefix)
    ensures
      match Decided(t, counters, h, req)
      case Refuse(e) => QuotaVerdict(t, h, req) == Some(e)
      case Stage(staged, tally) =>
        && QuotaVerdict(t, h, req).None?
        && staged == After(t, h.prefix, req)
        && CountersAgree(staged, Tallied(counters, h.prefix, tally))
        && (tally.Subtract? ==> h.prefix in counters && tally.released <= counters[h.prefix])
  {
    hide Sum, Footprint, ApplyAll, After, Touched, Cost, CountersAgree, Charge, CostNow;
    var after := After(t, h.prefix, req);
    CounterIsFootprint(t, counters, h.prefix);
    NetIsExact(t, h, req);
    CountersAfter(t, counters, h, req);
    assert Decided(t, counters, h, req).Stage? ==>
        Tallied(counters, h.prefix, Decided(t, counters, h, req).tally) == Recount(after, counters, h, req);
  }

  lemma NetIsExact(t: Table, h: Handle, req: Request)
    ensures Released(t, h, req) <= Footprint(t, h.prefix)
    ensures Charged(t, h, req) == Charge(h.prefix, req)
    ensures Footprint(After(t, h.prefix, req), h.prefix)
         == Footprint(t, h.prefix) - Released(t, h, req) + Charged(t, h, req)
    ensures req.DeleteOne? ==> Charged(t, h, req) == 0
  {
    hide Sum, Footprint, Charge, CostNow;
    WritesOnlyTouched(t, h.prefix, Ops(req));
    FootprintAfterWrite(t, After(t, h.prefix, req), h.prefix, Touched(h.prefix, Ops(req)));
    ChargeIsNewCost(t, h.prefix, req);
    if req.DeleteOne? {
      OneWrite(t, h.prefix, req);
      DeleteEffect(t, h.prefix, req.key);
    }
  }

  /** Every step, of any thread, keeps the invariant. */
  lemma StepKeepsInv(s: State, step: Step)
    requires Inv(s) && Enabled(s, step)
    ensures Inv(Take(s, step))
  {
    hide CountersAgree, Footprint, After, Tallied, Decided, QuotaVerdict, CapVerdict;
    hide PhaseFits, Enabled, Exclusive, Take;
    StepKeepsExclusive(s, step);
    OwnPhaseFits(s, step);
    forall t | 0 <= t < |Take(s, step).phases| && t != step.t
      ensures PhaseFits(Take(s, step), Take(s, step).phases[t])
    {
      OtherPhaseFits(s, step, t);
    }
  }

  lemma StepKeepsExclusive(s: State, step: Step)
    requires Exclusive(s) && Enabled(s, step)
    ensures Exclusive(Take(s, step))
  {
    hide CountersAgree, Footprint, After, Tallied, Decided, QuotaVerdict, CapVerdict, Exclusive;
    var s' := Take(s, step);
    OwnsItsResources(s, step.t);
    forall t | 0 <= t < |s'.phases|
      ensures (HoldsTxn(s'.phases[t]) <==> s'.writer == Some(t)) && (HoldsLock(s'.phases[t]) <==> s'.holder == Some(t))
    {
      OwnsItsResources(s, t);
      if t != step.t { assert s'.phases[t] == s.phases[t]; }
    }
    ExclusiveIfOwned(s, step);
  }

  lemma OwnsItsResources(s: State, t: Tid)
    requires Exclusive(s) && t < |s.phases|
    ensures HoldsTxn(s.phases[t]) <==> s.writer == Some(t)
    ensures HoldsLock(s.phases[t]) <==> s.holder == Some(t)
  {
  }

  lemma ExclusiveIfOwned(s: State, step: Step)
    requires Exclusive(s) && Enabled(s, step)
    requires
      var s' := Take(s, step);
      forall t :: 0 <= t < |s'.phases| ==>
        (HoldsTxn(s'.phases[t]) <==> s'.writer == Some(t)) && (HoldsLock(s'.phases[t]) <==> s'.holder == Some(t))
    ensures Exclusive(Take(s, step))
  {
    hide CountersAgree, Footprint, After, Tallied, Decided, QuotaVerdict, CapVerdict, HoldsTxn, HoldsLock;
  }

  lemma OwnPhaseFits(s: State, step: Step)
    requires Inv(s) && Enabled(s, step)
    ensures |Take(s, step).phases| == |s.phases| && step.t < |s.phases|
    ensures PhaseFits(Take(s, step), Take(s, step).phases[step.t])
    ensures Take(s, step).holder.None? ==> CountersAgree(Take(s, step).table, Take(s, step).counters)
  {
    hide CountersAgree, Footprint, After, Tallied, Decided, QuotaVerdict, CapVerdict;
    var phase := s.phases[step.t];
    assert PhaseFits(s, phase);
    assert HoldsLock(phase) <==> s.holder == Some(step.t);
    if step.Decide? {
      DecisionIsExact(phase.base, s.counters, phase.h, phase.req);
    }
  }

  /** A step of one thread does not disturb another's phase: only the holder of
      the lock changes the counters, only the writer the table. */
  lemma OtherPhaseFits(s: State, step: Step, t: Tid)
    requires Inv(s) && Enabled(s, step) && t < |s.phases| && t != step.t
    ensures |Take(s, step).phases| == |s.phases|
    ensures PhaseFits(Take(s, step), Take(s, step).phases[t])
  {
    hide CountersAgree, Footprint, After, Tallied, Decided, QuotaVerdict, CapVerdict;
    assert Take(s, step).phases[t] == s.phases[t];
    assert PhaseFits(s, s.phases[t]);
    assert HoldsTxn(s.phases[t]) <==> s.writer == Some(t);
    assert HoldsLock(s.phases[t]) <==> s.holder == Some(t);
    assert HoldsTxn(s.phases[step.t]) <==> s.writer == Some(step.t);
    assert HoldsLock(s.phases[step.t]) <==> s.holder == Some(step.t);
  }

  lemma InitialIsInv(s: State)
    requires Initial(s)
    ensures Inv(s)
  {
  }

  lemma {:induction false} RunKeepsInv(s: State, steps: seq<Step>, s': State)
    requires Inv(s) && Runs(s, steps, s')
    ensures Inv(s')
    decreases |steps|
  {
    hide Inv, Enabled, Take;
    if steps != [] {
      StepKeepsInv(s, steps[0]);
      RunKeepsInv(Take(s, steps[0]), steps[1..], s');
    }
  }

  /* ----- Main results, over every run ----- */

  /** Whenever the counters lock is free, every tracked counter is the full-scan
      footprint of its namespace in the committed table. */
  lemma CountersAreExact(s: State, steps: seq<Step>, s': State)
    requires Initial(s) && Runs(s, steps, s')
    ensures s'.holder.None? ==> CountersAgree(s'.table, s'.counters)
  {
    hide CountersAgree, Runs;
    InitialIsInv(s);
    RunKeepsInv(s, steps, s');
  }

  /** The next step would clamp a subtraction at zero. */
  ghost predicate Saturates(s: State, step: Step)
    requires Enabled(s, step)
  {
    var phase := s.phases[step.t];
    match step
    case Decide(_) => Released(phase.base, phase.h, phase.req) > Used(phase.base, s.counters, phase.h.prefix)
    case Recounts(_) =>
      phase.tally.Subtract? && phase.h.prefix in s.counters && phase.tally.released > s.counters[phase.h.prefix]
    case _ => false
  }

  lemma NothingSaturates(s: State, steps: seq<Step>, s': State, next: Step)
    requires Initial(s) && Runs(s, steps, s') && Enabled(s', next)
    ensures !Saturates(s', next)
  {
    hide CountersAgree, Runs, Footprint, After, Released, Used;
    InitialIsInv(s);
    RunKeepsInv(s, steps, s');
    var phase := s'.phases[next.t];
    assert PhaseFits(s', phase);
    if next.Decide? { DecisionIsExact(phase.base, s'.counters, phase.h, phase.req); }
  }

  /** The requests whose commits landed, in commit order. */
  ghost function Log(s: State, steps: seq<Step>): seq<(Handle, Request)>
    requires exists s' :: Runs(s, steps, s')
    decreases |steps|
  {
    if steps == [] then []
    else
      var s' :| Runs(s, steps, s');
      assert Runs(Take(s, steps[0]), steps[1..], s');
      var phase := s.phases[steps[0].t];
      (if steps[0].CommitLands? then [(phase.h, phase.req)] else []) + Log(Take(s, steps[0]), steps[1..])
  }

  /** Running requests one at a time on a table, all of them landing. */
  ghost predicate Replays(t: Table, log: seq<(Handle, Request)>, t': Table)
    decreases |log|
  {
    if log == [] then t == t'
    else
      var outcome := Perform(t, log[0].0, log[0].1, Works);
      outcome.Written? && Replays(outcome.table, log[1..], t')
  }

  /** Interleaved runs are serial runs: the committed table is the one the landed
      requests give when performed one by one, with no cache, in commit order. */
  lemma {:induction false} RunsAreSerial(s: State, steps: seq<Step>, s': State)
    requires Inv(s) && Runs(s, steps, s')
    ensures Replays(s.table, Log(s, steps), s'.table)
    decreases |steps|
  {
    hide CountersAgree, Footprint, After, Decided, Tallied;
    if steps != [] {
      var next := Take(s, steps[0]);
      StepKeepsInv(s, steps[0]);
      RunsAreSerial(next, steps[1..], s');
      StepIsSerial(s, steps[0]);
      var rest := Log(next, steps[1..]);
      if steps[0].CommitLands? {
        var phase := s.phases[steps[0].t];
        assert Log(s, steps) == [(phase.h, phase.req)] + rest;
        assert Log(s, steps)[1..] == rest;
      } else {
        assert Log(s, steps) == [] + rest;
        assert [] + rest == rest;
      }
    }
  }

  /** Only a landing commit changes the table, and then as its request alone
      would; a refusal is the one the request alone would get. */
  lemma StepIsSerial(s: State, step: Step)
    requires Inv(s) && Enabled(s, step)
    ensures
      var phase := s.phases[step.t];
      if step.CommitLands?
      then Perform(s.table, phase.h, phase.req, Works) == Written(Take(s, step).table)
      else Take(s, step).table == s.table
    ensures
      var phase := s.phases[step.t];
      step.Decide? && Take(s, step).phases[step.t].Failing? ==>
        Decided(phase.base, s.counters, phase.h, phase.req).Refuse?
        && Perform(s.table, phase.h, phase.req, Works)
           == Refused(Decided(phase.base, s.counters, phase.h, phase.req).error)
  {
    hide CountersAgree, Footprint, After, Decided, Tallied, QuotaVerdict;
    var phase := s.phases[step.t];
    assert PhaseFits(s, phase);
    if step.Decide? { DecisionIsExact(phase.base, s.counters, phase.h, phase.req); }
  }

  /** Every thread that writes namespace `prefix` carries a quota of at most `q`. */
  ghost predicate Bounded(steps: seq<Step>, prefix: Bytes, q: nat) {
    forall i :: 0 <= i < |steps| && steps[i].Begin? && steps[i].h.prefix == prefix ==>
                  steps[i].h.quota.Some? && steps[i].h.quota.value <= q
  }

  ghost predicate BoundedPhases(s: State, prefix: Bytes, q: nat) {
    forall t :: 0 <= t < |s.phases| && (s.phases[t].Begun? || s.phases[t].Locked? || s.phases[t].Staged?)
                && s.phases[t].h.prefix == prefix ==>
                  s.phases[t].h.quota.Some? && s.phases[t].h.quota.value <= q
  }

  /** A namespace whose writers are all bounded by `q` stays within `q`. */
  lemma {:induction false} QuotaHolds(s: State, steps: seq<Step>, s': State, prefix: Bytes, q: nat)
    requires Inv(s) && Runs(s, steps, s') && |prefix| == PREFIX_LEN
    requires BoundedPhases(s, prefix, q) && Bounded(steps, prefix, q)
    requires Footprint(s.table, prefix) <= q
    ensures Footprint(s'.table, prefix) <= q
    decreases |steps|
  {
    hide Inv, Footprint, Enabled;
    if steps != [] {
      StepKeepsInv(s, steps[0]);
      assert steps[0].Begin? ==> steps[0].h.prefix == prefix ==> steps[0].h.quota.Some? && steps[0].h.quota.value <= q;
      StepKeepsQuota(s, steps[0], prefix, q);
      assert forall i :: 0 <= i < |steps[1..]| ==> steps[1..][i] == steps[i + 1];
      QuotaHolds(Take(s, steps[0]), steps[1..], s', prefix, q);
    }
  }

  lemma StepKeepsQuota(s: State, step: Step, prefix: Bytes, q: nat)
    requires Inv(s) && Enabled(s, step) && |prefix| == PREFIX_LEN && BoundedPhases(s, prefix, q)
    requires step.Begin? && step.h.prefix == prefix ==> step.h.quota.Some? && step.h.quota.value <= q
    requires Footprint(s.table, prefix) <= q
    ensures BoundedPhases(Take(s, step), prefix, q)
    ensures Footprint(Take(s, step).table, prefix) <= q
  {
    hide Footprint, CountersAgree, Decided, Tallied;
    var phase := s.phases[step.t];
    StepIsSerial(s, step);
    if step.CommitLands? {
      assert PhaseFits(s, phase);
      if phase.h.prefix == prefix {
        LandedWithinQuota(s.table, phase.h, phase.req, q);
      } else {
        WritesStayInside(s.table, phase.h.prefix, prefix, Ops(phase.req));
      }
    }
  }

  lemma LandedWithinQuota(t: Table, h: Handle, req: Request, q: nat)
    requires h.quota.Some? && h.quota.value <= q && Footprint(t, h.prefix) <= q
    requires QuotaVerdict(t, h, req).None?
    ensures Footprint(After(t, h.prefix, req), h.prefix) <= q
  {
    hide Footprint;
    if req.DeleteOne? { DeleteEffect(t, h.prefix, req.key); }
  }

  /** No interleaving gets stuck: while any thread is inside a write, some thread
      can take a step that finishes what it started. */
  lemma NoDeadlock(s: State, steps: seq<Step>, s': State)
    requires Initial(s) && Runs(s, steps, s')
    requires exists t :: 0 <= t < |s'.phases| && !s'.phases[t].Idle?
    ensures exists next: Step :: !next.Begin? && Enabled(s', next)
  {
    hide CountersAgree, Runs, Footprint, After, PhaseFits;
    InitialIsInv(s);
    RunKeepsInv(s, steps, s');
    var t :| 0 <= t < |s'.phases| && !s'.phases[t].Idle?;
    assert HoldsTxn(s'.phases[t]) || HoldsLock(s'.phases[t]);
    if s'.holder.Some? {
      var t := s'.holder.value;
      assert HoldsLock(s'.phases[t]);
      var next :=
        match s'.phases[t]
        case Locked(_, _, _) => Decide(t)
        case Staged(_, _, _, _) => CommitLands(t)
        case Landed(_, _, _) => Recounts(t)
        case _ => DropLock(t);
      assert Enabled(s', next);
    } else {
      var t := s'.writer.value;
      assert HoldsTxn(s'.phases[t]) && !HoldsLock(s'.phases[t]);
      var next := if s'.phases[t].Begun? then Lock(t) else DropTxn(t);
      assert Enabled(s', next);
    }
  }
}
