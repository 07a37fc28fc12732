/**
  Whole runs of the timer array against an abstract machine that knows deadlines only, and a
  ledger of every timer ever started.
*/
module TimerArrayRuns {
  import opened Options
  import opened TimerArray

  // ---- the abstract machine ----

  // A timer that was started: its slot, the deadline it was given, how often it has expired
  // and when last, and whether it was cancelled
  datatype Timer = Timer(slot: nat, deadline: nat, firings: nat, at: nat, cancelled: bool)

  // The pending deadlines by slot; all timers in the order they were started; and which of
  // them is running in a slot.
  datatype Ledger = Ledger(d: map<nat, nat>, timers: seq<Timer>, running: map<nat, nat>)

  const BLANK: Ledger := Ledger(map[], [], map[])

  ghost function Give(l: Ledger, slot: nat, deadline: nat): Ledger {
    Ledger(l.d[slot := deadline], l.timers + [Timer(slot, deadline, 0, 0, false)], l.running[slot := |l.timers|])
  }

  ghost function Strike(l: Ledger, slot: nat): Ledger {
    if slot !in l.running || l.running[slot] >= |l.timers| then l
    else
      var k := l.running[slot];
      Ledger(l.d - {slot}, l.timers[k := l.timers[k].(cancelled := true)], l.running - {slot})
  }

  predicate Runs(l: Ledger, k: nat)
    requires k < |l.timers|
  {
    l.timers[k].slot in l.running && l.running[l.timers[k].slot] == k
  }

  function Expired1(l: Ledger, now: nat, k: nat): Timer
    requires k < |l.timers|
  {
    var t := l.timers[k];
    if Runs(l, k) && t.deadline <= now then t.(firings := t.firings + 1, at := now) else t
  }

  // Every timer that is due expires.
  ghost function Expire(l: Ledger, now: nat): Ledger {
    Ledger(Ahead(l.d, now),
           seq(|l.timers|, k requires 0 <= k < |l.timers| => Expired1(l, now, k)),
           map i | i in l.running && !(i in l.d && l.d[i] <= now) :: l.running[i])
  }

  // An operation, given the slot a new timer got and whether the cancelled one was the next
  ghost function Account(l: Ledger, op: Op, slot: Option<nat>, wasNext: bool): Ledger {
    match op
    case SetOp(timeout, now) => if slot.Some? then Give(l, slot.value, timeout + now) else l
    case CancelOp(i, now) => if wasNext then Expire(Strike(l, i), now) else Strike(l, i)
    case IsrOp(now) => Expire(l, now)
  }

  // ---- the books balance ----

  // Exactly one of running, cancelled, and expired once, not before the deadline
  ghost predicate Settled(l: Ledger, k: nat)
    requires k < |l.timers|
  {
    var t := l.timers[k];
    && t.firings + (if t.cancelled then 1 else 0) + (if Runs(l, k) then 1 else 0) == 1
    && (t.firings > 0 ==> t.deadline <= t.at)
  }

  // The pending deadlines are those of the running timers.
  ghost predicate SlotsMatch(l: Ledger) {
    l.running.Keys == l.d.Keys &&
    forall i :: i in l.d ==> InSlot(l, i)
  }

  predicate InSlot(l: Ledger, i: nat)
    requires i in l.d && i in l.running
  {
    var k := l.running[i];
    k < |l.timers| && l.timers[k].slot == i && l.timers[k].deadline == l.d[i]
  }

  ghost predicate Balanced(l: Ledger) {
    SlotsMatch(l) && forall k: nat :: k < |l.timers| ==> Settled(l, k)
  }

  lemma GiveBalances(l: Ledger, slot: nat, deadline: nat)
    requires Balanced(l) && slot !in l.d
    ensures Balanced(Give(l, slot, deadline))
  {
    var m := Give(l, slot, deadline);
    forall i | i in m.d
      ensures InSlot(m, i)
    {
      if i != slot { assert InSlot(l, i); }
    }
    forall k: nat | k < |m.timers|
      ensures Settled(m, k)
    {
      if k < |l.timers| { assert Settled(l, k) && m.timers[k] == l.timers[k]; }
    }
  }

  lemma StrikeBalances(l: Ledger, slot: nat)
    requires Balanced(l)
    ensures Balanced(Strike(l, slot))
  {
    if slot in l.running {
      var m := Strike(l, slot);
      assert InSlot(l, slot) && Runs(l, l.running[slot]);
      forall i | i in m.d
        ensures InSlot(m, i)
      {
        assert InSlot(l, i);
      }
      forall k: nat | k < |m.timers|
        ensures Settled(m, k)
      {
        assert Settled(l, k);
      }
    }
  }

  lemma ExpireSlots(l: Ledger, now: nat)
    requires SlotsMatch(l)
    ensures SlotsMatch(Expire(l, now))
  {
    var m := Expire(l, now);
    forall i | i in m.d
      ensures InSlot(m, i)
    {
      assert InSlot(l, i);
    }
  }

  lemma ExpireSettles(l: Ledger, now: nat, k: nat)
    requires SlotsMatch(l) && k < |l.timers| && Settled(l, k)
    ensures Settled(Expire(l, now), k)
  {
    if Runs(l, k) { assert InSlot(l, l.timers[k].slot); }
  }

  lemma ExpireBalances(l: Ledger, now: nat)
    requires Balanced(l)
    ensures Balanced(Expire(l, now))
  {
    ExpireSlots(l, now);
    forall k: nat | k < |l.timers|
      ensures Settled(Expire(l, now), k)
    {
      ExpireSettles(l, now, k);
    }
  }

  // ---- the array refines the abstract machine ----

  datatype World = World(s: State, l: Ledger, clock: nat)

  function SlotSet(s: State, op: Op): Option<nat>
    requires Shaped(s)
  {
    if op.SetOp? && SetReply(s, op.timeout).Started? then Some(SetReply(s, op.timeout).slot) else None
  }

  predicate WasNext(s: State, op: Op) { op.CancelOp? && s.next == Some(op.i) }

  ghost function Step(w: World, op: Op): World
    requires Shaped(w.s)
  {
    World(StepState(w.s, op), Account(w.l, op, SlotSet(w.s, op), WasNext(w.s, op)), op.now)
  }

  // The clock does not run backwards or wrap, and no deadline wraps.
  predicate ClockAllows(w: World, op: Op) {
    w.clock <= op.now < MOD && 0 < op.now && (op.SetOp? ==> op.timeout + op.now < MOD)
  }

  // The array stands for the pending deadlines, and the ledger accounts for every timer.
  ghost predicate Faithful(w: World) {
    Inv(w.s) && (w.s.next.Some? ==> w.s.stamp <= w.clock) && Deadlines(w.s) == w.l.d && Balanced(w.l)
  }

  lemma AccountBalances(l: Ledger, op: Op, slot: Option<nat>, wasNext: bool)
    requires Balanced(l) && (slot.Some? ==> slot.value !in l.d)
    ensures Balanced(Account(l, op, slot, wasNext))
  {
    match op
    case SetOp(timeout, now) => if slot.Some? { GiveBalances(l, slot.value, timeout + now); }
    case CancelOp(i, now) =>
      StrikeBalances(l, i);
      if wasNext { ExpireBalances(Strike(l, i), now); }
    case IsrOp(now) => ExpireBalances(l, now);
  }

  lemma FreeIsNotPending(s: State, op: Op)
    requires Shaped(s)
    ensures SlotSet(s, op).Some? ==> SlotSet(s, op).value !in Deadlines(s)
  { }

  // What the ledger's deadlines become
  ghost function Deadline(d: map<nat, nat>, op: Op, slot: Option<nat>, wasNext: bool): map<nat, nat> {
    match op
    case SetOp(timeout, now) => if slot.Some? then d[slot.value := timeout + now] else d
    case CancelOp(i, now) => if wasNext then Ahead(d - {i}, now) else d - {i}
    case IsrOp(now) => Ahead(d, now)
  }

  // The array does to its deadlines what the ledger does.
  ghost predicate Refines(s: State, op: Op)
    requires Shaped(s)
  {
    && Inv(StepState(s, op))
    && Deadlines(StepState(s, op)) == Deadline(Deadlines(s), op, SlotSet(s, op), WasNext(s, op))
  }

  lemma SetStepIs(s: State, timeout: nat, now: nat)
    requires Shaped(s)
    ensures var f := SlotSet(s, SetOp(timeout, now));
            && (f.Some? ==> f.value < |s.timeouts| && !InUse(s, f.value) && timeout > 0)
            && StepState(s, SetOp(timeout, now)) == if f.Some? then SetAt(s, f.value, timeout, now) else s
  { }

  lemma SetStepRefines(s: State, timeout: nat, now: nat)
    requires Inv(s) && ClockOk(s, now) && timeout + now < MOD
    ensures Refines(s, SetOp(timeout, now))
  {
    var f, t := SlotSet(s, SetOp(timeout, now)), StepState(s, SetOp(timeout, now));
    SetStepIs(s, timeout, now);
    assert Inv(t) && Deadlines(t) == (if f.Some? then Deadlines(s)[f.value := timeout + now] else Deadlines(s)) by {
      if f.Some? { SetRefines(s, f.value, timeout, now); }
    }
  }

  lemma CancelStepRefines(s: State, i: nat, now: nat)
    requires Inv(s) && ClockOk(s, now)
    ensures Refines(s, CancelOp(i, now))
  {
    if i < |s.timeouts| {
      CancelRefines(s, i, now);
    } else {
      assert Deadlines(s) - {i} == Deadlines(s);
    }
  }

  lemma IsrStepRefines(s: State, now: nat)
    requires Inv(s) && ClockOk(s, now)
    ensures Refines(s, IsrOp(now))
  {
    IsrRefines(s, now);
  }

  lemma StrikeDeadline(l: Ledger, i: nat)
    requires SlotsMatch(l)
    ensures Strike(l, i).d == l.d - {i}
  {
    if i in l.d { assert InSlot(l, i); }
  }

  lemma AccountDeadlines(l: Ledger, op: Op, slot: Option<nat>, wasNext: bool)
    requires SlotsMatch(l)
    ensures Account(l, op, slot, wasNext).d == Deadline(l.d, op, slot, wasNext)
  {
    if op.CancelOp? { StrikeDeadline(l, op.i); }
  }

  lemma StateRefines(s: State, op: Op)
    requires Inv(s) && ClockOk(s, op.now) && (op.SetOp? ==> op.timeout + op.now < MOD)
    ensures Refines(s, op)
  {
    match op
    case SetOp(timeout, now) => SetStepRefines(s, timeout, now);
    case CancelOp(i, now) => CancelStepRefines(s, i, now);
    case IsrOp(now) => IsrStepRefines(s, now);
  }

  lemma StepRefines(w: World, op: Op)
    requires Faithful(w) && ClockAllows(w, op)
    ensures Inv(StepState(w.s, op)) && Deadlines(StepState(w.s, op)) == Step(w, op).l.d
  {
    StateRefines(w.s, op);
    AccountDeadlines(w.l, op, SlotSet(w.s, op), WasNext(w.s, op));
  }

  lemma StepStamp(w: World, op: Op)
    requires Inv(w.s) && (w.s.next.Some? ==> w.s.stamp <= w.clock) && ClockAllows(w, op)
    ensures StepState(w.s, op).next.Some? ==> StepState(w.s, op).stamp <= op.now
  { }

  lemma StepIsFaithful(w: World, op: Op)
    requires Faithful(w) && ClockAllows(w, op)
    ensures Faithful(Step(w, op))
  {
    StepRefines(w, op);
    StepStamp(w, op);
    FreeIsNotPending(w.s, op);
    AccountBalances(w.l, op, SlotSet(w.s, op), WasNext(w.s, op));
  }

  // How often the timer that ran in a slot has expired by now
  function Firings(l: Ledger, m: Ledger, i: nat): int
    requires i in l.running && l.running[i] < |m.timers|
  {
    m.timers[l.running[i]].firings
  }

  // Slots whose timers the ledger expires
  ghost function Expiring(d: map<nat, nat>, op: Op, wasNext: bool): set<nat> {
    match op
    case SetOp(_, _) => {}
    case CancelOp(i, now) => if wasNext then Due(d - {i}, now) else {}
    case IsrOp(now) => Due(d, now)
  }

  lemma AccountFirings(l: Ledger, op: Op, slot: Option<nat>, wasNext: bool, i: nat)
    requires SlotsMatch(l) && i in l.d && (slot.Some? ==> slot.value !in l.d)
    ensures var m := Account(l, op, slot, wasNext);
            l.running[i] < |l.timers| <= |m.timers|
            && Firings(l, m, i) == Firings(l, l, i) + if i in Expiring(l.d, op, wasNext) then 1 else 0
  {
    assert InSlot(l, i);
    match op
    case SetOp(_, _) =>
    case CancelOp(j, now) => StrikeFirings(l, j, i); if wasNext { StrikeThenExpire(l, j, now, i); }
    case IsrOp(now) =>
  }

  lemma StrikeFirings(l: Ledger, j: nat, i: nat)
    requires SlotsMatch(l) && i in l.d
    ensures l.running[i] < |l.timers| == |Strike(l, j).timers| && Firings(l, Strike(l, j), i) == Firings(l, l, i)
  {
    assert InSlot(l, i);
  }

  lemma StrikeThenExpire(l: Ledger, j: nat, now: nat, i: nat)
    requires SlotsMatch(l) && i in l.d
    ensures var m := Expire(Strike(l, j), now);
            l.running[i] < |l.timers| == |m.timers|
            && Firings(l, m, i) == Firings(l, l, i) + if i in Due(l.d - {j}, now) then 1 else 0
  {
    assert InSlot(l, i);
    if j in l.d { assert InSlot(l, j); }
  }

  // An operation runs the asts of exactly the timers that it expires in the ledger.
  lemma FiredAreExpired(w: World, op: Op, i: nat)
    requires Faithful(w) && ClockAllows(w, op)
    ensures i in FiredBy(w.s, op) ==> i in w.l.running
    ensures i in w.l.running ==>
      var m := Step(w, op).l;
      w.l.running[i] < |w.l.timers| <= |m.timers|
      && Firings(w.l, m, i) == Firings(w.l, w.l, i) + if i in FiredBy(w.s, op) then 1 else 0
  {
    FiredIs(w.s, op);
    FreeIsNotPending(w.s, op);
    if i in w.l.d { AccountFirings(w.l, op, SlotSet(w.s, op), WasNext(w.s, op), i); }
  }

  lemma FiredIs(s: State, op: Op)
    requires Inv(s) && ClockOk(s, op.now) && (op.SetOp? ==> op.timeout + op.now < MOD)
    ensures FiredBy(s, op) == Expiring(Deadlines(s), op, WasNext(s, op))
  {
    match op
    case SetOp(timeout, now) => NoneExpireOnSet(s, timeout, now);
    case CancelOp(j, now) => CancelFires(s, j, now);
    case IsrOp(now) => IsrFires(s, now);
  }

  lemma CancelFires(s: State, i: nat, now: nat)
    requires Inv(s) && ClockOk(s, now)
    ensures FiredBy(s, CancelOp(i, now)) == if s.next == Some(i) then Due(Deadlines(s) - {i}, now) else {}
  {
    if s.next == Some(i) {
      ClearedDeadlines(s, i);
      ExpiredIsDue(Cleared(s, i), now);
    }
  }

  lemma IsrFires(s: State, now: nat)
    requires Inv(s) && ClockOk(s, now)
    ensures FiredBy(s, IsrOp(now)) == Due(Deadlines(s), now)
  {
    if s.next.Some? { ExpiredIsDue(s, now); }
  }

  lemma NoneExpireOnSet(s: State, timeout: nat, now: nat)
    requires Inv(s) && ClockOk(s, now) && timeout + now < MOD
    ensures FiredBy(s, SetOp(timeout, now)) == {}
  {
    if timeout != 0 && FreeFrom(s, 0) < |s.timeouts| && s.next.Some? {
      U32Small(timeout + now);
      U32Small(s.timeouts[s.next.value] + s.stamp);
      if timeout + now < s.timeouts[s.next.value] + s.stamp {
        NoneDue(s, timeout, now);
        ExpiredIsDue(s, now);
      }
    }
  }

  ghost predicate Run(ws: seq<World>, ops: seq<Op>) {
    && |ws| == |ops| + 1
    && (forall k :: 0 <= k < |ops| ==> Shaped(ws[k].s) && ClockAllows(ws[k], ops[k]) && ws[k + 1] == Step(ws[k], ops[k]))
  }

  lemma InitialIsFaithful(n: nat)
    ensures Faithful(World(Initial(n), BLANK, 0))
  { }

  // Over every run with such a clock: the array stands for the deadlines of the abstract
  // machine, and every timer ever started is running, was cancelled, or has expired exactly
  // once and not before its deadline.
  lemma {:induction false} EveryRunIsFaithful(n: nat, ws: seq<World>, ops: seq<Op>, k: nat)
    requires Run(ws, ops) && ws[0] == World(Initial(n), BLANK, 0) && k < |ws|
    ensures Faithful(ws[k])
  {
    if k == 0 {
      InitialIsFaithful(n);
    } else {
      EveryRunIsFaithful(n, ws, ops, k - 1);
      StepIsFaithful(ws[k - 1], ops[k - 1]);
    }
  }

  // In every run _setimr answers at once exactly for no time at all, is out of timers exactly
  // if every slot is pending, and otherwise starts a timer in the first slot that is not.
  lemma EverySetDecides(n: nat, ws: seq<World>, ops: seq<Op>, k: nat, timeout: nat)
    requires Run(ws, ops) && ws[0] == World(Initial(n), BLANK, 0) && k < |ws|
    ensures Shaped(ws[k].s)
    ensures var (d, reply) := (ws[k].l.d, SetReply(ws[k].s, timeout));
            var size := |ws[k].s.timeouts|;
            && (reply == AtOnce <==> timeout == 0)
            && (reply == OutOfTimers <==> timeout > 0 && forall i: nat :: i < size ==> i in d)
            && (reply.Started? ==> reply.slot < size && reply.slot !in d && forall i: nat :: i < reply.slot ==> i in d)
  {
    EveryRunIsFaithful(n, ws, ops, k);
    FirstFreeSlot(ws[k].s);
  }

  lemma FirstFreeSlot(s: State)
    requires EventsMatch(s)
    ensures var f := FreeFrom(s, 0);
            && (forall i: nat :: i < f ==> i in Deadlines(s))
            && (f < |s.timeouts| ==> f !in Deadlines(s))
  {
    var f := FreeFrom(s, 0);
    assert forall i: nat :: i < f ==> InUse(s, i) && s.timeouts[i] != 0;
  }

  // The number of timers never changes.
  lemma {:induction false} EveryRunKeepsSize(n: nat, ws: seq<World>, ops: seq<Op>, k: nat)
    requires Run(ws, ops) && ws[0] == World(Initial(n), BLANK, 0) && k < |ws|
    ensures |ws[k].s.timeouts| == n
  {
    if k > 0 {
      EveryRunKeepsSize(n, ws, ops, k - 1);
      EveryRunIsFaithful(n, ws, ops, k - 1);
      assert |StepState(ws[k - 1].s, ops[k - 1]).timeouts| == |ws[k - 1].s.timeouts|;
    }
  }
}
