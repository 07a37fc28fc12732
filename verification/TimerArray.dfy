/**
  A fixed array of relative timeouts, all counted from one time stamp, and the absolute
  deadlines it stands for. Times are 32-bit counts of ten milliseconds.
*/
module TimerArray {
  import opened Options

  const MOD: int := 0x1_0000_0000
  const MANY: int := 0xffff_ffff

  // Arithmetic on unsigned int.
  function U32(x: int): nat { x % 0x1_0000_0000 }

  // The timers, which of them have an event to set, the one that is expected to run down
  // next, and when the interval timer was started.
  datatype State = State(timeouts: seq<nat>, events: seq<bool>, next: Option<nat>, stamp: nat)

  // ---- the operations of the source, each with one clock reading ----

  predicate InUse(s: State, i: nat)
    requires i < |s.timeouts| == |s.events|
  {
    s.timeouts[i] != 0 || s.events[i]
  }

  // update_all_timers_by
  function Reduced(t: nat, time: nat): nat { if time < t then t - time else 0 }

  predicate RunsOut(t: nat, time: nat) { t != 0 && time >= t }

  function UpdateAll(s: State, time: nat): State
    requires |s.timeouts| == |s.events|
  {
    s.(timeouts := seq(|s.timeouts|, i requires 0 <= i < |s.timeouts| => Reduced(s.timeouts[i], time)),
       events := seq(|s.events|, i requires 0 <= i < |s.events| => s.events[i] && !RunsOut(s.timeouts[i], time)))
  }

  function Expired(s: State, time: nat): set<nat> {
    set i | 0 <= i < |s.timeouts| && RunsOut(s.timeouts[i], time)
  }

  // shortest_timer over the first n timers: the first of the least, if below the sentinel
  function Shortest(ts: seq<nat>, n: nat): (b: Option<nat>)
    requires n <= |ts|
    ensures b.Some? ==> b.value < n && 0 < ts[b.value] < MANY
    ensures b.Some? ==> forall i :: 0 <= i < n && ts[i] > 0 ==> ts[b.value] <= ts[i]
    ensures b.None? ==> forall i :: 0 <= i < n ==> ts[i] == 0 || ts[i] >= MANY
  {
    if n == 0 then None else
      var b := Shortest(ts, n - 1);
      if 0 < ts[n - 1] < (if b.Some? then ts[b.value] else MANY) then Some(n - 1) else b
  }

  // start_timer
  function Start(s: State, t: Option<nat>, now: nat): State {
    if t.None? then s.(next := None) else s.(next := t, stamp := now)
  }

  // The first timer that is not in use, from i on.
  function FreeFrom(s: State, i: nat): (f: nat)
    requires i <= |s.timeouts| == |s.events|
    ensures i <= f <= |s.timeouts|
    ensures forall j :: i <= j < f ==> InUse(s, j)
    ensures f < |s.timeouts| ==> !InUse(s, f)
    decreases |s.timeouts| - i
  {
    if i == |s.timeouts| || !InUse(s, i) then i else FreeFrom(s, i + 1)
  }

  function Install(s: State, f: nat, timeout: nat): State
    requires f < |s.timeouts| == |s.events|
  {
    s.(timeouts := s.timeouts[f := timeout], events := s.events[f := true])
  }

  // _setimr with a free timer f
  function SetAt(s: State, f: nat, timeout: nat, now: nat): State
    requires f < |s.timeouts| == |s.events| && (s.next.Some? ==> s.next.value < |s.timeouts|)
  {
    if s.next.None? then Start(Install(s, f, timeout), Some(f), now)
    else if U32(timeout + now) < U32(s.timeouts[s.next.value] + s.stamp) then
      Start(Install(UpdateAll(s, U32(now - s.stamp)), f, timeout), Some(f), now)
    else Install(s, f, U32(timeout + (now - s.stamp)))
  }

  // _cantim
  function Cleared(s: State, i: nat): State
    requires i < |s.timeouts| == |s.events|
  {
    s.(timeouts := s.timeouts[i := 0], events := s.events[i := false])
  }

  function Restarted(s: State, now: nat): State
    requires |s.timeouts| == |s.events|
  {
    var u := UpdateAll(s, U32(now - s.stamp));
    Start(u, Shortest(u.timeouts, |u.timeouts|), now)
  }

  function Cancel(s: State, i: nat, now: nat): State
    requires i < |s.timeouts| == |s.events|
  {
    if s.next == Some(i) then Restarted(Cleared(s, i), now) else Cleared(s, i)
  }

  // clk_isr
  function Isr(s: State, now: nat): State
    requires |s.timeouts| == |s.events|
  {
    if s.next.None? then UpdateAll(s, U32(now - s.stamp)) else Restarted(s, now)
  }

  // ---- absolute deadlines ----

  predicate Pending(s: State, i: nat) { i < |s.timeouts| && s.timeouts[i] != 0 }

  function Deadlines(s: State): map<nat, nat> {
    map i | 0 <= i < |s.timeouts| && s.timeouts[i] != 0 :: s.stamp + s.timeouts[i]
  }

  ghost predicate Inv(s: State) {
    && EventsMatch(s)
    && (s.next.None? <==> forall i :: 0 <= i < |s.timeouts| ==> s.timeouts[i] == 0)
    && (s.next.Some? ==> Pending(s, s.next.value))
    && (s.next.Some? ==> IsLeast(s, s.next.value))
    && NoWrap(s)
  }

  ghost predicate IsLeast(s: State, k: nat)
    requires k < |s.timeouts|
  {
    forall i :: 0 <= i < |s.timeouts| && s.timeouts[i] != 0 ==> s.timeouts[k] <= s.timeouts[i]
  }

  ghost predicate NoWrap(s: State) {
    forall i :: 0 <= i < |s.timeouts| && s.timeouts[i] != 0 ==> s.stamp + s.timeouts[i] < MOD
  }

  ghost predicate EventsMatch(s: State) {
    |s.timeouts| == |s.events| && forall i :: 0 <= i < |s.timeouts| ==> (s.timeouts[i] != 0 <==> s.events[i])
  }

  // A clock reading that has not wrapped since the stamp was taken.
  ghost predicate ClockOk(s: State, now: nat) { 0 < now < MOD && (s.next.Some? ==> s.stamp <= now) }

  lemma U32Small(x: int)
    requires 0 <= x < MOD
    ensures U32(x) == x
  { }

  // Counting from now instead of the stamp keeps every deadline that is still ahead.
  lemma UpdateMovesStamp(s: State, now: nat)
    requires EventsMatch(s) && NoWrap(s) && s.stamp <= now < MOD
    ensures var u := UpdateAll(s, U32(now - s.stamp)).(stamp := now);
            && EventsMatch(u) && NoWrap(u) && u.next == s.next && |u.timeouts| == |s.timeouts|
            && (forall i :: 0 <= i < |s.timeouts| ==>
                  (u.timeouts[i] != 0 <==> s.timeouts[i] != 0 && s.stamp + s.timeouts[i] > now))
            && (forall i :: 0 <= i < |s.timeouts| && u.timeouts[i] != 0 ==> now + u.timeouts[i] == s.stamp + s.timeouts[i])
    ensures Expired(s, U32(now - s.stamp)) == set i | i in Deadlines(s) && Deadlines(s)[i] <= now
  {
    U32Small(now - s.stamp);
  }

  ghost function Ahead(d: map<nat, nat>, now: nat): map<nat, nat> { map i | i in d && d[i] > now :: d[i] }

  ghost function Due(d: map<nat, nat>, now: nat): set<nat> { set i | i in d && d[i] <= now }

  lemma MovedDeadlines(s: State, now: nat)
    requires EventsMatch(s) && NoWrap(s) && s.stamp <= now < MOD
    ensures Deadlines(UpdateAll(s, U32(now - s.stamp)).(stamp := now)) == Ahead(Deadlines(s), now)
  {
    UpdateMovesStamp(s, now);
  }

  lemma InstallAdds(s: State, f: nat, t: nat)
    requires EventsMatch(s) && NoWrap(s) && f < |s.timeouts| && 0 < t && s.stamp + t < MOD
    ensures EventsMatch(Install(s, f, t)) && NoWrap(Install(s, f, t))
    ensures Deadlines(Install(s, f, t)) == Deadlines(s)[f := s.stamp + t]
  { }

  // A new timer that no pending one precedes becomes the next one.
  lemma InstallLeast(s: State, f: nat, t: nat)
    requires EventsMatch(s) && NoWrap(s) && f < |s.timeouts| && 0 < t && s.stamp + t < MOD
    requires forall i :: 0 <= i < |s.timeouts| && s.timeouts[i] != 0 ==> t <= s.timeouts[i]
    ensures var r := Install(s, f, t).(next := Some(f));
            Inv(r) && Deadlines(r) == Deadlines(s)[f := s.stamp + t]
  {
    InstallAdds(s, f, t);
    var r := Install(s, f, t).(next := Some(f));
    assert r.timeouts[f] == t && IsLeast(r, f);
  }

  // A new timer due before the next one means that none is due now.
  lemma NoneDue(s: State, timeout: nat, now: nat)
    requires Inv(s) && s.next.Some? && timeout + now < s.timeouts[s.next.value] + s.stamp
    ensures forall i :: 0 <= i < |s.timeouts| && s.timeouts[i] != 0 ==> s.stamp + s.timeouts[i] > now + timeout
    ensures Ahead(Deadlines(s), now) == Deadlines(s) && Due(Deadlines(s), now) == {}
  {
    assert IsLeast(s, s.next.value);
  }

  lemma StartInstall(v: State, f: nat, timeout: nat, now: nat)
    requires f < |v.timeouts| == |v.events|
    ensures Start(Install(v, f, timeout), Some(f), now) == Install(v.(stamp := now), f, timeout).(next := Some(f))
  { }

  lemma SetShorter(s: State, f: nat, timeout: nat, now: nat)
    requires Inv(s) && s.next.Some? && ClockOk(s, now) && f < |s.timeouts|
    requires 0 < timeout && timeout + now < s.timeouts[s.next.value] + s.stamp
    ensures var t := Start(Install(UpdateAll(s, U32(now - s.stamp)), f, timeout), Some(f), now);
            Inv(t) && Deadlines(t) == Deadlines(s)[f := timeout + now]
    ensures Expired(s, U32(now - s.stamp)) == {}
  {
    NoneDue(s, timeout, now);
    UpdateMovesStamp(s, now);
    MovedDeadlines(s, now);
    var v := UpdateAll(s, U32(now - s.stamp));
    StartInstall(v, f, timeout, now);
    InstallLeast(v.(stamp := now), f, timeout);
  }

  lemma SetLonger(s: State, f: nat, timeout: nat, now: nat)
    requires Inv(s) && s.next.Some? && ClockOk(s, now) && f < |s.timeouts| && s.timeouts[f] == 0
    requires 0 < timeout && s.timeouts[s.next.value] + s.stamp <= timeout + now < MOD
    ensures var t := Install(s, f, timeout + (now - s.stamp));
            Inv(t) && Deadlines(t) == Deadlines(s)[f := timeout + now]
  {
    var t, n := Install(s, f, timeout + (now - s.stamp)), s.next.value;
    InstallAdds(s, f, timeout + (now - s.stamp));
    assert n != f && t.timeouts[n] == s.timeouts[n];
    assert IsLeast(t, n);
  }

  // What _setimr does when nothing wraps.
  lemma SetAtIs(s: State, f: nat, timeout: nat, now: nat)
    requires Inv(s) && s.next.Some? && ClockOk(s, now) && f < |s.timeouts| && timeout + now < MOD
    ensures SetAt(s, f, timeout, now) ==
            if timeout + now < s.timeouts[s.next.value] + s.stamp
            then Start(Install(UpdateAll(s, U32(now - s.stamp)), f, timeout), Some(f), now)
            else Install(s, f, timeout + (now - s.stamp))
  {
    U32Small(timeout + now);
    U32Small(s.timeouts[s.next.value] + s.stamp);
    U32Small(timeout + (now - s.stamp));
  }

  // Setting a timer adds its deadline and disturbs no other.
  lemma SetRefines(s: State, f: nat, timeout: nat, now: nat)
    requires Inv(s) && ClockOk(s, now) && f < |s.timeouts| && !InUse(s, f) && 0 < timeout && timeout + now < MOD
    ensures Inv(SetAt(s, f, timeout, now))
    ensures Deadlines(SetAt(s, f, timeout, now)) == Deadlines(s)[f := timeout + now]
  {
    if s.next.None? {
      var s' := s.(stamp := now);
      assert Deadlines(s') == Deadlines(s);
      InstallLeast(s', f, timeout);
    } else {
      SetAtIs(s, f, timeout, now);
      if timeout + now < s.timeouts[s.next.value] + s.stamp {
        SetShorter(s, f, timeout, now);
      } else {
        SetLonger(s, f, timeout, now);
      }
    }
  }

  // shortest_timer finds the next one as long as no timeout reaches the sentinel.
  lemma ShortestKeepsInv(s: State)
    requires EventsMatch(s) && NoWrap(s) && s.stamp > 0
    ensures Inv(s.(next := Shortest(s.timeouts, |s.timeouts|)))
  {
    assert forall i :: 0 <= i < |s.timeouts| ==> s.timeouts[i] < MANY;
  }

  // ... and misses pending timers exactly when every pending timeout has reached it.
  lemma ShortestMissesExactly(ts: seq<nat>)
    requires exists i :: 0 <= i < |ts| && ts[i] > 0
    ensures Shortest(ts, |ts|).None? <==> forall i :: 0 <= i < |ts| && ts[i] > 0 ==> ts[i] >= MANY
  {
    var b := Shortest(ts, |ts|);
    if b.Some? {
      assert 0 < ts[b.value] < MANY;
    }
  }

  lemma StartShortest(v: State, now: nat, r: State)
    requires EventsMatch(v) && NoWrap(v.(stamp := now)) && now > 0 && r == Start(v, Shortest(v.timeouts, |v.timeouts|), now)
    ensures Inv(r) && Deadlines(r) == Deadlines(v.(stamp := now))
  {
    var u, b := v.(stamp := now), Shortest(v.timeouts, |v.timeouts|);
    assert EventsMatch(u);
    ShortestKeepsInv(u);
    if b.None? {
      assert forall i :: 0 <= i < |v.timeouts| ==> v.timeouts[i] == 0;
    } else {
      assert r == u.(next := b);
    }
  }

  // Restarting keeps exactly the deadlines after now.
  lemma RestartRefines(s: State, now: nat)
    requires EventsMatch(s) && NoWrap(s) && s.stamp <= now && 0 < now < MOD
    ensures Inv(Restarted(s, now))
    ensures Deadlines(Restarted(s, now)) == Ahead(Deadlines(s), now)
    ensures Expired(s, U32(now - s.stamp)) == Due(Deadlines(s), now)
  {
    RestartKeeps(s, now, UpdateAll(s, U32(now - s.stamp)), Restarted(s, now));
    ExpiredIsDue(s, now);
  }

  lemma RestartKeeps(s: State, now: nat, u: State, r: State)
    requires EventsMatch(s) && NoWrap(s) && s.stamp <= now && 0 < now < MOD
    requires u == UpdateAll(s, U32(now - s.stamp)) && r == Start(u, Shortest(u.timeouts, |u.timeouts|), now)
    ensures Inv(r) && Deadlines(r) == Ahead(Deadlines(s), now)
  {
    UpdatedOk(s, now, u);
    StartShortest(u, now, r);
  }

  lemma UpdatedOk(s: State, now: nat, v: State)
    requires EventsMatch(s) && NoWrap(s) && s.stamp <= now < MOD && v == UpdateAll(s, U32(now - s.stamp))
    ensures EventsMatch(v) && NoWrap(v.(stamp := now)) && Deadlines(v.(stamp := now)) == Ahead(Deadlines(s), now)
  {
    UpdateMovesStamp(s, now);
    MovedDeadlines(s, now);
  }

  lemma ExpiredIsDue(s: State, now: nat)
    requires EventsMatch(s) && NoWrap(s) && s.stamp <= now < MOD
    ensures Expired(s, U32(now - s.stamp)) == Due(Deadlines(s), now)
  {
    UpdateMovesStamp(s, now);
  }

  lemma ClearedDeadlines(s: State, i: nat)
    requires EventsMatch(s) && NoWrap(s) && i < |s.timeouts|
    ensures EventsMatch(Cleared(s, i)) && NoWrap(Cleared(s, i))
    ensures Deadlines(Cleared(s, i)) == Deadlines(s) - {i}
  { }

  // Cancelling drops the deadline; if it was the next one, timers that are due expire.
  lemma CancelRefines(s: State, i: nat, now: nat)
    requires Inv(s) && ClockOk(s, now) && i < |s.timeouts|
    ensures Inv(Cancel(s, i, now))
    ensures var d := Deadlines(s) - {i};
            Deadlines(Cancel(s, i, now)) == if s.next == Some(i) then Ahead(d, now) else d
  {
    ClearedDeadlines(s, i);
    if s.next == Some(i) {
      RestartRefines(Cleared(s, i), now);
    } else if s.next.Some? {
      assert IsLeast(s, s.next.value);
      assert IsLeast(Cleared(s, i), s.next.value);
    }
  }

  // The interrupt expires exactly the timers that are due.
  lemma IsrRefines(s: State, now: nat)
    requires Inv(s) && ClockOk(s, now)
    ensures Inv(Isr(s, now))
    ensures Deadlines(Isr(s, now)) == Ahead(Deadlines(s), now)
    ensures s.next.Some? ==> Expired(s, U32(now - s.stamp)) == Due(Deadlines(s), now)
  {
    if s.next.Some? {
      RestartRefines(s, now);
    } else {
      assert UpdateAll(s, U32(now - s.stamp)) == s;
    }
  }

  // ---- runs ----

  datatype Op =
    | SetOp(timeout: nat, now: nat)
    | CancelOp(i: nat, now: nat)
    | IsrOp(now: nat)

  predicate Shaped(s: State) { |s.timeouts| == |s.events| && (s.next.Some? ==> s.next.value < |s.timeouts|) }

  // Slots whose ast an operation runs.
  function FiredBy(s: State, op: Op): set<nat> {
    if !Shaped(s) then {} else
    match op
    case SetOp(timeout, now) =>
      if timeout != 0 && FreeFrom(s, 0) < |s.timeouts| && s.next.Some? &&
         U32(timeout + now) < U32(s.timeouts[s.next.value] + s.stamp)
      then Expired(s, U32(now - s.stamp)) else {}
    case CancelOp(i, now) =>
      if i < |s.timeouts| && s.next == Some(i) then Expired(Cleared(s, i), U32(now - s.stamp)) else {}
    case IsrOp(now) => Expired(s, U32(now - s.stamp))
  }

  function StepState(s: State, op: Op): State {
    if !Shaped(s) then s else
    match op
    case SetOp(timeout, now) =>
      var f := FreeFrom(s, 0);
      if timeout == 0 || f == |s.timeouts| then s else SetAt(s, f, timeout, now)
    case CancelOp(i, now) => if i < |s.timeouts| then Cancel(s, i, now) else s
    case IsrOp(now) => Isr(s, now)
  }

  // What _setimr answers: no wait at all, no timer left, or the slot of the timer.
  datatype Reply = AtOnce | OutOfTimers | Started(slot: nat)

  function SetReply(s: State, timeout: nat): Reply
    requires |s.timeouts| == |s.events|
  {
    if timeout == 0 then AtOnce
    else if FreeFrom(s, 0) == |s.timeouts| then OutOfTimers
    else Started(FreeFrom(s, 0))
  }

  function Initial(n: nat): State { State(seq(n, _ => 0), seq(n, _ => false), None, 0) }

  // With a deadline that wraps, a timer as long as the sentinel is forgotten at the first
  // interrupt although it is pending.
  lemma ShortestMissIsReached()
    ensures var s := StepState(StepState(Initial(1), SetOp(MANY, 1)), IsrOp(1));
            s.next == None && s.timeouts == [MANY] && s.events == [true]
  {
    var s1 := StepState(Initial(1), SetOp(MANY, 1));
    assert s1 == State([MANY], [true], Some(0), 1);
    var u := UpdateAll(s1, U32(0));
    assert u.timeouts == [MANY] && u.events == [true];
    assert Shortest(u.timeouts, 0) == None;
  }
}
