/** The timer array as the source updates it, with its loops over the array. */
module TimerArrayObject {
  import opened Options
  import opened TimerArray

  class Timers {
    const timeout: array<nat>
    const event: array<bool>
    var next: Option<nat>
    var stamp: nat

    ghost predicate Valid()
      reads this
    {
      timeout.Length == event.Length && (next.Some? ==> next.value < timeout.Length)
    }

    ghost function View(): State
      reads this, timeout, event
    {
      State(timeout[..], event[..], next, stamp)
    }

    // _clkini
    constructor (n: nat)
      ensures Valid() && View() == Initial(n) && fresh(timeout) && fresh(event)
    {
      timeout := new nat[n](_ => 0);
      event := new bool[n](_ => false);
      next, stamp := None, 0;
    }

    // update_all_timers_by; the result lists the timers whose ast was called, in order.
    method UpdateAll(time: nat) returns (fired: seq<nat>)
      requires timeout.Length == event.Length
      modifies timeout, event
      ensures View() == TimerArray.UpdateAll(old(View()), time)
      ensures forall i :: i in fired <==> i in Expired(old(View()), time)
    {
      fired := [];
      var id := 0;
      while id < timeout.Length
        invariant 0 <= id <= timeout.Length
        invariant forall i :: 0 <= i < id ==> timeout[i] == Reduced(old(timeout[i]), time)
        invariant forall i :: 0 <= i < id ==> event[i] == (old(event[i]) && !RunsOut(old(timeout[i]), time))
        invariant forall i :: id <= i < timeout.Length ==> timeout[i] == old(timeout[i]) && event[i] == old(event[i])
        invariant forall i :: i in fired <==> 0 <= i < id && RunsOut(old(timeout[i]), time)
      {
        if timeout[id] != 0 {
          if time < timeout[id] {
            timeout[id] := timeout[id] - time;
          } else {
            timeout[id] := 0;
            fired := fired + [id];
            event[id] := false;
          }
        }
        id := id + 1;
      }
    }

    // shortest_timer
    method ShortestTimer() returns (b: Option<nat>)
      ensures b == Shortest(timeout[..], timeout.Length)
    {
      var old_timer := MANY;
      b := None;
      for t := 0 to timeout.Length
        invariant b == Shortest(timeout[..], t)
        invariant old_timer == if b.Some? then timeout[b.value] else MANY
      {
        if timeout[t] > 0 && timeout[t] < old_timer {
          old_timer := timeout[t];
          b := Some(t);
        }
      }
    }

    // start_timer
    method StartTimer(t: Option<nat>, now: nat)
      modifies this`next, this`stamp
      ensures View() == Start(old(View()), t, now)
    {
      next := t;
      if t.None? {
        return;
      }
      stamp := now;
    }

    // The search loop of _setimr.
    method FreeTimer() returns (f: nat)
      requires Valid()
      ensures f == FreeFrom(View(), 0)
    {
      f := 0;
      while f < timeout.Length && (timeout[f] != 0 || event[f])
        invariant f <= timeout.Length && FreeFrom(View(), 0) == FreeFrom(View(), f)
      {
        f := f + 1;
      }
    }

    method InstallTimer(f: nat, time: nat)
      requires f < timeout.Length == event.Length
      modifies timeout, event
      ensures View() == Install(old(View()), f, time)
    {
      event[f] := true;
      timeout[f] := time;
    }

    // A timer shorter than the next one
    method SetShorter(f: nat, time: nat, now: nat) returns (fired: seq<nat>)
      requires Valid() && f < timeout.Length
      modifies this`next, this`stamp, timeout, event
      ensures View() == Start(Install(TimerArray.UpdateAll(old(View()), U32(now - old(stamp))), f, time), Some(f), now)
      ensures forall i :: i in fired <==> i in Expired(old(View()), U32(now - old(stamp)))
    {
      fired := UpdateAll(U32(now - stamp));
      InstallTimer(f, time);
      StartTimer(Some(f), now);
    }

    // _setimr once it has a free timer: none pending, shorter than the next one, or longer
    method SetFree(f: nat, time: nat, now: nat) returns (fired: seq<nat>)
      requires Valid() && f < timeout.Length
      modifies this`next, this`stamp, timeout, event
      ensures View() == SetAt(old(View()), f, time, now)
      ensures forall i :: i in fired <==>
                old(next.Some? && U32(time + now) < U32(timeout[next.value] + stamp)) && i in Expired(old(View()), U32(now - old(stamp)))
    {
      fired := [];
      if next.None? {
        InstallTimer(f, time);
        StartTimer(Some(f), now);
      } else if U32(time + now) < U32(timeout[next.value] + stamp) {
        fired := SetShorter(f, time, now);
      } else {
        InstallTimer(f, U32(time + (now - stamp)));
      }
    }

    // _setimr
    method SetTimer(time: nat, now: nat) returns (reply: Reply, fired: seq<nat>)
      requires Valid()
      modifies this`next, this`stamp, timeout, event
      ensures View() == StepState(old(View()), SetOp(time, now))
      ensures forall i :: i in fired <==> i in FiredBy(old(View()), SetOp(time, now))
      ensures reply == SetReply(old(View()), time)
    {
      if time == 0 {
        return AtOnce, [];
      }
      var f := FreeTimer();
      if f == timeout.Length {
        return OutOfTimers, [];
      }
      fired := SetFree(f, time, now);
      reply := Started(f);
    }

    // cancel_itimer and the restart with the shortest timer
    method Restart(now: nat) returns (fired: seq<nat>)
      requires timeout.Length == event.Length
      modifies this`next, this`stamp, timeout, event
      ensures View() == Restarted(old(View()), now)
      ensures forall i :: i in fired <==> i in Expired(old(View()), U32(now - old(stamp)))
    {
      fired := UpdateAll(U32(now - stamp));
      var b := ShortestTimer();
      StartTimer(b, now);
    }

    method ClearTimer(i: nat)
      requires i < timeout.Length == event.Length
      modifies timeout, event
      ensures View() == Cleared(old(View()), i)
    {
      timeout[i] := 0;
      event[i] := false;
    }

    // _cantim
    method CancelTimer(i: nat, now: nat) returns (fired: seq<nat>)
      requires Valid() && i < timeout.Length
      modifies this`next, this`stamp, timeout, event
      ensures View() == Cancel(old(View()), i, now)
      ensures forall j :: j in fired <==> j in FiredBy(old(View()), CancelOp(i, now))
    {
      fired := [];
      ClearTimer(i);
      if next == Some(i) {
        fired := Restart(now);
      }
    }

    // clk_isr
    method ClockIsr(now: nat) returns (fired: seq<nat>)
      requires Valid()
      modifies this`next, this`stamp, timeout, event
      ensures View() == Isr(old(View()), now)
      ensures forall j :: j in fired <==> j in FiredBy(old(View()), IsrOp(now))
    {
      if next.None? {
        fired := UpdateAll(U32(now - stamp));
        return;
      }
      fired := Restart(now);
    }
  }
}
