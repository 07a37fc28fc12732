/** Absolute times and intervals in seconds and microseconds, with the source's arithmetic. */
module TimeVals {
  const MICRO_PER_SEC: int := 1000000
  const MAX_USEC: int := 999999
  const ALMOST_NOW: int := 1000

  datatype TimeVal = TimeVal(sec: int, usec: int)

  // TV_LESS_THAN
  predicate Less(a: TimeVal, b: TimeVal) {
    a.sec < b.sec || (a.sec == b.sec && a.usec < b.usec)
  }

  function Micros(t: TimeVal): int { t.sec * MICRO_PER_SEC + t.usec }

  predicate Normal(t: TimeVal) { 0 <= t.usec < MICRO_PER_SEC }

  // TV_MINUS
  function Minus(a: TimeVal, b: TimeVal): TimeVal {
    if a.usec >= b.usec then TimeVal(a.sec - b.sec, a.usec - b.usec)
    else TimeVal(a.sec - b.sec - 1, a.usec + (MAX_USEC - b.usec))
  }

  // The deadline that timer_add computes; its operands are not negative, so C's
  // division is this one.
  function After(now: TimeVal, sec: int, usec: int): TimeVal {
    TimeVal(now.sec + sec + (now.usec + usec) / MICRO_PER_SEC, (now.usec + usec) % MICRO_PER_SEC)
  }

  // The interval that timer_start hands to setitimer.
  function Interval(now: TimeVal, deadline: TimeVal): TimeVal {
    if Less(now, deadline) then Minus(deadline, now) else TimeVal(0, ALMOST_NOW)
  }

  lemma AfterIsExact(now: TimeVal, sec: int, usec: int)
    ensures Normal(After(now, sec, usec))
    ensures Micros(After(now, sec, usec)) == Micros(now) + sec * MICRO_PER_SEC + usec
  { }

  // Order of normal times is order of microseconds.
  lemma LessIsFewerMicros(a: TimeVal, b: TimeVal)
    requires Normal(a) && Normal(b)
    ensures Less(a, b) <==> Micros(a) < Micros(b)
  { }

  // A future deadline arms the exact difference, or one microsecond less after a borrow.
  lemma IntervalOfFuture(now: TimeVal, deadline: TimeVal)
    requires Normal(now) && Normal(deadline) && Less(now, deadline)
    ensures var i := Interval(now, deadline);
            && Normal(i) && i.sec >= 0
            && Micros(i) == Micros(deadline) - Micros(now) - (if deadline.usec < now.usec then 1 else 0)
  { }

  // A deadline that has passed arms one millisecond.
  lemma IntervalOfPast(now: TimeVal, deadline: TimeVal)
    requires Normal(now) && Normal(deadline) && Micros(deadline) <= Micros(now)
    ensures Normal(Interval(now, deadline)) && Micros(Interval(now, deadline)) == 1000
  {
    LessIsFewerMicros(now, deadline);
  }

  // setitimer gets a zero interval, which arms nothing, exactly for a deadline one
  // microsecond ahead across a second boundary.
  lemma ZeroIntervalExactly(now: TimeVal, deadline: TimeVal)
    requires Normal(now) && Normal(deadline)
    ensures Interval(now, deadline) == TimeVal(0, 0) <==>
            deadline == TimeVal(now.sec + 1, 0) && now.usec == MAX_USEC
  { }
}
