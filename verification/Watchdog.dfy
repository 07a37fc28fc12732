/** The failure counters by which a running instance is watched and, in the end, reloaded. */
module Watchdog {
  const HARD_LIMIT: int := 5
  const TIMEOUT_LIMIT: int := 10

  // Answer to one probe: no reply in time, any other failure, or a proper answer
  datatype Probe = Answer | Timeout | Failure

  datatype Service = Wid | Asd | Wsm

  datatype Counters = Counters(wid: int, asd: int, wsm: int, widTimeout: int, asdTimeout: int, wsmTimeout: int)

  datatype Verdict = Healthy | Reload | Counted

  const ZERO: Counters := Counters(0, 0, 0, 0, 0, 0)

  function Bump(c: Counters, s: Service, timeout: bool): Counters {
    match s
    case Wid => if timeout then c.(widTimeout := c.widTimeout + 1) else c.(wid := c.wid + 1)
    case Asd => if timeout then c.(asdTimeout := c.asdTimeout + 1) else c.(asd := c.asd + 1)
    case Wsm => if timeout then c.(wsmTimeout := c.wsmTimeout + 1) else c.(wsm := c.wsm + 1)
  }

  function Hard(c: Counters, s: Service): int {
    match s case Wid => c.wid case Asd => c.asd case Wsm => c.wsm
  }

  function Late(c: Counters, s: Service): int {
    match s case Wid => c.widTimeout case Asd => c.asdTimeout case Wsm => c.wsmTimeout
  }

  function Fail(c: Counters, s: Service, timeout: bool): (Counters, Verdict) {
    var d := Bump(c, s, timeout);
    if Hard(d, s) >= HARD_LIMIT || Late(d, s) >= TIMEOUT_LIMIT then (ZERO, Reload) else (d, Counted)
  }

  // One round: the services are probed in order until one fails.
  function Round(c: Counters, wid: Probe, asd: Probe, wsm: Probe): (Counters, Verdict) {
    if wid != Answer then Fail(c, Wid, wid == Timeout)
    else if asd != Answer then Fail(c, Asd, asd == Timeout)
    else if wsm != Answer then Fail(c, Wsm, wsm == Timeout)
    else (ZERO, Healthy)
  }

  predicate Bounded(c: Counters) {
    && 0 <= c.wid < HARD_LIMIT && 0 <= c.asd < HARD_LIMIT && 0 <= c.wsm < HARD_LIMIT
    && 0 <= c.widTimeout < TIMEOUT_LIMIT && 0 <= c.asdTimeout < TIMEOUT_LIMIT && 0 <= c.wsmTimeout < TIMEOUT_LIMIT
  }

  function Sum(c: Counters): int { c.wid + c.asd + c.wsm + c.widTimeout + c.asdTimeout + c.wsmTimeout }

  // 3 * 4 + 3 * 9
  const PATIENCE: int := 39

  datatype Probes = Probes(wid: Probe, asd: Probe, wsm: Probe)

  ghost predicate Run(cs: seq<Counters>, ps: seq<Probes>, vs: seq<Verdict>) {
    && |cs| == |ps| + 1 && |vs| == |ps|
    && (forall k :: 0 <= k < |ps| ==> (cs[k + 1], vs[k]) == Round(cs[k], ps[k].wid, ps[k].asd, ps[k].wsm))
  }

  // Each round is a full success, a reload, or one more on exactly one counter.
  lemma RoundIsOneOfThree(c: Counters, p: Probes)
    requires Bounded(c)
    ensures var (d, v) := Round(c, p.wid, p.asd, p.wsm);
            && Bounded(d)
            && (v == Healthy <==> p == Probes(Answer, Answer, Answer))
            && (v != Counted ==> d == ZERO)
            && (v == Counted ==> exists s, t :: d == Bump(c, s, t))
            && (v == Counted ==> Sum(d) == Sum(c) + 1 <= PATIENCE)
  {
    var s := if p.wid != Answer then Wid else if p.asd != Answer then Asd else Wsm;
    var t := (if p.wid != Answer then p.wid else if p.asd != Answer then p.asd else p.wsm) == Timeout;
    if Round(c, p.wid, p.asd, p.wsm).1 == Counted { assert Round(c, p.wid, p.asd, p.wsm).0 == Bump(c, s, t); }
  }

  // The service whose probe fails first, in the order wid, asd, wsm
  predicate FailsFirst(p: Probes, s: Service) {
    match s
    case Wid => p.wid != Answer
    case Asd => p.wid == Answer && p.asd != Answer
    case Wsm => p.wid == Answer && p.asd == Answer && p.wsm != Answer
  }

  function ProbeOf(p: Probes, s: Service): Probe {
    match s case Wid => p.wid case Asd => p.asd case Wsm => p.wsm
  }

  // A missing reply raises that service's timeout counter, any other failure its hard one,
  // and no other counter; the fifth failure or the tenth timeout reloads.
  lemma FailureCountsExactly(c: Counters, p: Probes, s: Service)
    requires Bounded(c) && FailsFirst(p, s)
    ensures var (d, v) := Round(c, p.wid, p.asd, p.wsm);
            var late := ProbeOf(p, s) == Timeout;
            && (v == Reload <==> if late then Late(c, s) == 9 else Hard(c, s) == 4)
            && (v != Reload ==> v == Counted)
            && (v == Counted ==>
                  && (forall t :: Hard(d, t) == Hard(c, t) + if t == s && !late then 1 else 0)
                  && (forall t :: Late(d, t) == Late(c, t) + if t == s && late then 1 else 0))
  { }

  lemma {:induction false} EveryRunIsBounded(cs: seq<Counters>, ps: seq<Probes>, vs: seq<Verdict>, k: nat)
    requires Run(cs, ps, vs) && cs[0] == ZERO && k < |cs|
    ensures Bounded(cs[k])
  {
    if k > 0 {
      EveryRunIsBounded(cs, ps, vs, k - 1);
      RoundIsOneOfThree(cs[k - 1], ps[k - 1]);
    }
  }

  lemma {:induction false} CountedRoundsAddUp(cs: seq<Counters>, ps: seq<Probes>, vs: seq<Verdict>, i: nat, j: nat)
    requires Run(cs, ps, vs) && cs[0] == ZERO && i <= j < |cs|
    requires forall k :: i <= k < j ==> vs[k] == Counted
    ensures Sum(cs[j]) == Sum(cs[i]) + j - i
  {
    if i < j {
      CountedRoundsAddUp(cs, ps, vs, i, j - 1);
      EveryRunIsBounded(cs, ps, vs, j - 1);
      RoundIsOneOfThree(cs[j - 1], ps[j - 1]);
    }
  }

  // Whatever the probes say, no more than 39 rounds in a row pass with neither.
  lemma PatienceIsBounded(cs: seq<Counters>, ps: seq<Probes>, vs: seq<Verdict>, i: nat, j: nat)
    requires Run(cs, ps, vs) && cs[0] == ZERO && i <= j < |cs|
    requires forall k :: i <= k < j ==> vs[k] == Counted
    ensures j - i <= PATIENCE
  {
    CountedRoundsAddUp(cs, ps, vs, i, j);
    EveryRunIsBounded(cs, ps, vs, i);
    EveryRunIsBounded(cs, ps, vs, j);
  }

  // And there is a run that goes on that long: every counter to its limit in turn.
  function Worst(k: nat): Counters
    requires k <= PATIENCE
  {
    Counters(Part(k, 0, 4), Part(k, 13, 4), Part(k, 26, 4), Part(k, 4, 9), Part(k, 17, 9), Part(k, 30, 9))
  }

  function Part(k: nat, from: nat, most: nat): nat { if k < from then 0 else if k - from < most then k - from else most }

  function WorstProbes(k: nat): Probes {
    if k < 4 then Probes(Failure, Answer, Answer) else if k < 13 then Probes(Timeout, Answer, Answer)
    else if k < 17 then Probes(Answer, Failure, Answer) else if k < 26 then Probes(Answer, Timeout, Answer)
    else if k < 30 then Probes(Answer, Answer, Failure) else Probes(Answer, Answer, Timeout)
  }

  lemma PatienceIsReached()
    ensures exists cs, ps, vs :: Run(cs, ps, vs) && cs[0] == ZERO && |vs| == PATIENCE && forall k :: 0 <= k < |vs| ==> vs[k] == Counted
  {
    var cs := seq(PATIENCE + 1, k requires 0 <= k <= PATIENCE => Worst(k));
    var ps := seq(PATIENCE, k requires 0 <= k < PATIENCE => WorstProbes(k));
    var vs := seq(PATIENCE, k requires 0 <= k < PATIENCE => Counted);
    forall k | 0 <= k < PATIENCE
      ensures (cs[k + 1], vs[k]) == Round(cs[k], ps[k].wid, ps[k].asd, ps[k].wsm)
    {
      assert cs[k] == Worst(k) && cs[k + 1] == Worst(k + 1) && ps[k] == WorstProbes(k);
    }
    assert Run(cs, ps, vs) && cs[0] == ZERO;
  }

  /** The six counters of one instance, changed in place. */
  class Monitor {
    var c: Counters

    constructor ()
      ensures c == ZERO
    {
      c := ZERO;
    }

    // hansi_wireless_checking
    method Check(p: Probes) returns (v: Verdict)
      modifies this
      ensures (c, v) == Round(old(c), p.wid, p.asd, p.wsm)
    {
      if p.wid == Answer {
        if p.asd == Answer {
          if p.wsm == Answer {
            c := ZERO;
            return Healthy;
          }
          c := if p.wsm == Timeout then c.(wsmTimeout := c.wsmTimeout + 1) else c.(wsm := c.wsm + 1);
          if c.wsm >= 5 || c.wsmTimeout >= 10 { c := ZERO; return Reload; }
        } else {
          c := if p.asd == Timeout then c.(asdTimeout := c.asdTimeout + 1) else c.(asd := c.asd + 1);
          if c.asd >= 5 || c.asdTimeout >= 10 { c := ZERO; return Reload; }
        }
      } else {
        c := if p.wid == Timeout then c.(widTimeout := c.widTimeout + 1) else c.(wid := c.wid + 1);
        if c.wid >= 5 || c.widTimeout >= 10 { c := ZERO; return Reload; }
      }
      return Counted;
    }
  }
}
