/**
  The timer queue as a state machine. A step is one critical section: timer_add,
  timer_rem, and the two sections of the ticker, before and after it waits for SIGALRM.
*/
module TimerQueue {
  import opened Options
  import opened Lists
  import opened TimeVals

  datatype Entry = Entry(deadline: TimeVal, id: int, inUse: bool, cancelled: bool)

  datatype Queue = Queue(entries: seq<Entry>, curId: int)

  // ---- the critical sections ----

  // Before the first entry with a later deadline.
  function Position(q: seq<Entry>, deadline: TimeVal): (p: nat)
    ensures p <= |q|
    ensures forall i :: 0 <= i < p ==> !Less(deadline, q[i].deadline)
    ensures p < |q| ==> Less(deadline, q[p].deadline)
  {
    if q == [] || Less(deadline, q[0].deadline) then 0 else 1 + Position(q[1..], deadline)
  }

  // A new head takes over in_use from the old one.
  function Insert(q: seq<Entry>, deadline: TimeVal, id: int): seq<Entry> {
    var p := Position(q, deadline);
    if p == 0 && q != []
    then Splice(q[0 := q[0].(inUse := false)], 0, Entry(deadline, id, true, false))
    else Splice(q, p, Entry(deadline, id, false, false))
  }

  predicate AddAccepts(hasHandler: bool, memory: bool, sec: int, usec: int) {
    hasHandler && memory && sec >= 0 && usec >= 0 && (sec != 0 || usec != 0)
  }

  // timer_add once it has accepted
  function Add(q: Queue, now: TimeVal, sec: int, usec: int): Queue {
    Queue(Insert(q.entries, After(now, sec, usec), q.curId), q.curId + 1)
  }

  // Where the entry with this id is, |q| if nowhere.
  function FindId(q: seq<Entry>, id: int): (p: nat)
    ensures p <= |q|
    ensures forall i :: 0 <= i < p ==> q[i].id != id
    ensures p < |q| ==> q[p].id == id
  {
    if q == [] || q[0].id == id then 0 else 1 + FindId(q[1..], id)
  }

  // timer_rem
  function Rem(q: Queue, id: int): Queue {
    var p := FindId(q.entries, id);
    if p == |q.entries| then q
    else if q.entries[p].inUse then q.(entries := q.entries[p := q.entries[p].(cancelled := true)])
    else q.(entries := Drop(q.entries, p))
  }

  // The ticker arms the first timer.
  function Arm(q: Queue): Queue {
    if q.entries == [] then q else q.(entries := q.entries[0 := q.entries[0].(inUse := true)])
  }

  // The ticker after the signal: drop a cancelled head, leave an early one, run a due one.
  function Expire(q: Queue, now: TimeVal): (Queue, Option<Entry>) {
    if q.entries == [] then (q, None)
    else if q.entries[0].cancelled then (q.(entries := q.entries[1..]), None)
    else if Less(now, q.entries[0].deadline) then (q, None)
    else (q.(entries := q.entries[1..]), Some(q.entries[0]))
  }

  // ---- a well-formed queue ----

  // Earlier deadline, or the same deadline and added before.
  predicate Before(a: Entry, b: Entry) {
    Less(a.deadline, b.deadline) || (!Less(b.deadline, a.deadline) && a.id < b.id)
  }

  // Sorted by deadline, equal deadlines first come first served, ids distinct.
  ghost predicate Ordered(q: seq<Entry>) {
    forall i, j :: 0 <= i < j < |q| ==> Before(q[i], q[j]) && q[i].id != q[j].id
  }

  ghost predicate OnlyHeadInUse(q: seq<Entry>) {
    forall i :: 1 <= i < |q| ==> !q[i].inUse
  }

  ghost predicate IdsBelow(q: seq<Entry>, n: int) {
    forall i :: 0 <= i < |q| ==> 0 <= q[i].id < n
  }

  ghost predicate WellFormed(q: Queue) {
    Ordered(q.entries) && OnlyHeadInUse(q.entries) && IdsBelow(q.entries, q.curId) && q.curId >= 0
  }

  lemma SpliceKeepsOrder(q: seq<Entry>, p: nat, e: Entry)
    requires Ordered(q) && p <= |q|
    requires forall i :: 0 <= i < p ==> Before(q[i], e) && q[i].id != e.id
    requires forall i :: p <= i < |q| ==> Before(e, q[i]) && q[i].id != e.id
    ensures Ordered(Splice(q, p, e))
  {
    var r := Splice(q, p, e);
    assert forall i :: 0 <= i < |r| ==> r[i] == if i < p then q[i] else if i == p then e else q[i - 1];
  }

  lemma DropKeepsOrder(q: seq<Entry>, p: nat)
    requires Ordered(q) && p < |q|
    ensures Ordered(Drop(q, p))
  {
    var r := Drop(q, p);
    assert forall i :: 0 <= i < |r| ==> r[i] == if i < p then q[i] else q[i + 1];
  }

  // The flags do not matter for the order.
  lemma FlagsKeepOrder(q: seq<Entry>, p: nat, inUse: bool, cancelled: bool)
    requires Ordered(q) && p < |q|
    ensures Ordered(q[p := q[p].(inUse := inUse, cancelled := cancelled)])
  { }

  lemma NewEntryFits(q: seq<Entry>, deadline: TimeVal, id: int, e: Entry)
    requires Ordered(q) && IdsBelow(q, id) && e.deadline == deadline && e.id == id
    ensures var p := Position(q, deadline);
            && (forall i :: 0 <= i < p ==> Before(q[i], e) && q[i].id != e.id)
            && (forall i :: p <= i < |q| ==> Before(e, q[i]) && q[i].id != e.id)
  {
    var p := Position(q, deadline);
    forall i | p <= i < |q|
      ensures Before(e, q[i])
    {
      assert p < i ==> Before(q[p], q[i]);
    }
  }

  lemma InsertKeepsOrder(q: seq<Entry>, deadline: TimeVal, id: int)
    requires Ordered(q) && IdsBelow(q, id)
    ensures Ordered(Insert(q, deadline, id))
  {
    var p := Position(q, deadline);
    if p == 0 && q != [] {
      var q', e := q[0 := q[0].(inUse := false)], Entry(deadline, id, true, false);
      FlagsKeepOrder(q, 0, false, q[0].cancelled);
      NewEntryFits(q, deadline, id, e);
      SpliceKeepsOrder(q', 0, e);
    } else {
      NewEntryFits(q, deadline, id, Entry(deadline, id, false, false));
      SpliceKeepsOrder(q, p, Entry(deadline, id, false, false));
    }
  }

  lemma AddKeepsWellFormed(q: Queue, now: TimeVal, sec: int, usec: int)
    requires WellFormed(q)
    ensures WellFormed(Add(q, now, sec, usec))
  {
    InsertKeepsOrder(q.entries, After(now, sec, usec), q.curId);
  }

  lemma RemKeepsWellFormed(q: Queue, id: int)
    requires WellFormed(q)
    ensures WellFormed(Rem(q, id))
  {
    var p := FindId(q.entries, id);
    if p < |q.entries| {
      FlagsKeepOrder(q.entries, p, q.entries[p].inUse, true);
      DropKeepsOrder(q.entries, p);
    }
  }

  lemma ArmKeepsWellFormed(q: Queue)
    requires WellFormed(q)
    ensures WellFormed(Arm(q))
  { }

  lemma ExpireKeepsWellFormed(q: Queue, now: TimeVal)
    requires WellFormed(q)
    ensures WellFormed(Expire(q, now).0)
  { }

  // ---- runs ----

  datatype Event =
    | AddEvent(now: TimeVal, sec: int, usec: int, hasHandler: bool, memory: bool)
    | RemEvent(id: int)
    | ArmEvent
    | ExpireEvent(now: TimeVal)

  datatype Firing = Firing(id: int, at: TimeVal)

  // The queue, whether the ticker is waiting for its signal, and what has happened so far:
  // every deadline given out, the ids removed while queued, and the handlers run.
  datatype World = World(q: Queue, waiting: bool, deadlines: map<int, TimeVal>, removed: set<int>, fired: seq<Firing>)

  const START := World(Queue([], 0), false, map[], {}, [])

  predicate Queued(q: Queue, id: int) { FindId(q.entries, id) < |q.entries| }

  // The ticker arms only a non-empty queue, and handles a signal only after arming.
  function Step(w: World, ev: Event): World {
    match ev
    case AddEvent(now, sec, usec, hasHandler, memory) =>
      if AddAccepts(hasHandler, memory, sec, usec)
      then Added(w, now, sec, usec)
      else w
    case RemEvent(id) =>
      w.(q := Rem(w.q, id), removed := if Queued(w.q, id) then w.removed + {id} else w.removed)
    case ArmEvent =>
      if w.waiting || w.q.entries == [] then w else w.(q := Arm(w.q), waiting := true)
    case ExpireEvent(now) =>
      if !w.waiting then w else
        var (q', e) := Expire(w.q, now);
        w.(q := q', waiting := false, fired := if e.Some? then w.fired + [Firing(e.value.id, now)] else w.fired)
  }

  function Run(evs: seq<Event>): World {
    if evs == [] then START else Step(Run(evs[..|evs| - 1]), evs[|evs| - 1])
  }

  // Entries carry the deadline they were given; one that was removed is marked cancelled;
  // one that has fired is gone.
  ghost predicate EntryOk(w: World, e: Entry) {
    && e.id in w.deadlines && w.deadlines[e.id] == e.deadline
    && (e.cancelled <==> e.id in w.removed)
    && (forall k :: 0 <= k < |w.fired| ==> w.fired[k].id != e.id)
  }

  // A handler ran once, not early, and not for a removed timer.
  ghost predicate FiringOk(w: World, f: Firing) {
    && f.id in w.deadlines && !Less(f.at, w.deadlines[f.id])
    && f.id !in w.removed
  }

  ghost predicate Safe(w: World) {
    && WellFormed(w.q)
    && (forall i :: 0 <= i < |w.q.entries| ==> EntryOk(w, w.q.entries[i]))
    && (forall k :: 0 <= k < |w.fired| ==> FiringOk(w, w.fired[k]))
    && (forall j, k :: 0 <= j < k < |w.fired| ==> w.fired[j].id != w.fired[k].id)
    && (forall id :: id in w.deadlines ==> 0 <= id < w.q.curId)
    && w.removed <= w.deadlines.Keys
    && (w.waiting ==> w.q.entries != [] && w.q.entries[0].inUse)
  }

  // Every entry after a step is an entry from before, apart from its flags and the new one.
  lemma InsertEntries(q: seq<Entry>, deadline: TimeVal, id: int)
    ensures forall e :: e in Insert(q, deadline, id) ==>
              (e.id == id && e.deadline == deadline && !e.cancelled) ||
              exists i :: 0 <= i < |q| && e.(inUse := q[i].inUse) == q[i]
  {
    var p, r := Position(q, deadline), Insert(q, deadline, id);
    forall k | 0 <= k < |r|
      ensures (r[k].id == id && r[k].deadline == deadline && !r[k].cancelled) ||
              exists i :: 0 <= i < |q| && r[k].(inUse := q[i].inUse) == q[i]
    {
      if k != p {
        var i := if k < p then k else k - 1;
        assert r[k].(inUse := q[i].inUse) == q[i];
      }
    }
  }

  lemma HeadStaysInUse(q: seq<Entry>, deadline: TimeVal, id: int)
    ensures q != [] && q[0].inUse ==> Insert(q, deadline, id) != [] && Insert(q, deadline, id)[0].inUse
  { }

  function Added(w: World, now: TimeVal, sec: int, usec: int): World {
    w.(q := Add(w.q, now, sec, usec), deadlines := w.deadlines[w.q.curId := After(now, sec, usec)])
  }

  // A new id has no history, and the other entries keep theirs.
  lemma AddedEntryOk(w: World, now: TimeVal, sec: int, usec: int, e: Entry)
    requires Safe(w) && e in Added(w, now, sec, usec).q.entries
    ensures EntryOk(Added(w, now, sec, usec), e)
  {
    var d, id := After(now, sec, usec), w.q.curId;
    InsertEntries(w.q.entries, d, id);
    if e.id == id && e.deadline == d && !e.cancelled {
      forall k | 0 <= k < |w.fired|
        ensures w.fired[k].id != id
      {
        assert FiringOk(w, w.fired[k]);
      }
    } else {
      var i :| 0 <= i < |w.q.entries| && e.(inUse := w.q.entries[i].inUse) == w.q.entries[i];
      assert EntryOk(w, w.q.entries[i]);
    }
  }

  lemma AddKeepsSafe(w: World, now: TimeVal, sec: int, usec: int)
    requires Safe(w)
    ensures Safe(Added(w, now, sec, usec))
  {
    var w' := Added(w, now, sec, usec);
    AddKeepsWellFormed(w.q, now, sec, usec);
    HeadStaysInUse(w.q.entries, After(now, sec, usec), w.q.curId);
    forall k | 0 <= k < |w'.q.entries|
      ensures EntryOk(w', w'.q.entries[k])
    {
      AddedEntryOk(w, now, sec, usec, w'.q.entries[k]);
    }
    forall k | 0 <= k < |w'.fired|
      ensures FiringOk(w', w'.fired[k])
    {
      assert FiringOk(w, w.fired[k]);
    }
  }

  lemma RemKeepsSafe(w: World, id: int)
    requires Safe(w)
    ensures Safe(Step(w, RemEvent(id)))
  {
    RemKeepsWellFormed(w.q, id);
    var e, p, w' := w.q.entries, FindId(w.q.entries, id), Step(w, RemEvent(id));
    if p < |e| {
      assert EntryOk(w, e[p]);
      forall k | 0 <= k < |w'.q.entries|
        ensures EntryOk(w', w'.q.entries[k])
      {
        var i := if e[p].inUse || k < p then k else k + 1;
        assert EntryOk(w, e[i]);
        assert i != p ==> e[i].id != id;
      }
    }
  }

  lemma ArmKeepsSafe(w: World)
    requires Safe(w)
    ensures Safe(Step(w, ArmEvent))
  {
    ArmKeepsWellFormed(w.q);
    var w' := Step(w, ArmEvent);
    forall k | 0 <= k < |w'.q.entries|
      ensures EntryOk(w', w'.q.entries[k])
    {
      assert EntryOk(w, w.q.entries[k]);
    }
  }

  lemma ExpireKeepsSafe(w: World, now: TimeVal)
    requires Safe(w)
    ensures Safe(Step(w, ExpireEvent(now)))
  {
    ExpireKeepsWellFormed(w.q, now);
    var w' := Step(w, ExpireEvent(now));
    if w.waiting {
      assert EntryOk(w, w.q.entries[0]);
      forall k | 0 <= k < |w'.q.entries|
        ensures EntryOk(w', w'.q.entries[k])
      {
        var i := if |w'.q.entries| == |w.q.entries| then k else k + 1;
        assert EntryOk(w, w.q.entries[i]);
        assert i > 0 ==> w.q.entries[0].id != w.q.entries[i].id;
      }
    }
  }

  // Every interleaving of the critical sections keeps all of it.
  lemma {:induction false} EveryRunIsSafe(evs: seq<Event>)
    ensures Safe(Run(evs))
  {
    if evs != [] {
      var w := Run(evs[..|evs| - 1]);
      EveryRunIsSafe(evs[..|evs| - 1]);
      match evs[|evs| - 1]
      case AddEvent(now, sec, usec, _, _) => AddKeepsSafe(w, now, sec, usec);
      case RemEvent(id) => RemKeepsSafe(w, id);
      case ArmEvent => ArmKeepsSafe(w);
      case ExpireEvent(now) => ExpireKeepsSafe(w, now);
    }
  }

  // What a run fires next: the least queued timer, due, for the first time, not removed.
  lemma EveryFiringIsLeastAndDue(evs: seq<Event>, now: TimeVal)
    ensures var w := Run(evs); var w' := Step(w, ExpireEvent(now));
            w'.fired != w.fired ==>
            exists e ::
              && e in w.q.entries && w'.fired == w.fired + [Firing(e.id, now)]
              && (forall x :: x in w.q.entries && x != e ==> Before(e, x))
              && !Less(now, e.deadline)
              && e.id !in w.removed
              && (forall k :: 0 <= k < |w.fired| ==> w.fired[k].id != e.id)
              && (forall x :: x in w'.q.entries ==> x.id != e.id)
  {
    EveryRunIsSafe(evs);
    var w := Run(evs);
    var w' := Step(w, ExpireEvent(now));
    if w'.fired != w.fired {
      var e := w.q.entries[0];
      assert EntryOk(w, e);
      assert e in w.q.entries;
      assert w'.q.entries == w.q.entries[1..];
    }
  }

  ghost predicate IsLeast(q: seq<Entry>, e: Entry) {
    e in q && forall x :: x in q && x != e ==> Before(e, x)
  }

  // An entry is taken out of the queue and nothing else changes.
  ghost predicate Without(q: seq<Entry>, e: Entry, r: seq<Entry>) {
    |r| == |q| - 1 && forall x :: x in r <==> x in q && x != e
  }

  lemma LeastIsFirst(q: seq<Entry>, e: Entry)
    requires Ordered(q) && IsLeast(q, e)
    ensures q[0] == e
  {
    var i :| 0 <= i < |q| && q[i] == e;
    if i > 0 { assert Before(q[0], q[i]) && q[0] in q; }
  }

  lemma FirstTakenOut(q: seq<Entry>)
    requires Ordered(q) && q != []
    ensures Without(q, q[0], q[1..])
  {
    assert q == [q[0]] + q[1..];
    assert forall i :: 1 <= i < |q| ==> q[i].id != q[0].id;
  }

  // In every run, a signal that the ticker waits for decides the least queued timer: one that
  // was removed leaves without firing, one that is due leaves and fires, and an early one
  // stays, with everything else.
  lemma EverySignalDecides(evs: seq<Event>, now: TimeVal, e: Entry)
    requires Run(evs).waiting && IsLeast(Run(evs).q.entries, e)
    ensures var w := Run(evs); var w' := Step(w, ExpireEvent(now));
            && !w'.waiting && w'.q.curId == w.q.curId && w'.deadlines == w.deadlines && w'.removed == w.removed
            && (e.id in w.removed ==> Without(w.q.entries, e, w'.q.entries) && w'.fired == w.fired)
            && (e.id !in w.removed && !Less(now, e.deadline) ==>
                  Without(w.q.entries, e, w'.q.entries) && w'.fired == w.fired + [Firing(e.id, now)])
            && (e.id !in w.removed && Less(now, e.deadline) ==> w'.q == w.q && w'.fired == w.fired)
  {
    var w := Run(evs);
    EveryRunIsSafe(evs);
    LeastIsFirst(w.q.entries, e);
    FirstTakenOut(w.q.entries);
    assert EntryOk(w, w.q.entries[0]);
  }

  // In every run, a waiting ticker has a timer to decide.
  lemma WaitingHasLeast(evs: seq<Event>)
    requires Run(evs).waiting
    ensures Run(evs).q.entries != [] && IsLeast(Run(evs).q.entries, Run(evs).q.entries[0])
  {
    var q := Run(evs).q.entries;
    EveryRunIsSafe(evs);
    forall x | x in q && x != q[0] ensures Before(q[0], x) {
      var i :| 0 <= i < |q| && q[i] == x;
    }
  }

  // timer_rem of a queued timer: one that the ticker has in use is only marked, any other
  // leaves the queue at once.
  lemma EveryRemovalDecides(evs: seq<Event>, e: Entry)
    requires e in Run(evs).q.entries
    ensures var w := Run(evs); var w' := Step(w, RemEvent(e.id));
            && w' == w.(q := w'.q, removed := w.removed + {e.id}) && w'.q.curId == w.q.curId
            && (e.inUse ==> w.q.entries[0] == e && w'.q.entries == [e.(cancelled := true)] + w.q.entries[1..])
            && (!e.inUse ==> Without(w.q.entries, e, w'.q.entries))
  {
    EveryRunIsSafe(evs);
    RemDecides(Run(evs).q, e);
  }

  lemma RemDecides(q: Queue, e: Entry)
    requires WellFormed(q) && e in q.entries
    ensures Queued(q, e.id) && Rem(q, e.id).curId == q.curId
    ensures e.inUse ==> q.entries[0] == e && Rem(q, e.id).entries == [e.(cancelled := true)] + q.entries[1..]
    ensures !e.inUse ==> Without(q.entries, e, Rem(q, e.id).entries)
  {
    var i :| 0 <= i < |q.entries| && q.entries[i] == e;
    var p := FindId(q.entries, e.id);
    assert p == i;
    TakenOut(q.entries, p);
  }

  // A timer that is not queued leaves everything as it is.
  lemma RemovalOfUnknown(w: World, id: int)
    requires forall x :: x in w.q.entries ==> x.id != id
    ensures Step(w, RemEvent(id)) == w
  { }

  // A ticker that is not waiting arms the least queued timer, if there is one, and waits.
  lemma EveryArmingDecides(evs: seq<Event>, e: Entry)
    requires !Run(evs).waiting && IsLeast(Run(evs).q.entries, e)
    ensures var w := Run(evs); var w' := Step(w, ArmEvent);
            && w' == w.(q := w'.q, waiting := true) && w'.q.curId == w.q.curId
            && w'.q.entries == [e.(inUse := true)] + w.q.entries[1..]
            && IsLeast(w'.q.entries, e.(inUse := true))
  {
    EveryRunIsSafe(evs);
    LeastIsFirst(Run(evs).q.entries, e);
    assert evs + [ArmEvent] != [] && (evs + [ArmEvent])[..|evs|] == evs;
    WaitingHasLeast(evs + [ArmEvent]);
  }

  lemma TakenOut(q: seq<Entry>, p: nat)
    requires Ordered(q) && p < |q|
    ensures Without(q, q[p], Drop(q, p))
  {
    DropAt(q, p);
    forall x | x in q && x != q[p] ensures x in Drop(q, p) {
      var i :| 0 <= i < |q| && q[i] == x;
      assert Drop(q, p)[if i < p then i else i - 1] == x;
    }
    assert forall i :: 0 <= i < |q| && i != p ==> q[i].id != q[p].id;
  }

  // timer_add: a request that is not negative is accepted exactly if its deadline is ahead.
  lemma AddAcceptsExactly(now: TimeVal, sec: int, usec: int, hasHandler: bool, memory: bool)
    requires Normal(now)
    ensures AddAccepts(hasHandler, memory, sec, usec) <==>
            hasHandler && memory && sec >= 0 && usec >= 0 && Less(now, After(now, sec, usec))
  {
    AfterIsExact(now, sec, usec);
    LessIsFewerMicros(now, After(now, sec, usec));
  }

  // An accepted request is queued under the next id with its deadline, behind those that are
  // due no later; in use if it comes first before others. Refused ones change nothing.
  lemma EveryAdditionDecides(evs: seq<Event>, now: TimeVal, sec: int, usec: int, hasHandler: bool, memory: bool)
    ensures var w := Run(evs); var w' := Step(w, AddEvent(now, sec, usec, hasHandler, memory));
            if !AddAccepts(hasHandler, memory, sec, usec) then w' == w
            else
              var e := Entry(After(now, sec, usec), w.q.curId, w.q.entries != [] && Less(After(now, sec, usec), w.q.entries[0].deadline), false);
              && e in w'.q.entries && w'.q.curId == w.q.curId + 1 && |w'.q.entries| == |w.q.entries| + 1
              && (forall x :: x in w.q.entries ==> Less(e.deadline, x.deadline) || Before(x, e))
              && w'.fired == w.fired && w'.removed == w.removed && w'.waiting == w.waiting
  {
    var w := Run(evs);
    EveryRunIsSafe(evs);
    var q, d := w.q.entries, After(now, sec, usec);
    var r, p := Insert(q, d, w.q.curId), Position(q, d);
    var e := Entry(d, w.q.curId, q != [] && Less(d, q[0].deadline), false);
    assert r[p] == e;
  }

  lemma {:induction false} RemovalsAndFiringsStay(evs: seq<Event>, more: seq<Event>)
    ensures Run(evs).removed <= Run(evs + more).removed
    ensures Run(evs).fired <= Run(evs + more).fired
  {
    if more == [] {
      assert evs + more == evs;
    } else {
      var init := more[..|more| - 1];
      assert (evs + more)[..|evs + more| - 1] == evs + init;
      RemovalsAndFiringsStay(evs, init);
    }
  }

  // A timer that timer_rem found in the queue never fires afterwards, whatever overtakes it.
  lemma RemovedNeverFires(evs: seq<Event>, id: int, more: seq<Event>)
    requires Queued(Run(evs).q, id)
    ensures var w := Run(evs + [RemEvent(id)] + more);
            forall k :: 0 <= k < |w.fired| ==> w.fired[k].id != id
  {
    var first := evs + [RemEvent(id)];
    assert first[..|first| - 1] == evs;
    assert id in Run(first).removed;
    RemovalsAndFiringsStay(first, more);
    EveryRunIsSafe(first + more);
    var w := Run(first + more);
    forall k | 0 <= k < |w.fired|
      ensures w.fired[k].id != id
    {
      assert FiringOk(w, w.fired[k]);
    }
  }

  // ---- no timer is lost ----

  function Ids(q: seq<Entry>): set<int> { set i | 0 <= i < |q| :: q[i].id }

  function FiredIds(f: seq<Firing>): set<int> { set k | 0 <= k < |f| :: f[k].id }

  lemma IdAt(q: seq<Entry>, i: nat)
    requires i < |q|
    ensures q[i].id in Ids(q)
  { }

  lemma InsertIds(q: seq<Entry>, deadline: TimeVal, id: int)
    ensures Ids(Insert(q, deadline, id)) == Ids(q) + {id}
  {
    var p, r := Position(q, deadline), Insert(q, deadline, id);
    assert forall k :: 0 <= k < |r| ==> r[k].id == if k < p then q[k].id else if k == p then id else q[k - 1].id;
    forall i | 0 <= i < |q|
      ensures q[i].id in Ids(r)
    {
      IdAt(r, if i < p then i else i + 1);
    }
    IdAt(r, p);
  }

  lemma DropIds(q: seq<Entry>, p: nat)
    requires p < |q|
    ensures Ids(q) <= Ids(Drop(q, p)) + {q[p].id}
  {
    var r := Drop(q, p);
    forall i | 0 <= i < |q| && i != p
      ensures q[i].id in Ids(r)
    {
      var k := if i < p then i else i - 1;
      assert r[k] == q[i];
    }
  }

  // Every timer ever added is still queued, was removed, or has fired.
  ghost predicate Accounted(w: World) {
    w.deadlines.Keys <= Ids(w.q.entries) + w.removed + FiredIds(w.fired)
  }

  lemma FlagsKeepIds(q: seq<Entry>, p: nat, e: Entry)
    requires p < |q| && e.id == q[p].id
    ensures Ids(q[p := e]) == Ids(q)
  {
    assert forall i :: 0 <= i < |q| ==> q[p := e][i].id == q[i].id;
  }

  lemma RemIds(q: Queue, id: int)
    ensures Ids(q.entries) <= Ids(Rem(q, id).entries) + (if Queued(q, id) then {id} else {})
  {
    var e, p := q.entries, FindId(q.entries, id);
    if p < |e| {
      DropIds(e, p);
      FlagsKeepIds(e, p, e[p].(cancelled := true));
    }
  }

  lemma ArmIds(q: Queue)
    ensures Ids(Arm(q).entries) == Ids(q.entries)
  {
    if q.entries != [] {
      FlagsKeepIds(q.entries, 0, q.entries[0].(inUse := true));
    }
  }

  // The ticker drops a timer only when it was cancelled or when it runs it.
  lemma ExpireIds(q: Queue, now: TimeVal)
    ensures var (q', e) := Expire(q, now);
            Ids(q.entries) <= Ids(q'.entries)
                              + (if e.Some? then {e.value.id} else {})
                              + (if q.entries != [] && q.entries[0].cancelled then {q.entries[0].id} else {})
  {
    if q.entries != [] {
      DropIds(q.entries, 0);
      assert Drop(q.entries, 0) == q.entries[1..];
    }
  }

  lemma FiredIdsGrow(f: seq<Firing>, x: Firing)
    ensures FiredIds(f + [x]) == FiredIds(f) + {x.id}
  {
    var g := f + [x];
    assert g[|f|] == x;
    forall k | 0 <= k < |f|
      ensures f[k].id in FiredIds(g)
    {
      assert g[k] == f[k];
    }
  }

  lemma StepKeepsAccounted(w: World, ev: Event)
    requires Safe(w) && Accounted(w)
    ensures Accounted(Step(w, ev))
  {
    match ev
    case AddEvent(now, sec, usec, _, _) => InsertIds(w.q.entries, After(now, sec, usec), w.q.curId);
    case RemEvent(id) => RemIds(w.q, id);
    case ArmEvent => ArmIds(w.q);
    case ExpireEvent(now) =>
      ExpireIds(w.q, now);
      if w.waiting {
        assert EntryOk(w, w.q.entries[0]);
        FiredIdsGrow(w.fired, Firing(w.q.entries[0].id, now));
      }
  }

  lemma {:induction false} NoTimerIsLost(evs: seq<Event>)
    ensures Accounted(Run(evs))
  {
    if evs != [] {
      NoTimerIsLost(evs[..|evs| - 1]);
      EveryRunIsSafe(evs[..|evs| - 1]);
      StepKeepsAccounted(Run(evs[..|evs| - 1]), evs[|evs| - 1]);
    }
  }
}
