/** The doubly linked timer list of the source, which carries out the steps of TimerQueue. */
module TimerList {
  import opened Options
  import opened Lists
  import opened TimeVals
  import opened TimerQueue

  class Timer {
    var timeout: TimeVal
    var id: int
    var inUse: bool
    var cancelled: bool
    var next: Timer?
    var prev: Timer?

    constructor (timeout: TimeVal, id: int)
      ensures AsEntry() == Entry(timeout, id, false, false)
    {
      this.timeout := timeout;
      this.id := id;
      inUse, cancelled := false, false;
      next, prev := null, null;
    }

    function AsEntry(): Entry
      reads this
    {
      Entry(timeout, id, inUse, cancelled)
    }
  }

  class TimerQ {
    var first: Timer?
    var last: Timer?
    var curId: int
    ghost var nodes: seq<Timer>
    ghost var entries: seq<Entry>

    // first and last are the ends, and next and prev mirror each other.
    ghost predicate Linked()
      reads this, nodes
    {
      && Distinct(nodes)
      && (nodes == [] ==> first == null && last == null)
      && (nodes != [] ==> first == nodes[0] && last == nodes[|nodes| - 1] && first.prev == null && last.next == null)
      && (forall i {:trigger nodes[i].prev} :: 1 <= i < |nodes| ==> nodes[i].prev == nodes[i - 1])
      && (forall i {:trigger nodes[i].next} :: 0 <= i < |nodes| - 1 ==> nodes[i].next == nodes[i + 1])
    }

    ghost predicate Valid()
      reads this, nodes
    {
      Linked() && Matches()
    }

    // The nodes carry the entries.
    ghost predicate Matches()
      reads this, nodes
    {
      |entries| == |nodes| && forall i :: 0 <= i < |nodes| ==> nodes[i].AsEntry() == entries[i]
    }

    ghost function View(): Queue
      reads this
    {
      Queue(entries, curId)
    }

    ghost predicate At(t: Timer?, p: nat)
      reads this
    {
      p <= |nodes| && t == if p < |nodes| then nodes[p] else null
    }

    // timer_init
    constructor ()
      ensures Valid() && nodes == [] && View() == START.q
    {
      first, last, curId, nodes, entries := null, null, 0, [], [];
    }

    // timer_dequeue
    method Dequeue(t: Timer, ghost p: nat)
      requires Linked() && p < |nodes| && nodes[p] == t
      modifies this`first, this`last, this`nodes, nodes`next, nodes`prev
      ensures Linked() && nodes == Drop(old(nodes), p)
    {
      if t.prev == null {
        first := t.next;
      } else {
        t.prev.next := t.next;
      }
      if t.next == null {
        last := t.prev;
      } else {
        t.next.prev := t.prev;
      }
      ghost var was := nodes;
      nodes := Drop(was, p);
      DropAt(was, p);
      DropDistinct(was, p);
      forall i | 1 <= i < |nodes| ensures nodes[i].prev == nodes[i - 1] {
        if i >= p { assert was[i + 1].prev == if i == p then was[p - 1] else was[i]; }
      }
      forall i | 0 <= i < |nodes| - 1 ensures nodes[i].next == nodes[i + 1] {
        if i + 1 <= p { assert was[i].next == if i + 1 == p then was[p + 1] else was[i + 1]; }
      }
    }

    method Remove(t: Timer, ghost p: nat)
      requires Valid() && p < |nodes| && nodes[p] == t
      modifies this`first, this`last, this`nodes, this`entries, nodes`next, nodes`prev
      ensures Valid() && nodes == Drop(old(nodes), p)
      ensures entries == Drop(old(entries), p)
    {
      ghost var was, es := nodes, entries;
      Dequeue(t, p);
      assert forall i :: 0 <= i < |was| ==> was[i].AsEntry() == es[i];
      entries := Drop(es, p);
      DropMatches(was, es, p);
    }

    // The new timer is the longest, or the only one.
    method LinkLast(t: Timer)
      requires Linked() && t !in nodes
      modifies this`first, this`last, this`nodes, nodes`next, t`next, t`prev
      ensures Linked() && nodes == old(nodes) + [t]
    {
      t.prev := last;
      t.next := null;
      if last == null {
        first := t;
      } else {
        last.next := t;
      }
      last := t;
      nodes := nodes + [t];
    }

    // The new timer is the shortest.
    method LinkFirst(t: Timer)
      requires Linked() && t !in nodes && nodes != []
      modifies this`first, this`nodes, nodes`prev, t`next, t`prev
      ensures Linked() && nodes == [t] + old(nodes)
    {
      t.prev := null;
      t.next := first;
      first.prev := t;
      first := t;
      nodes := [t] + nodes;
    }

    // The new timer goes before another one that is not the first.
    method LinkBefore(t: Timer, tmp: Timer, ghost p: nat)
      requires Linked() && t !in nodes && 0 < p < |nodes| && tmp == nodes[p]
      modifies this`nodes, nodes`next, nodes`prev, t`next, t`prev
      ensures Linked() && nodes == Splice(old(nodes), p, t)
    {
      ghost var was := nodes;
      assert tmp.prev == was[p - 1];
      t.prev := tmp.prev;
      t.next := tmp;
      tmp.prev.next := t;
      tmp.prev := t;
      nodes := Splice(was, p, t);
      SpliceAt(was, p, t);
      SpliceDistinct(was, p, t);
      forall i | 1 <= i < |nodes| ensures nodes[i].prev == nodes[i - 1] {
        if i < p { assert was[i].prev == was[i - 1]; }
        if i > p + 1 { assert was[i - 1].prev == was[i - 2]; }
      }
      forall i | 0 <= i < |nodes| - 1 ensures nodes[i].next == nodes[i + 1] {
        if i < p - 1 { assert was[i].next == was[i + 1]; }
        if i > p { assert was[i - 1].next == was[i]; }
      }
    }

    method AddFirst(t: Timer)
      requires Valid() && t !in nodes && nodes != []
      modifies this`first, this`nodes, this`entries, nodes`prev, t`next, t`prev
      ensures Valid() && nodes == [t] + old(nodes) && entries == [old(t.AsEntry())] + old(entries)
      ensures forall n :: n in nodes ==> n in old(nodes) || n == t
    {
      ghost var was, es := nodes, entries;
      LinkFirst(t);
      assert forall i :: 0 <= i < |was| ==> was[i].AsEntry() == es[i];
      entries := [t.AsEntry()] + es;
      forall i | 0 <= i < |nodes| ensures nodes[i].AsEntry() == entries[i] {
        if i >= 1 { assert nodes[i] == was[i - 1]; }
      }
    }

    method PassInUse(t: Timer, tmp: Timer)
      requires Valid() && |nodes| >= 2 && t == nodes[0] && tmp == nodes[1]
      modifies this`entries, t`inUse, tmp`inUse
      ensures Valid()
      ensures entries == [old(entries)[0].(inUse := true), old(entries)[1].(inUse := false)] + old(entries)[2..]
    {
      t.inUse := true;
      tmp.inUse := false;
      entries := [t.AsEntry(), tmp.AsEntry()] + entries[2..];
    }

    // A new first timer takes over in_use.
    method TakeOver(t: Timer, tmp: Timer)
      requires Valid() && t !in nodes && nodes != [] && tmp == first
      modifies this`first, this`nodes, this`entries, nodes`prev, tmp`inUse, t`next, t`prev, t`inUse
      ensures Valid() && forall n :: n in nodes ==> n in old(nodes) || n == t
      ensures entries == [old(t.AsEntry()).(inUse := true), old(entries)[0].(inUse := false)] + old(entries)[1..]
    {
      AddFirst(t);
      PassInUse(t, tmp);
    }

    method AddLast(t: Timer)
      requires Valid() && t !in nodes
      modifies this`first, this`last, this`nodes, this`entries, nodes`next, t`next, t`prev
      ensures Valid() && entries == old(entries) + [old(t.AsEntry())]
      ensures forall n :: n in nodes ==> n in old(nodes) || n == t
    {
      ghost var was, es := nodes, entries;
      LinkLast(t);
      assert forall i :: 0 <= i < |was| ==> was[i].AsEntry() == es[i];
      entries := es + [t.AsEntry()];
      forall i | 0 <= i < |nodes| ensures nodes[i].AsEntry() == entries[i] {
        if i < |was| { assert nodes[i] == was[i]; }
      }
    }

    method AddBefore(t: Timer, tmp: Timer, ghost p: nat)
      requires Valid() && t !in nodes && 0 < p < |nodes| && tmp == nodes[p]
      modifies this`nodes, this`entries, nodes`next, nodes`prev, t`next, t`prev
      ensures Valid() && forall n :: n in nodes ==> n in old(nodes) || n == t
      ensures entries == Splice(old(entries), p, old(t.AsEntry()))
    {
      ghost var was, es := nodes, entries;
      LinkBefore(t, tmp, p);
      assert forall i :: 0 <= i < |was| ==> was[i].AsEntry() == es[i];
      entries := Splice(es, p, t.AsEntry());
      SpliceMatches(was, es, p, t);
    }

    method Enqueue(t: Timer)
      requires Valid() && t !in nodes && !t.inUse && !t.cancelled
      modifies this`first, this`last, this`nodes, this`entries, nodes, t
      ensures Valid() && forall n :: n in nodes ==> n in old(nodes) || n == t
      ensures entries == Insert(old(entries), old(t.timeout), old(t.id))
    {
      InsertCases(entries, t.timeout, t.id);
      var tmp, p := Search(t.timeout);
      if tmp == null {
        AddLast(t);
      } else if tmp.prev == null {
        TakeOver(t, tmp);
      } else {
        AddBefore(t, tmp, p);
      }
    }

    // timer_add
    method Add(now: TimeVal, sec: int, usec: int, hasHandler: bool, memory: bool) returns (id: int)
      requires Valid()
      modifies this, nodes
      ensures Valid() && forall n :: n in nodes ==> n in old(nodes) || fresh(n)
      ensures if AddAccepts(hasHandler, memory, sec, usec)
              then id == old(curId) && View() == TimerQueue.Add(old(View()), now, sec, usec)
              else id == -1 && View() == old(View())
    {
      if !hasHandler || sec < 0 || usec < 0 || (sec == 0 && usec == 0) || !memory {
        return -1;
      }
      var t := new Timer(After(now, sec, usec), curId);
      id := curId;
      curId := curId + 1;
      Enqueue(t);
    }

    // The loop of timer_add: the first timer that expires after the new one.
    method Search(timeout: TimeVal) returns (tmp: Timer?, ghost p: nat)
      requires Valid()
      ensures p == Position(entries, timeout) && At(tmp, p)
      ensures tmp != null ==> (tmp.prev == null <==> p == 0)
    {
      tmp, p := first, 0;
      while tmp != null
        invariant At(tmp, p)
        invariant forall i :: 0 <= i < p ==> !Less(timeout, nodes[i].timeout)
        decreases |nodes| - p
      {
        if Less(timeout, tmp.timeout) {
          break;
        }
        tmp, p := tmp.next, p + 1;
      }
      assert forall i :: 0 <= i < p ==> entries[i] == nodes[i].AsEntry();
      PositionIs(entries, timeout, p);
    }

    // The loop of timer_rem.
    method FindTimer(id: int) returns (t: Timer?, ghost p: nat)
      requires Valid()
      ensures p == FindId(entries, id) && At(t, p)
    {
      t, p := first, 0;
      while t != null && t.id != id
        invariant At(t, p)
        invariant forall i :: 0 <= i < p ==> nodes[i].id != id
        decreases |nodes| - p
      {
        t, p := t.next, p + 1;
      }
      assert forall i :: 0 <= i < p ==> entries[i] == nodes[i].AsEntry();
      FindIdIs(entries, id, p);
    }

    // timer_rem
    method Rem(id: int)
      requires Valid()
      modifies this`first, this`last, this`nodes, this`entries, nodes
      ensures Valid() && forall n :: n in nodes ==> n in old(nodes)
      ensures View() == TimerQueue.Rem(old(View()), id)
    {
      var t, p := FindTimer(id);
      if t == null {
        return;
      }
      if t.inUse {
        Cancel(t, p);
        return;
      }
      Remove(t, p);
    }

    method Cancel(t: Timer, ghost p: nat)
      requires Valid() && p < |nodes| && nodes[p] == t
      modifies this`entries, t`cancelled
      ensures Valid() && entries == old(entries)[p := old(entries)[p].(cancelled := true)]
    {
      t.cancelled := true;
      entries := entries[p := t.AsEntry()];
    }

    // The ticker arms the first timer; false means that it would wait for one.
    method Arm() returns (armed: bool)
      requires Valid()
      modifies this`entries, nodes
      ensures Valid() && armed == (nodes != []) && View() == TimerQueue.Arm(old(View()))
    {
      armed := first != null;
      if armed {
        first.inUse := true;
        entries := entries[0 := first.AsEntry()];
      }
    }

    // The ticker after its signal; the result is the timer whose handler it runs.
    method Expire(now: TimeVal) returns (fired: Option<int>)
      requires Valid()
      modifies this`first, this`last, this`nodes, this`entries, nodes
      ensures Valid() && forall n :: n in nodes ==> n in old(nodes)
      ensures View() == TimerQueue.Expire(old(View()), now).0
      ensures fired == match TimerQueue.Expire(old(View()), now).1 case None => None case Some(e) => Some(e.id)
    {
      if first == null {
        return None;
      }
      assert first.AsEntry() == entries[0];
      if first.cancelled {
        Remove(first, 0);
        return None;
      }
      if Less(now, first.timeout) {
        return None;
      }
      fired := Some(first.id);
      Remove(first, 0);
    }
  }

  lemma DropMatches(nodes: seq<Timer>, entries: seq<Entry>, p: nat)
    requires |nodes| == |entries| && p < |nodes| && forall i :: 0 <= i < |nodes| ==> nodes[i].AsEntry() == entries[i]
    ensures forall i :: 0 <= i < |nodes| - 1 ==> Drop(nodes, p)[i].AsEntry() == Drop(entries, p)[i]
  {
    DropAt(nodes, p);
    DropAt(entries, p);
  }

  lemma SpliceMatches(nodes: seq<Timer>, entries: seq<Entry>, p: nat, t: Timer)
    requires |nodes| == |entries| && p <= |nodes| && forall i :: 0 <= i < |nodes| ==> nodes[i].AsEntry() == entries[i]
    ensures forall i :: 0 <= i <= |nodes| ==> Splice(nodes, p, t)[i].AsEntry() == Splice(entries, p, t.AsEntry())[i]
    ensures forall n :: n in Splice(nodes, p, t) ==> n in nodes || n == t
  {
    SpliceAt(nodes, p, t);
    SpliceAt(entries, p, t.AsEntry());
  }

  lemma InsertCases(q: seq<Entry>, deadline: TimeVal, id: int)
    ensures var p, r, e := Position(q, deadline), Insert(q, deadline, id), Entry(deadline, id, false, false);
            && (p == |q| ==> r == q + [e])
            && (p == 0 < |q| ==> r == [e.(inUse := true), q[0].(inUse := false)] + q[1..])
            && (0 < p < |q| ==> r == Splice(q, p, e))
  { }

  lemma PositionIs(q: seq<Entry>, deadline: TimeVal, p: nat)
    requires p <= |q| && forall i :: 0 <= i < p ==> !Less(deadline, q[i].deadline)
    requires p < |q| ==> Less(deadline, q[p].deadline)
    ensures Position(q, deadline) == p
  { }

  lemma FindIdIs(q: seq<Entry>, id: int, p: nat)
    requires p <= |q| && forall i :: 0 <= i < p ==> q[i].id != id
    requires p < |q| ==> q[p].id == id
    ensures FindId(q, id) == p
  { }
}
