/** What each licence handler does to the tables, instance by instance, and what it replies. */
module LicenseSteps {
  import opened Options
  import opened Chassis
  import opened License
  import opened LicenseRuns

  // Remote and local instances have cells of their own.
  lemma CellsOfInstances(l: bool, i: nat, m: bool, j: nat)
    requires i < MAX_INSTANCE && j < MAX_INSTANCE
    ensures InBoard(l, i) == InBoard(m, j) <==> l == m && i == j
    ensures InBoard(l, i) < BOARD_CELLS
  { }

  // An instance of a slot, local or remote
  datatype Who = Who(slot: nat, local: bool, inst: nat)

  predicate Named(v: Who) { v.slot < MAX_SLOT_NUM && v.inst < MAX_INSTANCE }

  // What the pool has lent to an instance, and the count its board keeps
  ghost function Lent(t: Tables, ty: nat, v: Who): int
    requires Shaped(t) && ty < |t.mgmt| && Named(v)
  {
    t.mgmt[ty].given[Cell(v.slot, InBoard(v.local, v.inst))]
  }

  ghost function Count(t: Tables, ty: nat, v: Who): int
    requires Shaped(t) && ty < |t.mgmt| && Named(v) && t.boards[v.slot].Some?
  {
    t.boards[v.slot].value.counts[ty][InBoard(v.local, v.inst)]
  }

  lemma CellsOfWho(v: Who, w: Who)
    requires Named(v) && Named(w)
    ensures Cell(v.slot, InBoard(v.local, v.inst)) == Cell(w.slot, InBoard(w.local, w.inst)) <==> v == w
    ensures Cell(v.slot, InBoard(v.local, v.inst)) < CELLS
  {
    CellsOfInstances(v.local, v.inst, w.local, w.inst);
    if v.slot != w.slot || InBoard(v.local, v.inst) != InBoard(w.local, w.inst) {
      CellsDiffer(v.slot, InBoard(v.local, v.inst), w.slot, InBoard(w.local, w.inst));
    }
  }

  // ---- assignment ----

  // The instance has as many already, or what is missing is free.
  ghost predicate Affordable(t: Tables, ty: nat, v: Who, num: int)
    requires Shaped(t) && ty < |t.mgmt| && Named(v) && t.boards[v.slot].Some?
  {
    num <= Count(t, ty, v) || num - Count(t, ty, v) <= t.mgmt[ty].free
  }

  // The boards and the rest of the pool records are as they were.
  ghost predicate SameFrame(t: Tables, u: Tables)
    requires Shaped(t) && Shaped(u)
  {
    && |u.mgmt| == |t.mgmt|
    && (forall i :: 0 <= i < |t.mgmt| ==> u.mgmt[i].(free := 0, given := []) == t.mgmt[i].(free := 0, given := []))
    && (forall s :: 0 <= s < MAX_SLOT_NUM ==> u.boards[s].Some? == t.boards[s].Some?)
    && (forall s :: 0 <= s < MAX_SLOT_NUM && t.boards[s].Some? ==>
          u.boards[s].value.(counts := []) == t.boards[s].value.(counts := []))
  }

  // That instance has num of that type now; the pool lent or took back the difference; no
  // other instance and no other type is touched.
  ghost predicate Granted(t: Tables, u: Tables, ty: nat, w: Who, num: int)
    requires Shaped(t) && Shaped(u) && |u.mgmt| == |t.mgmt| && ty < |t.mgmt| && Named(w) && t.boards[w.slot].Some?
  {
    var more := num - Count(t, ty, w);
    && SameFrame(t, u)
    && (forall i :: 0 <= i < |t.mgmt| ==> u.mgmt[i].free == t.mgmt[i].free - if i == ty then more else 0)
    && (forall i: nat, v: Who :: i < |t.mgmt| && Named(v) ==>
          Lent(u, i, v) == Lent(t, i, v) + if i == ty && v == w then more else 0)
    && (forall i: nat, v: Who :: i < |t.mgmt| && Named(v) && t.boards[v.slot].Some? ==>
          Count(u, i, v) == if i == ty && v == w then num else Count(t, i, v))
  }

  lemma SettleInGrants(t: Tables, ty: nat, w: Who, num: int)
    requires Shaped(t) && ty < |t.mgmt| && Named(w) && t.boards[w.slot].Some? && Affordable(t, ty, w, num)
    ensures var u := SettleIn(t, ty, w.slot, InBoard(w.local, w.inst), num);
            Shaped(u) && |u.mgmt| == |t.mgmt| && Granted(t, u, ty, w, num)
  {
    var u := SettleIn(t, ty, w.slot, InBoard(w.local, w.inst), num);
    forall i: nat, v: Who | i < |t.mgmt| && Named(v)
      ensures Lent(u, i, v) == Lent(t, i, v) + if i == ty && v == w then num - Count(t, ty, w) else 0
    {
      CellsOfWho(v, w);
    }
    forall i: nat, v: Who | i < |t.mgmt| && Named(v) && t.boards[v.slot].Some?
      ensures Count(u, i, v) == if i == ty && v == w then num else Count(t, i, v)
    {
      CellsOfInstances(v.local, v.inst, w.local, w.inst);
    }
  }

  lemma SettleInRefuses(t: Tables, ty: nat, w: Who, num: int)
    requires Shaped(t) && ty < |t.mgmt| && Named(w) && t.boards[w.slot].Some? && !Affordable(t, ty, w, num)
    ensures SettleIn(t, ty, w.slot, InBoard(w.local, w.inst), num) == t
  {
    var b, k := t.boards[w.slot].value, InBoard(w.local, w.inst);
    assert b.counts[ty][k := b.counts[ty][k]] == b.counts[ty] && b.counts[ty := b.counts[ty]] == b.counts;
    assert t.mgmt[ty := t.mgmt[ty]] == t.mgmt && t.boards[w.slot := Some(b)] == t.boards;
  }

  // The reply of the assignment, and what it does: the grant on success, else nothing.
  lemma AssignDecides(t: Tables, ty: int, num: int, w: Who)
    requires Shaped(t) && w.inst < MAX_INSTANCE
    ensures var (u, code) := Assign(t, ty, num, w.local, w.slot, w.inst);
            var typed, boarded := 0 < ty <= |t.mgmt|, w.slot < MAX_SLOT_NUM && t.boards[w.slot].Some?;
            && (code == NoType <==> !typed)
            && (code == NoSlot <==> typed && !boarded)
            && (code == TooMany <==> typed && boarded && num > t.boards[w.slot].value.maxAp)
            && (code == Success <==>
                  typed && boarded && num <= t.boards[w.slot].value.maxAp && Affordable(t, ty - 1, w, num))
            && (code == Success ==> Shaped(u) && |u.mgmt| == |t.mgmt| && Granted(t, u, ty - 1, w, num))
            && (code != Success ==> u == t)
  {
    if 0 < ty <= |t.mgmt| && w.slot < MAX_SLOT_NUM && t.boards[w.slot].Some? {
      CellsOfInstances(w.local, w.inst, w.local, w.inst);
      if Affordable(t, ty - 1, w, num) {
        SettleInGrants(t, ty - 1, w, num);
      } else {
        SettleInRefuses(t, ty - 1, w, num);
      }
    }
  }

  // The backup does the same with the number it is sent.
  lemma FollowDecides(t: Tables, ty: nat, num: int, w: Who)
    requires Shaped(t) && ty < |t.mgmt| && Named(w)
    ensures var u := Follow(t, ty, num, w.local, w.slot, w.inst);
            if t.boards[w.slot].Some? && Affordable(t, ty, w, num)
            then Shaped(u) && |u.mgmt| == |t.mgmt| && Granted(t, u, ty, w, num) else u == t
  {
    if t.boards[w.slot].Some? {
      CellsOfInstances(w.local, w.inst, w.local, w.inst);
      if Affordable(t, ty, w, num) {
        SettleInGrants(t, ty, w, num);
      } else {
        SettleInRefuses(t, ty, w, num);
      }
    }
  }

  // ---- boards ----

  // Of every type, exactly the existing instances other than number 0 give back all they have.
  lemma RemoveBoardDecides(t: Tables, slot: nat, ty: nat, v: Who)
    requires Shaped(t) && slot < MAX_SLOT_NUM && t.boards[slot].Some? && ty < |t.mgmt| && Named(v)
    ensures var u := RemoveBoard(t, slot);
            && Shaped(u) && |u.mgmt| == |t.mgmt| && u.boards == t.boards[slot := None]
            && Lent(u, ty, v) == if v.slot == slot && v.inst != 0 && t.boards[slot].value.insts[InBoard(v.local, v.inst)]
                                 then 0 else Lent(t, ty, v)
  {
    StepKeepsShape(t, RemoveOp(slot));
    CellsOfInstances(v.local, v.inst, v.local, v.inst);
    ReturnClears(t.mgmt[ty], slot, t.boards[slot].value.insts, MAX_INSTANCE, v.slot, InBoard(v.local, v.inst));
  }

  // A new board starts with no licences and no instances; an old one stays as it is.
  lemma InsertBoardDecides(t: Tables, slot: nat, maxAp: int)
    requires Shaped(t) && slot < MAX_SLOT_NUM
    ensures var u := InsertBoard(t, slot, maxAp);
            && Shaped(u) && u.mgmt == t.mgmt && u.boards == t.boards[slot := u.boards[slot]] && u.boards[slot].Some?
            && (t.boards[slot].Some? ==> u == t)
            && (t.boards[slot].None? ==>
                  && u.boards[slot].value.maxAp == maxAp
                  && (forall k :: 0 <= k < BOARD_CELLS ==> !u.boards[slot].value.insts[k])
                  && (forall ty: nat, v: Who :: ty < |t.mgmt| && Named(v) && v.slot == slot ==> Count(u, ty, v) == 0))
  { }

  // ---- synchronisation ----

  predicate Known(m: Mgmt, req: Req) { m.licreq == req || m.licreq2 == req }

  // What is lent out never changes; an active master adds the licences of a request that is
  // neither its own nor the last one, once; an inactive one takes over the total.
  lemma SynchroniseDecides(m: Mgmt, num: int, req: Req, isActive: bool, isMaster: bool)
    ensures var u := Synchronised(m, num, req, isActive, isMaster);
            && u.given == m.given && u.licreq == m.licreq && u.total - u.free == m.total - m.free
            && u.total == (if isActive then (if Known(m, req) then m.total else m.total + num)
                           else if isMaster then num else m.total)
            && (isActive || isMaster ==> Known(u, req))
            && (isActive ==> Synchronised(u, num, req, isActive, isMaster) == u)
            && (!isActive && isMaster ==> Synchronised(u, num, req, isActive, isMaster) == u)
  { }

  // Only the record of that type is synchronised, if there is one.
  lemma SynchroniseTouches(t: Tables, ty: nat, num: int, req: Req, isActive: bool, isMaster: bool)
    ensures var u := Synchronise(t, ty, num, req, isActive, isMaster);
            && u.boards == t.boards && |u.mgmt| == |t.mgmt|
            && (forall i :: 0 <= i < |t.mgmt| && i != ty ==> u.mgmt[i] == t.mgmt[i])
            && (ty < |t.mgmt| ==> u.mgmt[ty] == Synchronised(t.mgmt[ty], num, req, isActive, isMaster))
  { }

  // Only one foreign request is remembered: the first of two is counted again when it comes
  // back exactly if the other one was new.
  lemma ReturningRequestCountsAgainExactly(m: Mgmt, a: Req, n: int, b: Req, k: int, isMaster: bool)
    requires !Known(m, a) && n != 0
    ensures var m1 := Synchronised(m, n, a, true, isMaster);
            var m2 := Synchronised(m1, k, b, true, isMaster);
            Synchronised(m2, n, a, true, isMaster).total == m2.total + n <==> b != a && b != m.licreq
  { }
}
