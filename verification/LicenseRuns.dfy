/** Licence conservation over whole runs, solvency of the active master, and its replica. */
module LicenseRuns {
  import opened Chassis
  import opened License

  datatype Op =
    | AssignOp(ty: int, num: int, local: bool, slot: nat, inst: nat)
    | FollowOp(fty: nat, num: int, local: bool, slot: nat, inst: nat)
    | SyncOp(sty: nat, num: int, req: Req, isActive: bool, isMaster: bool)
    | RemoveOp(slot: nat)
    | InsertOp(slot: nat, maxAp: int)
    | InstanceOp(slot: nat, k: nat, present: bool)

  // The indices the source uses without checking them.
  predicate InRange(t: Tables, op: Op) {
    match op
    case AssignOp(_, _, _, _, inst) => inst < MAX_INSTANCE
    case FollowOp(fty, _, _, slot, inst) => fty < |t.mgmt| && slot < MAX_SLOT_NUM && inst < MAX_INSTANCE
    case SyncOp(_, _, _, _, _) => true
    case RemoveOp(slot) => slot < MAX_SLOT_NUM
    case InsertOp(slot, _) => slot < MAX_SLOT_NUM
    case InstanceOp(slot, k, _) => slot < MAX_SLOT_NUM && k < BOARD_CELLS
  }

  ghost function Step(t: Tables, op: Op): Tables
    requires Shaped(t) && InRange(t, op)
  {
    match op
    case AssignOp(ty, num, local, slot, inst) => Assign(t, ty, num, local, slot, inst).0
    case FollowOp(fty, num, local, slot, inst) => Follow(t, fty, num, local, slot, inst)
    case SyncOp(sty, num, req, isActive, isMaster) => Synchronise(t, sty, num, req, isActive, isMaster)
    case RemoveOp(slot) => RemoveBoard(t, slot)
    case InsertOp(slot, maxAp) => InsertBoard(t, slot, maxAp)
    case InstanceOp(slot, k, present) => SetInstance(t, slot, k, present)
  }

  // t' is reached from t by the operations in turn.
  ghost predicate Reaches(t: Tables, ops: seq<Op>, t': Tables)
    decreases |ops|
  {
    if ops == [] then t' == t
    else Shaped(t) && InRange(t, ops[0]) && Reaches(Step(t, ops[0]), ops[1..], t')
  }

  lemma StepKeepsShape(t: Tables, op: Op)
    requires Shaped(t) && InRange(t, op)
    ensures Shaped(Step(t, op)) && |Step(t, op).mgmt| == |t.mgmt|
  { }

  lemma SettleInKeepsBalance(t: Tables, ty: nat, slot: nat, k: nat, num: int)
    requires Shaped(t) && ty < |t.mgmt| && slot < MAX_SLOT_NUM && k < BOARD_CELLS && t.boards[slot].Some?
    requires Balanced(t)
    ensures Balanced(SettleIn(t, ty, slot, k, num))
  {
    SettleKeepsBalance(t.mgmt[ty], Cell(slot, k), t.boards[slot].value.counts[ty][k], num);
  }

  lemma RemoveKeepsBalance(t: Tables, slot: nat)
    requires Shaped(t) && slot < MAX_SLOT_NUM && Balanced(t)
    ensures Balanced(RemoveBoard(t, slot))
  {
    if t.boards[slot].Some? {
      var insts := t.boards[slot].value.insts;
      forall i | 0 <= i < |t.mgmt|
        ensures BalancedMgmt(ReturnProfiles(t.mgmt[i], slot, insts, MAX_INSTANCE))
      {
        ReturnKeepsBalance(t.mgmt[i], slot, insts, MAX_INSTANCE);
      }
    }
  }

  lemma StepKeepsBalance(t: Tables, op: Op)
    requires Shaped(t) && InRange(t, op) && Balanced(t)
    ensures Balanced(Step(t, op))
  {
    match op
    case AssignOp(ty, num, local, slot, inst) =>
      if 0 < ty <= |t.mgmt| && slot < MAX_SLOT_NUM && t.boards[slot].Some? {
        SettleInKeepsBalance(t, ty - 1, slot, InBoard(local, inst), num);
      }
    case FollowOp(fty, num, local, slot, inst) =>
      if t.boards[slot].Some? {
        SettleInKeepsBalance(t, fty, slot, InBoard(local, inst), num);
      }
    case SyncOp(_, _, _, _, _) =>
    case RemoveOp(slot) => RemoveKeepsBalance(t, slot);
    case InsertOp(_, _) =>
    case InstanceOp(_, _, _) =>
  }

  // For every type the total is what is free plus everything that is given out.
  lemma {:induction false} EveryRunConserves(t: Tables, ops: seq<Op>, t': Tables)
    requires Shaped(t) && Balanced(t) && Reaches(t, ops, t')
    ensures Shaped(t') && Balanced(t')
    decreases |ops|
  {
    if ops != [] {
      StepKeepsShape(t, ops[0]);
      StepKeepsBalance(t, ops[0]);
      EveryRunConserves(Step(t, ops[0]), ops[1..], t');
    }
  }

  lemma InitialIsBalanced(totals: seq<int>, reqs: seq<Req>)
    requires |totals| == |reqs|
    ensures Shaped(Initial(totals, reqs)) && Balanced(Initial(totals, reqs))
  {
    SumZeros(CELLS);
  }

  // ---- the active master ----

  ghost predicate SolventMgmt(m: Mgmt) { m.free >= 0 && forall c :: 0 <= c < |m.given| ==> m.given[c] >= 0 }

  // A board holds at most what it was given.
  ghost predicate Covered(t: Tables, slot: nat, ty: nat, k: nat)
    requires Shaped(t) && slot < MAX_SLOT_NUM && ty < |t.mgmt| && k < BOARD_CELLS
  {
    t.boards[slot].Some? ==> 0 <= t.boards[slot].value.counts[ty][k] <= t.mgmt[ty].given[Cell(slot, k)]
  }

  ghost predicate Solvent(t: Tables)
    requires Shaped(t)
  {
    && (forall i :: 0 <= i < |t.mgmt| ==> SolventMgmt(t.mgmt[i]))
    && (forall slot: nat, ty: nat, k: nat :: slot < MAX_SLOT_NUM && ty < |t.mgmt| && k < BOARD_CELLS ==> Covered(t, slot, ty, k))
  }

  // What an active master does, with requests that are not negative.
  predicate ByActiveMaster(op: Op) {
    match op
    case AssignOp(_, num, _, _, _) => num >= 0
    case FollowOp(_, _, _, _, _) => false
    case SyncOp(_, num, _, isActive, _) => isActive && num >= 0
    case RemoveOp(_) => true
    case InsertOp(_, _) => true
    case InstanceOp(_, _, _) => true
  }

  lemma CellsDiffer(a: nat, j: nat, b: nat, k: nat)
    requires j < 34 && k < 34 && (a, j) != (b, k)
    ensures Cell(a, j) != Cell(b, k)
  { }

  lemma SettleStaysSolvent(m: Mgmt, cell: nat, count: int, num: int)
    requires cell < |m.given| && SolventMgmt(m) && 0 <= count <= m.given[cell] && num >= 0
    ensures SolventMgmt(Settle(m, cell, count, num))
    ensures 0 <= SettledCount(m, count, num) <= Settle(m, cell, count, num).given[cell]
    ensures forall c :: 0 <= c < |m.given| && c != cell ==> Settle(m, cell, count, num).given[c] == m.given[c]
  { }

  lemma SettleInStaysSolvent(t: Tables, ty: nat, slot: nat, k: nat, num: int)
    requires Shaped(t) && ty < |t.mgmt| && slot < MAX_SLOT_NUM && k < BOARD_CELLS && t.boards[slot].Some?
    requires Solvent(t) && num >= 0
    ensures Shaped(SettleIn(t, ty, slot, k, num)) && Solvent(SettleIn(t, ty, slot, k, num))
  {
    var t' := SettleIn(t, ty, slot, k, num);
    assert Covered(t, slot, ty, k);
    SettleStaysSolvent(t.mgmt[ty], Cell(slot, k), t.boards[slot].value.counts[ty][k], num);
    forall s: nat, u: nat, j: nat | s < MAX_SLOT_NUM && u < |t.mgmt| && j < BOARD_CELLS
      ensures Covered(t', s, u, j)
    {
      assert Covered(t, s, u, j);
      if (s, j) != (slot, k) {
        CellsDiffer(s, j, slot, k);
      }
    }
  }

  lemma {:induction false} ReturnStaysSolvent(m: Mgmt, slot: nat, insts: seq<bool>, p: nat)
    requires |m.given| == CELLS && slot < MAX_SLOT_NUM && |insts| == BOARD_CELLS && 1 <= p <= MAX_INSTANCE
    requires SolventMgmt(m)
    ensures SolventMgmt(ReturnProfiles(m, slot, insts, p))
  {
    if p > 1 {
      ReturnStaysSolvent(m, slot, insts, p - 1);
    }
  }

  // Which cells a removed board gives back.
  predicate GoesBack(k: nat, insts: seq<bool>, p: nat)
    requires k < |insts|
  {
    1 <= k % 17 < p && insts[k]
  }

  lemma {:induction false} ReturnClears(m: Mgmt, slot: nat, insts: seq<bool>, p: nat, s: nat, k: nat)
    requires |m.given| == CELLS && slot < MAX_SLOT_NUM && |insts| == BOARD_CELLS && 1 <= p <= MAX_INSTANCE
    requires s < MAX_SLOT_NUM && k < BOARD_CELLS
    ensures ReturnProfiles(m, slot, insts, p).given[Cell(s, k)] ==
            if s == slot && GoesBack(k, insts, p) then 0 else m.given[Cell(s, k)]
  {
    if p > 1 {
      ReturnClears(m, slot, insts, p - 1, s, k);
      if (s, k) != (slot, p - 1) {
        CellsDiffer(s, k, slot, p - 1);
      }
      if (s, k) != (slot, 17 + (p - 1)) {
        CellsDiffer(s, k, slot, 17 + (p - 1));
      }
    }
  }

  lemma RemoveStaysSolvent(t: Tables, slot: nat)
    requires Shaped(t) && slot < MAX_SLOT_NUM && Solvent(t)
    ensures Shaped(RemoveBoard(t, slot)) && Solvent(RemoveBoard(t, slot))
  {
    if t.boards[slot].Some? {
      var t', insts := RemoveBoard(t, slot), t.boards[slot].value.insts;
      forall i | 0 <= i < |t.mgmt|
        ensures SolventMgmt(t'.mgmt[i])
      {
        ReturnStaysSolvent(t.mgmt[i], slot, insts, MAX_INSTANCE);
      }
      forall s: nat, u: nat, j: nat | s < MAX_SLOT_NUM && u < |t.mgmt| && j < BOARD_CELLS
        ensures Covered(t', s, u, j)
      {
        assert Covered(t, s, u, j);
        ReturnClears(t.mgmt[u], slot, insts, MAX_INSTANCE, s, j);
      }
    }
  }

  lemma InsertStaysSolvent(t: Tables, slot: nat, maxAp: int)
    requires Shaped(t) && slot < MAX_SLOT_NUM && Solvent(t)
    ensures Shaped(InsertBoard(t, slot, maxAp)) && Solvent(InsertBoard(t, slot, maxAp))
  {
    var t' := InsertBoard(t, slot, maxAp);
    forall s: nat, u: nat, j: nat | s < MAX_SLOT_NUM && u < |t.mgmt| && j < BOARD_CELLS
      ensures Covered(t', s, u, j)
    {
      assert Covered(t, s, u, j);
    }
  }

  lemma InstanceStaysSolvent(t: Tables, slot: nat, k: nat, present: bool)
    requires Shaped(t) && slot < MAX_SLOT_NUM && k < BOARD_CELLS && Solvent(t)
    ensures Shaped(SetInstance(t, slot, k, present)) && Solvent(SetInstance(t, slot, k, present))
  {
    var t' := SetInstance(t, slot, k, present);
    forall s: nat, u: nat, j: nat | s < MAX_SLOT_NUM && u < |t.mgmt| && j < BOARD_CELLS
      ensures Covered(t', s, u, j)
    {
      assert Covered(t, s, u, j);
    }
  }

  lemma SyncStaysSolvent(t: Tables, ty: nat, num: int, req: Req, isMaster: bool)
    requires Shaped(t) && Solvent(t) && num >= 0
    ensures Shaped(Synchronise(t, ty, num, req, true, isMaster)) && Solvent(Synchronise(t, ty, num, req, true, isMaster))
  {
    var t' := Synchronise(t, ty, num, req, true, isMaster);
    forall s: nat, u: nat, j: nat | s < MAX_SLOT_NUM && u < |t.mgmt| && j < BOARD_CELLS
      ensures Covered(t', s, u, j)
    {
      assert Covered(t, s, u, j);
    }
  }

  lemma StepStaysSolvent(t: Tables, op: Op)
    requires Shaped(t) && InRange(t, op) && ByActiveMaster(op) && Solvent(t)
    ensures Shaped(Step(t, op)) && Solvent(Step(t, op))
  {
    match op
    case AssignOp(ty, num, local, slot, inst) =>
      if 0 < ty <= |t.mgmt| && slot < MAX_SLOT_NUM && t.boards[slot].Some? {
        SettleInStaysSolvent(t, ty - 1, slot, InBoard(local, inst), num);
      }
    case SyncOp(sty, num, req, _, isMaster) => SyncStaysSolvent(t, sty, num, req, isMaster);
    case RemoveOp(slot) => RemoveStaysSolvent(t, slot);
    case InsertOp(slot, maxAp) => InsertStaysSolvent(t, slot, maxAp);
    case InstanceOp(slot, k, present) => InstanceStaysSolvent(t, slot, k, present);
  }

  // An active master never lends more than it has, nor does a board hold more than it was given.
  lemma {:induction false} EveryActiveRunIsSolvent(t: Tables, ops: seq<Op>, t': Tables)
    requires Shaped(t) && Solvent(t) && Reaches(t, ops, t')
    requires forall i :: 0 <= i < |ops| ==> ByActiveMaster(ops[i])
    ensures Shaped(t') && Solvent(t')
    decreases |ops|
  {
    if ops != [] {
      StepStaysSolvent(t, ops[0]);
      EveryActiveRunIsSolvent(Step(t, ops[0]), ops[1..], t');
    }
  }

  lemma InitialIsSolvent(totals: seq<int>, reqs: seq<Req>)
    requires |totals| == |reqs| && forall i :: 0 <= i < |totals| ==> totals[i] >= 0
    ensures Shaped(Initial(totals, reqs)) && Solvent(Initial(totals, reqs))
  { }

  // A removed board gives back all of its licences exactly when every cell that holds some
  // belongs to an existing instance other than number 0; the rest stays given out.
  lemma RemovalReturnsAllExactly(m: Mgmt, slot: nat, insts: seq<bool>)
    requires |m.given| == CELLS && slot < MAX_SLOT_NUM && |insts| == BOARD_CELLS
    ensures (forall k: nat :: k < BOARD_CELLS ==> ReturnProfiles(m, slot, insts, MAX_INSTANCE).given[Cell(slot, k)] == 0)
            <==> (forall k: nat :: k < BOARD_CELLS ==> m.given[Cell(slot, k)] == 0 || (k % 17 != 0 && insts[k]))
  {
    var r := ReturnProfiles(m, slot, insts, MAX_INSTANCE);
    forall k: nat | k < BOARD_CELLS
      ensures r.given[Cell(slot, k)] == if k % 17 != 0 && insts[k] then 0 else m.given[Cell(slot, k)]
    {
      ReturnClears(m, slot, insts, MAX_INSTANCE, slot, k);
    }
  }

  // ---- the replica on the backup ----

  // The master settles a cell at num and sends what the cell was given; the backup settles
  // its own cell at that number. From equal tables both end equal exactly when the board
  // count equals what was given, or nothing changed and the pool cannot cover the gap.
  lemma FollowerMatchesExactly(m: Mgmt, cell: nat, count: int, num: int)
    requires cell < |m.given|
    ensures var sent := Settle(m, cell, count, num).given[cell];
            (&& Settle(m, cell, count, sent) == Settle(m, cell, count, num)
             && SettledCount(m, count, sent) == SettledCount(m, count, num))
            <==> (|| count == m.given[cell]
                  || ((count == num || Refuses(m, count, num)) && Refuses(m, count, m.given[cell])))
  {
    var m1 := Settle(m, cell, count, num);
    var m2 := Settle(m, cell, count, m1.given[cell]);
    assert m1.given[cell] == if Refuses(m, count, num) then m.given[cell] else m.given[cell] + (num - count);
    assert num == count ==> m1 == m;
    assert m.given[cell] == count ==> m.given[cell := count] == m.given;
  }

  // Free, given and board counts agree (limits and instance records may differ).
  ghost predicate SameTables(t: Tables, u: Tables) {
    && |t.mgmt| == |u.mgmt| && |t.boards| == |u.boards|
    && (forall i :: 0 <= i < |t.mgmt| ==> t.mgmt[i].free == u.mgmt[i].free && t.mgmt[i].given == u.mgmt[i].given)
    && (forall s :: 0 <= s < |t.boards| ==> (t.boards[s].Some? <==> u.boards[s].Some?))
    && (forall s :: 0 <= s < |t.boards| && t.boards[s].Some? ==> t.boards[s].value.counts == u.boards[s].value.counts)
  }

  // Every present board holds exactly what it was given.
  ghost predicate Held(t: Tables, slot: nat, ty: nat, k: nat)
    requires Shaped(t) && slot < MAX_SLOT_NUM && ty < |t.mgmt| && k < BOARD_CELLS
  {
    t.boards[slot].Some? ==> t.boards[slot].value.counts[ty][k] == t.mgmt[ty].given[Cell(slot, k)]
  }

  ghost predicate AllHeld(t: Tables)
    requires Shaped(t)
  {
    forall slot: nat, ty: nat, k: nat :: slot < MAX_SLOT_NUM && ty < |t.mgmt| && k < BOARD_CELLS ==> Held(t, slot, ty, k)
  }

  datatype Request = Request(ty: int, num: int, local: bool, slot: nat, inst: nat)

  // Whether the handler gets as far as telling the backup.
  predicate Tells(t: Tables, q: Request, backup: nat)
    requires |t.boards| == MAX_SLOT_NUM
  {
    && 0 < q.ty <= |t.mgmt| && q.slot < MAX_SLOT_NUM && t.boards[q.slot].Some?
    && q.num <= t.boards[q.slot].value.maxAp
    && backup != 0 && backup != q.slot
  }

  ghost function Told(t: Tables, u: Tables, q: Request, backup: nat): Tables
    requires Shaped(t) && Shaped(u) && |t.mgmt| == |u.mgmt| && q.inst < MAX_INSTANCE
  {
    if Tells(t, q, backup) then
      var t' := Assign(t, q.ty, q.num, q.local, q.slot, q.inst).0;
      Follow(u, q.ty - 1, t'.mgmt[q.ty - 1].given[Cell(q.slot, InBoard(q.local, q.inst))], q.local, q.slot, q.inst)
    else u
  }

  lemma SettleInKeepsHeld(t: Tables, ty: nat, slot: nat, k: nat, num: int)
    requires Shaped(t) && ty < |t.mgmt| && slot < MAX_SLOT_NUM && k < BOARD_CELLS && t.boards[slot].Some?
    requires AllHeld(t)
    ensures Shaped(SettleIn(t, ty, slot, k, num)) && AllHeld(SettleIn(t, ty, slot, k, num))
  {
    var t' := SettleIn(t, ty, slot, k, num);
    assert Held(t, slot, ty, k);
    forall s: nat, u: nat, j: nat | s < MAX_SLOT_NUM && u < |t.mgmt| && j < BOARD_CELLS
      ensures Held(t', s, u, j)
    {
      assert Held(t, s, u, j);
      if (s, j) != (slot, k) {
        CellsDiffer(s, j, slot, k);
      }
    }
  }

  // A master that sends what it gave, and a backup that settles at that, stay equal.
  lemma SettleInKeepsSame(t: Tables, u: Tables, ty: nat, slot: nat, k: nat, num: int)
    requires Shaped(t) && Shaped(u) && SameTables(t, u)
    requires ty < |t.mgmt| && slot < MAX_SLOT_NUM && k < BOARD_CELLS && t.boards[slot].Some? && Held(t, slot, ty, k)
    ensures var t' := SettleIn(t, ty, slot, k, num);
            SameTables(t', SettleIn(u, ty, slot, k, t'.mgmt[ty].given[Cell(slot, k)]))
  {
    var m, n, c := t.mgmt[ty], u.mgmt[ty], Cell(slot, k);
    var count := t.boards[slot].value.counts[ty][k];
    FollowerMatchesExactly(m, c, count, num);
    var sent := Settle(m, c, count, num).given[c];
    assert Settle(n, c, count, sent).free == Settle(m, c, count, num).free;
    assert Settle(n, c, count, sent).given == Settle(m, c, count, num).given;
    assert SettledCount(n, count, sent) == SettledCount(m, count, num);
  }

  // One assignment, successful or refused, keeps the replica equal.
  lemma AssignKeepsReplica(t: Tables, u: Tables, q: Request, backup: nat)
    requires Shaped(t) && Shaped(u) && SameTables(t, u) && AllHeld(t)
    requires q.inst < MAX_INSTANCE && backup != 0 && q.slot != backup
    ensures var t' := Assign(t, q.ty, q.num, q.local, q.slot, q.inst).0; var u' := Told(t, u, q, backup);
            Shaped(t') && Shaped(u') && SameTables(t', u') && AllHeld(t')
  {
    if Tells(t, q, backup) {
      var ty, k := q.ty - 1, InBoard(q.local, q.inst);
      assert Held(t, q.slot, ty, k);
      SettleInKeepsHeld(t, ty, q.slot, k, q.num);
      SettleInKeepsSame(t, u, ty, q.slot, k, q.num);
      StepKeepsShape(u, FollowOp(ty, SettleIn(t, ty, q.slot, k, q.num).mgmt[ty].given[Cell(q.slot, k)], q.local, q.slot, q.inst));
    }
  }

  ghost predicate BothReach(t: Tables, u: Tables, qs: seq<Request>, backup: nat, t': Tables, u': Tables)
    decreases |qs|
  {
    if qs == [] then t' == t && u' == u
    else
      && Shaped(t) && Shaped(u) && |t.mgmt| == |u.mgmt| && qs[0].inst < MAX_INSTANCE
      && BothReach(Assign(t, qs[0].ty, qs[0].num, qs[0].local, qs[0].slot, qs[0].inst).0,
                   Told(t, u, qs[0], backup), qs[1..], backup, t', u')
  }

  // After any sequence of assignments to other slots, backup and master agree.
  lemma {:induction false} ReplicaAgrees(t: Tables, u: Tables, qs: seq<Request>, backup: nat, t': Tables, u': Tables)
    requires Shaped(t) && Shaped(u) && SameTables(t, u) && AllHeld(t)
    requires backup != 0 && forall i :: 0 <= i < |qs| ==> qs[i].slot != backup
    requires BothReach(t, u, qs, backup, t', u')
    ensures SameTables(t', u')
    decreases |qs|
  {
    if qs != [] {
      AssignKeepsReplica(t, u, qs[0], backup);
      var t1, u1 := Assign(t, qs[0].ty, qs[0].num, qs[0].local, qs[0].slot, qs[0].inst).0, Told(t, u, qs[0], backup);
      ReplicaAgrees(t1, u1, qs[1..], backup, t', u');
    }
  }
}
