/** Runs in which licences are lost to a removed board and the replica comes apart. */
module LicenseFailures {
  import opened Options
  import opened Chassis
  import opened License
  import opened LicenseRuns

  lemma {:induction false} ReachesNext(t: Tables, ops: seq<Op>, t1: Tables, op: Op)
    requires Shaped(t) && Reaches(t, ops, t1) && InRange(t1, op)
    ensures Shaped(t1) && Reaches(t, ops + [op], Step(t1, op))
    decreases |ops|
  {
    var all := ops + [op];
    if ops == [] {
      assert all[0] == op && all[1..] == [];
    } else {
      StepKeepsShape(t, ops[0]);
      ReachesNext(Step(t, ops[0]), ops[1..], t1, op);
      assert all[0] == ops[0] && all[1..] == ops[1..] + [op];
    }
  }

  // One licence type, and one request for a cell of one slot
  datatype Case = Case(total: int, req: Req, maxAp: int, q: Request)

  predicate Fits(c: Case) {
    && c.q.ty == 1 && c.q.slot < MAX_SLOT_NUM && c.q.inst < MAX_INSTANCE
    && 0 < c.q.num <= c.maxAp && c.q.num <= c.total
  }

  function Start(c: Case): Tables { Initial([c.total], [c.req]) }

  function Plugged(c: Case): Op { InsertOp(c.q.slot, c.maxAp) }
  function Assigned(q: Request): Op { AssignOp(q.ty, q.num, q.local, q.slot, q.inst) }
  function Followed(q: Request): Op { FollowOp(0, q.num, q.local, q.slot, q.inst) }

  // The pool has lent num to the cell and holds the rest.
  ghost predicate Stranded(t: Tables, c: Case) {
    && Fits(c) && Shaped(t) && |t.mgmt| == 9
    && t.mgmt[0].given[Cell(c.q.slot, InBoard(c.q.local, c.q.inst))] == c.q.num && t.mgmt[0].free == c.total - c.q.num
  }

  // A board is inserted and gets licences for a cell.
  lemma Granted(c: Case) returns (t: Tables)
    requires Fits(c)
    ensures Reaches(Start(c), [Plugged(c), Assigned(c.q)], t) && Reaches(Start(c), [Plugged(c), Followed(c.q)], t)
    ensures Stranded(t, c) && t.boards[c.q.slot].Some?
    ensures t.boards[c.q.slot].value.insts == seq(BOARD_CELLS, _ => false)
  {
    var t0 := Start(c);
    InitialIsBalanced([c.total], [c.req]);
    var t1 := Step(t0, Plugged(c));
    assert Reaches(t0, [], t0);
    ReachesNext(t0, [], t0, Plugged(c));
    assert [] + [Plugged(c)] == [Plugged(c)];
    t := Step(t1, Assigned(c.q));
    assert t == Step(t1, Followed(c.q));
    ReachesNext(t0, [Plugged(c)], t1, Assigned(c.q));
    ReachesNext(t0, [Plugged(c)], t1, Followed(c.q));
    assert [Plugged(c)] + [Assigned(c.q)] == [Plugged(c), Assigned(c.q)];
    assert [Plugged(c)] + [Followed(c.q)] == [Plugged(c), Followed(c.q)];
    StepKeepsShape(t1, Assigned(c.q));
  }

  // No instance was created, so the removed board gives nothing back.
  lemma RemovalStrands(t: Tables, c: Case)
    requires Fits(c) && Stranded(t, c) && t.boards[c.q.slot].Some?
    requires t.boards[c.q.slot].value.insts == seq(BOARD_CELLS, _ => false)
    ensures Stranded(RemoveBoard(t, c.q.slot), c) && RemoveBoard(t, c.q.slot).boards[c.q.slot].None?
  {
    var insts := t.boards[c.q.slot].value.insts;
    NothingReturned(t.mgmt[0], c.q.slot, insts, MAX_INSTANCE);
    StepKeepsShape(t, RemoveOp(c.q.slot));
  }

  lemma {:induction false} NothingReturned(m: Mgmt, slot: nat, insts: seq<bool>, p: nat)
    requires |m.given| == CELLS && slot < MAX_SLOT_NUM && |insts| == BOARD_CELLS && 1 <= p <= MAX_INSTANCE
    requires forall k :: 0 <= k < BOARD_CELLS ==> !insts[k]
    ensures ReturnProfiles(m, slot, insts, p) == m
  {
    if p > 1 { NothingReturned(m, slot, insts, p - 1); }
  }

  // For every such request there is a run after which no board has the licences and no pool.
  lemma LicencesAreStranded(c: Case) returns (t: Tables)
    requires Fits(c)
    ensures Reaches(Start(c), [Plugged(c), Assigned(c.q), RemoveOp(c.q.slot)], t)
    ensures Reaches(Start(c), [Plugged(c), Followed(c.q), RemoveOp(c.q.slot)], t)
    ensures Stranded(t, c) && t.boards[c.q.slot].None?
  {
    var t2 := Granted(c);
    RemovalStrands(t2, c);
    t := Step(t2, RemoveOp(c.q.slot));
    InitialIsBalanced([c.total], [c.req]);
    ReachesNext(Start(c), [Plugged(c), Assigned(c.q)], t2, RemoveOp(c.q.slot));
    ReachesNext(Start(c), [Plugged(c), Followed(c.q)], t2, RemoveOp(c.q.slot));
    assert [Plugged(c), Assigned(c.q)] + [RemoveOp(c.q.slot)] == [Plugged(c), Assigned(c.q), RemoveOp(c.q.slot)];
    assert [Plugged(c), Followed(c.q)] + [RemoveOp(c.q.slot)] == [Plugged(c), Followed(c.q), RemoveOp(c.q.slot)];
  }

  // The board comes back: master and backup still agree, and the next request for the cell
  // that the pool can meet parts them.
  lemma ReplicaDiverges(c: Case, num: int, backup: nat) returns (t: Tables)
    requires Fits(c) && 0 < num <= c.maxAp && num <= c.total - c.q.num && backup != 0 && backup != c.q.slot
    ensures Reaches(Start(c), [Plugged(c), Assigned(c.q), RemoveOp(c.q.slot), Plugged(c)], t)
    ensures Reaches(Start(c), [Plugged(c), Followed(c.q), RemoveOp(c.q.slot), Plugged(c)], t)
    ensures Shaped(t) && var q := c.q.(num := num);
            !SameTables(Assign(t, 1, num, q.local, q.slot, q.inst).0, Told(t, t, q, backup))
  {
    var t3 := LicencesAreStranded(c);
    t := Step(t3, Plugged(c));
    InitialIsBalanced([c.total], [c.req]);
    ReachesNext(Start(c), [Plugged(c), Assigned(c.q), RemoveOp(c.q.slot)], t3, Plugged(c));
    ReachesNext(Start(c), [Plugged(c), Followed(c.q), RemoveOp(c.q.slot)], t3, Plugged(c));
    assert [Plugged(c), Assigned(c.q), RemoveOp(c.q.slot)] + [Plugged(c)] == [Plugged(c), Assigned(c.q), RemoveOp(c.q.slot), Plugged(c)];
    assert [Plugged(c), Followed(c.q), RemoveOp(c.q.slot)] + [Plugged(c)] == [Plugged(c), Followed(c.q), RemoveOp(c.q.slot), Plugged(c)];
    StepKeepsShape(t3, Plugged(c));
    ReassignmentParts(t, c, num, backup);
  }

  lemma ReassignmentParts(t: Tables, c: Case, num: int, backup: nat)
    requires Fits(c) && 0 < num <= c.maxAp && num <= c.total - c.q.num && backup != 0 && backup != c.q.slot
    requires Stranded(t, c) && t.boards[c.q.slot] == Some(EmptyBoard(9, c.maxAp))
    ensures var q := c.q.(num := num);
            !SameTables(Assign(t, 1, num, q.local, q.slot, q.inst).0, Told(t, t, q, backup))
  {
    var k := InBoard(c.q.local, c.q.inst);
    FollowerMatchesExactly(t.mgmt[0], Cell(c.q.slot, k), 0, num);
  }
}
