/**
  The licence pool: for every licence type a total, what is free, and what is given to
  every (slot, local or remote, instance) cell; and beside it what each present board
  believes it holds.
*/
module License {
  import opened Options
  import opened Chassis

  const MAX_INSTANCE: nat := 17
  // Cells of one board: remote instances 0..16, then local instances 0..16.
  const BOARD_CELLS: nat := 34
  const CELLS: nat := 544

  type Req = seq<char>

  datatype Mgmt = Mgmt(total: int, free: int, given: seq<int>, licreq: Req, licreq2: Req)

  // counts[type][cell] is L_LicenseNum / R_LicenseNum; insts says which instances exist.
  datatype Board = Board(maxAp: int, counts: seq<seq<int>>, insts: seq<bool>)

  datatype Tables = Tables(mgmt: seq<Mgmt>, boards: seq<Option<Board>>)

  datatype Code = Success | NotEnough | TooMany | NoSlot | NoType

  function InBoard(local: bool, inst: nat): nat { (if local then 17 else 0) + inst }
  function Cell(slot: nat, k: nat): nat { slot * 34 + k }

  // ---- the operations ----

  // The common part of assigning and of following an assignment: bring a cell to num.
  function Settle(m: Mgmt, cell: nat, count: int, num: int): Mgmt
    requires cell < |m.given|
  {
    if count < num && m.free < num - count then m
    else m.(free := m.free - (num - count), given := m.given[cell := m.given[cell] + (num - count)])
  }

  predicate Refuses(m: Mgmt, count: int, num: int) { count < num && m.free < num - count }

  function SettledCount(m: Mgmt, count: int, num: int): int { if Refuses(m, count, num) then count else num }

  ghost predicate BoardShaped(b: Board, types: nat) {
    && |b.counts| == types && |b.insts| == BOARD_CELLS
    && forall t :: 0 <= t < types ==> |b.counts[t]| == BOARD_CELLS
  }

  ghost predicate Shaped(t: Tables) {
    && |t.boards| == MAX_SLOT_NUM
    && (forall i :: 0 <= i < |t.mgmt| ==> |t.mgmt[i].given| == CELLS)
    && (forall s :: 0 <= s < |t.boards| && t.boards[s].Some? ==> BoardShaped(t.boards[s].value, |t.mgmt|))
  }

  function SetCount(b: Board, ty: nat, k: nat, v: int): Board
    requires ty < |b.counts| && k < |b.counts[ty]|
  {
    b.(counts := b.counts[ty := b.counts[ty][k := v]])
  }

  function SettleIn(t: Tables, ty: nat, slot: nat, k: nat, num: int): Tables
    requires Shaped(t) && ty < |t.mgmt| && slot < MAX_SLOT_NUM && k < BOARD_CELLS && t.boards[slot].Some?
  {
    var b, m := t.boards[slot].value, t.mgmt[ty];
    var c := b.counts[ty][k];
    Tables(t.mgmt[ty := Settle(m, Cell(slot, k), c, num)],
           t.boards[slot := Some(SetCount(b, ty, k, SettledCount(m, c, num)))])
  }

  // Licence assignment on the master; ty counts from 1 as on the command line.
  function Assign(t: Tables, ty: int, num: int, local: bool, slot: nat, inst: nat): (Tables, Code)
    requires Shaped(t) && inst < MAX_INSTANCE
  {
    if !(0 < ty <= |t.mgmt|) then (t, NoType)
    else if slot >= MAX_SLOT_NUM || t.boards[slot].None? then (t, NoSlot)
    else if num > t.boards[slot].value.maxAp then (t, TooMany)
    else
      var k := InBoard(local, inst);
      (SettleIn(t, ty - 1, slot, k, num),
       if Refuses(t.mgmt[ty - 1], t.boards[slot].value.counts[ty - 1][k], num) then NotEnough else Success)
  }

  // HMD_HANSI_INFO_SYN_LICENSE on the backup
  function Follow(t: Tables, ty: nat, num: int, local: bool, slot: nat, inst: nat): Tables
    requires Shaped(t) && ty < |t.mgmt| && slot < MAX_SLOT_NUM && inst < MAX_INSTANCE
  {
    if t.boards[slot].None? then t else SettleIn(t, ty, slot, InBoard(local, inst), num)
  }

  // HMD_LICENSE_SYNCHRONIZE
  function Synchronised(m: Mgmt, num: int, req: Req, isActive: bool, isMaster: bool): Mgmt {
    if isActive then
      if m.licreq != req && m.licreq2 != req then m.(total := m.total + num, free := m.free + num, licreq2 := req) else m
    else if isMaster then m.(total := num, free := num - (m.total - m.free), licreq2 := req)
    else m
  }

  function Synchronise(t: Tables, ty: nat, num: int, req: Req, isActive: bool, isMaster: bool): Tables {
    if ty < |t.mgmt| then t.(mgmt := t.mgmt[ty := Synchronised(t.mgmt[ty], num, req, isActive, isMaster)]) else t
  }

  // One assignment goes back to the pool.
  function ReturnCell(m: Mgmt, cell: nat): Mgmt
    requires cell < |m.given|
  {
    m.(free := m.free + m.given[cell], given := m.given[cell := 0])
  }

  // What a removed board gives back, up to profile p: only cells whose instance exists.
  function ReturnProfiles(m: Mgmt, slot: nat, insts: seq<bool>, p: nat): (r: Mgmt)
    requires |m.given| == CELLS && slot < MAX_SLOT_NUM && |insts| == BOARD_CELLS && 1 <= p <= MAX_INSTANCE
    ensures |r.given| == CELLS
  {
    if p == 1 then m else
      var q := ReturnProfiles(m, slot, insts, p - 1);
      var r := if insts[p - 1] then ReturnCell(q, Cell(slot, p - 1)) else q;
      if insts[17 + (p - 1)] then ReturnCell(r, Cell(slot, 17 + (p - 1))) else r
  }

  // BOARD_REMOVED, and ACTIVE_STDBY_SWITCH_EVENT for the board of the former master
  function RemoveBoard(t: Tables, slot: nat): Tables
    requires Shaped(t) && slot < MAX_SLOT_NUM
  {
    if t.boards[slot].None? then t
    else Tables(seq(|t.mgmt|, i requires 0 <= i < |t.mgmt| =>
                    ReturnProfiles(t.mgmt[i], slot, t.boards[slot].value.insts, MAX_INSTANCE)),
                t.boards[slot := None])
  }

  // HmdStateReInitSlot
  function EmptyBoard(types: nat, maxAp: int): Board {
    Board(maxAp, seq(types, _ => seq(BOARD_CELLS, _ => 0)), seq(BOARD_CELLS, _ => false))
  }

  function InsertBoard(t: Tables, slot: nat, maxAp: int): Tables
    requires |t.boards| == MAX_SLOT_NUM && slot < MAX_SLOT_NUM
  {
    if t.boards[slot].Some? then t else t.(boards := t.boards[slot := Some(EmptyBoard(|t.mgmt|, maxAp))])
  }

  // An instance of a board is created or deleted.
  function SetInstance(t: Tables, slot: nat, k: nat, present: bool): Tables
    requires Shaped(t) && slot < MAX_SLOT_NUM && k < BOARD_CELLS
  {
    if t.boards[slot].None? then t
    else t.(boards := t.boards[slot := Some(t.boards[slot].value.(insts := t.boards[slot].value.insts[k := present]))])
  }

  // hmd_license_init: a total for every file found, at least nine types in all
  function Fresh(total: int, req: Req): Mgmt { Mgmt(total, total, seq(CELLS, _ => 0), req, []) }

  function Initial(totals: seq<int>, reqs: seq<Req>): Tables
    requires |totals| == |reqs|
  {
    var n := if |totals| < 9 then 9 else |totals|;
    Tables(seq(n, i requires 0 <= i < n => if i < |totals| then Fresh(totals[i], reqs[i]) else Fresh(0, [])),
           seq(MAX_SLOT_NUM, _ => None))
  }

  // ---- conservation ----

  function Sum(s: seq<int>): int { if s == [] then 0 else s[0] + Sum(s[1..]) }

  ghost predicate BalancedMgmt(m: Mgmt) { m.total == m.free + Sum(m.given) }

  ghost predicate Balanced(t: Tables) { forall i :: 0 <= i < |t.mgmt| ==> BalancedMgmt(t.mgmt[i]) }

  lemma {:induction false} SumUpdate(s: seq<int>, i: nat, v: int)
    requires i < |s|
    ensures Sum(s[i := v]) == Sum(s) - s[i] + v
  {
    if i == 0 {
      assert s[i := v][1..] == s[1..];
    } else {
      assert s[i := v][1..] == s[1..][i - 1 := v];
      SumUpdate(s[1..], i - 1, v);
    }
  }

  lemma {:induction false} SumZeros(n: nat)
    ensures Sum(seq(n, _ => 0)) == 0
  {
    if n > 0 {
      assert seq(n, _ => 0)[1..] == seq(n - 1, _ => 0);
      SumZeros(n - 1);
    }
  }

  lemma SettleKeepsBalance(m: Mgmt, cell: nat, count: int, num: int)
    requires cell < |m.given| && BalancedMgmt(m)
    ensures BalancedMgmt(Settle(m, cell, count, num))
  {
    SumUpdate(m.given, cell, m.given[cell] + (num - count));
  }

  lemma {:induction false} ReturnKeepsBalance(m: Mgmt, slot: nat, insts: seq<bool>, p: nat)
    requires |m.given| == CELLS && slot < MAX_SLOT_NUM && |insts| == BOARD_CELLS && 1 <= p <= MAX_INSTANCE
    requires BalancedMgmt(m)
    ensures BalancedMgmt(ReturnProfiles(m, slot, insts, p))
  {
    if p > 1 {
      ReturnKeepsBalance(m, slot, insts, p - 1);
      var q := ReturnProfiles(m, slot, insts, p - 1);
      var r := if insts[p - 1] then ReturnCell(q, Cell(slot, p - 1)) else q;
      SumUpdate(q.given, Cell(slot, p - 1), 0);
      SumUpdate(r.given, Cell(slot, 17 + (p - 1)), 0);
    }
  }
}
