/** The licence tables of the daemon, changed in place by its message and event handlers. */
module LicenseObject {
  import opened Options
  import opened Chassis
  import opened License

  class Licences {
    var mgmt: seq<Mgmt>
    var boards: seq<Option<Board>>

    ghost predicate Valid()
      reads this
    {
      Shaped(View())
    }

    function View(): Tables
      reads this
    {
      Tables(mgmt, boards)
    }

    // hmd_license_init
    constructor (totals: seq<int>, reqs: seq<Req>)
      requires |totals| == |reqs|
      ensures Valid() && View() == Initial(totals, reqs)
    {
      var n := if |totals| < 9 then 9 else |totals|;
      mgmt := seq(n, _ => Fresh(0, []));
      boards := seq(MAX_SLOT_NUM, _ => None);
      new;
      var i := 0;
      while i < |totals|
        invariant 0 <= i <= |totals| && |mgmt| == n && boards == seq(MAX_SLOT_NUM, _ => None)
        invariant forall j :: 0 <= j < n ==> mgmt[j] == if j < i then Fresh(totals[j], reqs[j]) else Fresh(0, [])
      {
        mgmt := mgmt[i := mgmt[i].(total := totals[i])];
        mgmt := mgmt[i := mgmt[i].(free := mgmt[i].total)];
        mgmt := mgmt[i := mgmt[i].(licreq := reqs[i])];
        i := i + 1;
      }
    }

    // The two branches that assignment and the backup's handler share.
    method Settle(ty: nat, slot: nat, k: nat, num: int) returns (enough: bool)
      requires Valid() && ty < |mgmt| && slot < MAX_SLOT_NUM && k < BOARD_CELLS && boards[slot].Some?
      modifies this
      ensures Valid() && View() == SettleIn(old(View()), ty, slot, k, num)
      ensures enough == !Refuses(old(mgmt)[ty], old(boards)[slot].value.counts[ty][k], num)
    {
      enough := true;
      var m, b, c := mgmt[ty], boards[slot].value, Cell(slot, k);
      var count := b.counts[ty][k];
      assert b.counts[ty][k := count] == b.counts[ty] && b.counts[ty := b.counts[ty]] == b.counts;
      assert m.given[c := m.given[c] + 0] == m.given;
      if count < num {
        var more := num - count;
        if m.free >= more {
          m := m.(free := m.free - more);
          m := m.(given := m.given[c := m.given[c] + more]);
          b := SetCount(b, ty, k, num);
        } else {
          enough := false;
        }
      } else if count > num {
        var less := count - num;
        m := m.(free := m.free + less);
        m := m.(given := m.given[c := m.given[c] - less]);
        b := SetCount(b, ty, k, num);
      }
      mgmt := mgmt[ty := m];
      boards := boards[slot := Some(b)];
    }

    // hmd_dbus_interface_config_license_assign on a master
    method Assign(ty: int, num: int, local: bool, slot: nat, inst: nat) returns (code: Code)
      requires Valid() && inst < MAX_INSTANCE
      modifies this
      ensures Valid() && (View(), code) == License.Assign(old(View()), ty, num, local, slot, inst)
    {
      if !(ty <= |mgmt| && ty > 0) {
        return NoType;
      }
      if slot >= MAX_SLOT_NUM || boards[slot].None? {
        return NoSlot;
      }
      if num > boards[slot].value.maxAp {
        return TooMany;
      }
      var enough := Settle(ty - 1, slot, InBoard(local, inst), num);
      code := if enough then Success else NotEnough;
    }

    // HMD_HANSI_INFO_SYN_LICENSE
    method Follow(ty: nat, num: int, local: bool, slot: nat, inst: nat)
      requires Valid() && ty < |mgmt| && slot < MAX_SLOT_NUM && inst < MAX_INSTANCE
      modifies this
      ensures Valid() && View() == License.Follow(old(View()), ty, num, local, slot, inst)
    {
      if boards[slot].Some? {
        var enough := Settle(ty, slot, InBoard(local, inst), num);
      }
    }

    // HMD_LICENSE_SYNCHRONIZE
    method Synchronise(ty: nat, num: int, req: Req, isActive: bool, isMaster: bool)
      requires Valid()
      modifies this`mgmt
      ensures Valid() && View() == License.Synchronise(old(View()), ty, num, req, isActive, isMaster)
    {
      if ty < |mgmt| {
        var m := mgmt[ty];
        if isActive {
          if m.licreq != req && m.licreq2 != req {
            m := m.(total := m.total + num);
            m := m.(free := m.free + num);
            m := m.(licreq2 := req);
          }
        } else if isMaster {
          var used := m.total - m.free;
          m := m.(total := num);
          m := m.(free := num - used);
          m := m.(licreq2 := req);
        }
        mgmt := mgmt[ty := m];
      }
    }

    // Return one cell's licences of every type.
    method ReturnAllTypes(cell: nat)
      requires Valid() && cell < CELLS
      modifies this`mgmt
      ensures |mgmt| == |old(mgmt)|
      ensures Valid() && forall i :: 0 <= i < |mgmt| ==> mgmt[i] == ReturnCell(old(mgmt)[i], cell)
    {
      var ty := 0;
      while ty < |mgmt|
        invariant 0 <= ty <= |mgmt| == |old(mgmt)|
        invariant forall i :: 0 <= i < ty ==> mgmt[i] == ReturnCell(old(mgmt)[i], cell)
        invariant forall i :: ty <= i < |mgmt| ==> mgmt[i] == old(mgmt)[i]
      {
        var m := mgmt[ty];
        if m.given[cell] != 0 {
          m := m.(free := m.free + m.given[cell]);
          m := m.(given := m.given[cell := 0]);
        } else {
          assert m.given[cell := 0] == m.given;
        }
        mgmt := mgmt[ty := m];
        ty := ty + 1;
      }
    }

    // BOARD_REMOVED and ACTIVE_STDBY_SWITCH_EVENT
    method RemoveBoard(slot: nat)
      requires Valid() && slot < MAX_SLOT_NUM
      modifies this
      ensures Valid() && View() == License.RemoveBoard(old(View()), slot)
    {
      if boards[slot].None? {
        return;
      }
      var insts := boards[slot].value.insts;
      var profile := 1;
      while profile < MAX_INSTANCE
        invariant 1 <= profile <= MAX_INSTANCE && Valid() && |mgmt| == |old(mgmt)| && boards == old(boards)
        invariant forall i :: 0 <= i < |mgmt| ==> mgmt[i] == ReturnProfiles(old(mgmt)[i], slot, insts, profile)
      {
        if insts[profile] {
          ReturnAllTypes(Cell(slot, profile));
        }
        if insts[17 + profile] {
          ReturnAllTypes(Cell(slot, 17 + profile));
        }
        profile := profile + 1;
      }
      boards := boards[slot := None];
    }

    // HmdStateReInitSlot
    method InsertBoard(slot: nat, maxAp: int)
      requires Valid() && slot < MAX_SLOT_NUM
      modifies this`boards
      ensures Valid() && View() == License.InsertBoard(old(View()), slot, maxAp)
    {
      if boards[slot].Some? {
        return;
      }
      boards := boards[slot := Some(EmptyBoard(|mgmt|, maxAp))];
    }
  }
}
