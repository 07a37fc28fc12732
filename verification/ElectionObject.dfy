/**
  The tables of one profile as the handlers update them: HMD_L_HANSI[profile] and the
  Hmd_Local_Inst[profile] record of every board.
*/
module ElectionObject {
  import opened Options
  import opened Chassis
  import opened Election

  class Instances {
    const host: int
    const boards: set<int>
    var summary: Option<Summary>
    var insts: map<int, Inst>

    ghost function View(): Profile
      reads this
    {
      Profile(host, boards, summary, insts)
    }

    constructor (host: int, boards: set<int>)
      ensures View() == Fresh(host, boards)
    {
      this.host, this.boards := host, boards;
      summary, insts := None, map[];
    }

    method Create(slot: int) returns (code: Code)
      modifies this
      ensures (View(), code) == Election.Create(old(View()), slot)
    {
      code := Success;
      if !(0 <= slot < MAX_SLOT_NUM && slot in boards) { return NoSlot; }
      if summary.None? {
        summary := Some(Summary(slot, -1, 1, 0, 0));
        insts := insts[slot := NewInst(slot, -1, 1)];
      } else if summary.value.slotNum < 2 {
        if slot !in insts { AddSecond(slot); }
      } else if summary.value.slotNo != slot && summary.value.slotNo1 != slot {
        code := NoSuchId;
      }
    }

    method AddSecond(slot: int)
      requires summary.Some?
      modifies this
      ensures (View(), Success) == CreateSecond(old(View()), slot)
    {
      var other := -1;
      if summary.value.slotNo == -1 {
        summary := Some(summary.value.(slotNo := slot));
        other := summary.value.slotNo1;
      } else if summary.value.slotNo1 == -1 {
        summary := Some(summary.value.(slotNo1 := slot));
        other := summary.value.slotNo;
      }
      if 0 < other < MAX_SLOT_NUM {
        if other in boards && other in insts {
          insts := insts[other := insts[other].(slotNo1 := slot, slotNum := 2)];
        }
        insts := insts[slot := NewInst(slot, other, 2)];
        summary := Some(summary.value.(slotNum := 2));
      }
    }

    method SetEnabled(slot: int, enable: int, linked: bool) returns (code: Code)
      modifies this
      ensures (View(), code) == Election.SetEnabled(old(View()), slot, enable, linked)
    {
      code := Success;
      if slot != host {
        if slot !in boards || slot !in insts { return NoSlot; }
        Flag(slot, enable);
        if enable != 0 { EnableRemote(slot); } else { DisableRemote(slot); }
      } else {
        if slot !in insts { return NoInstance; }
        if !linked {
          insts := insts[slot := insts[slot].(state := enable)];
          return NoLinks;
        }
        Flag(slot, enable);
        if enable != 0 { EnableHost(slot); } else { DisableHost(slot); }
      }
    }

    method Flag(slot: int, enable: int)
      requires slot in insts
      modifies this
      ensures View() == Flagged(old(View()), slot, enable)
    {
      insts := insts[slot := insts[slot].(state := enable)];
      if summary.None? { return; }
      var other := -1;
      if summary.value.slotNo == slot {
        summary := Some(summary.value.(state := enable));
        other := summary.value.slotNo1;
      } else if summary.value.slotNo1 == slot {
        summary := Some(summary.value.(state1 := enable));
        other := summary.value.slotNo;
      } else {
        return;
      }
      if summary.value.slotNum == 2 && other in insts {
        insts := insts[other := insts[other].(state1 := enable)];
      }
    }

    method EnableRemote(slot: int)
      requires slot in insts
      modifies this`insts
      ensures forall e :: e != 0 ==> View() == DecideRemote(old(View()), slot, e)
    {
      var nb := insts[slot].slotNo1;
      var role := Active;
      if insts[slot].slotNum == 2 && nb in boards && nb in insts {
        if insts[nb].state == 1 && insts[nb].role == Active { role := Backup; }
        insts := insts[slot := insts[slot].(role := role)];
        insts := insts[nb := insts[nb].(role1 := role)];
      } else {
        insts := insts[slot := insts[slot].(role := role)];
      }
    }

    method DisableRemote(slot: int)
      requires slot in insts
      modifies this`insts
      ensures View() == DecideRemote(old(View()), slot, 0)
    {
      var nb := insts[slot].slotNo1;
      if insts[slot].slotNum == 2 && nb in boards && nb in insts && insts[nb].state == 1 && insts[nb].role == Backup {
        insts := insts[nb := insts[nb].(role := Active)];
        insts := insts[nb := insts[nb].(role1 := Disabled)];
        insts := insts[slot := insts[slot].(role1 := Active)];
      }
      insts := insts[slot := insts[slot].(role := Disabled)];
    }

    method EnableHost(slot: int)
      requires slot in insts
      modifies this`insts
      ensures forall e :: e != 0 ==> View() == DecideHost(old(View()), slot, e)
    {
      var nb := insts[slot].slotNo1;
      var role := Active;
      if insts[slot].slotNum == 2 && nb in boards && nb in insts && insts[nb].state == 1 && insts[nb].role == Active {
        role := Backup;
      }
      insts := insts[slot := insts[slot].(role := role)];
    }

    method DisableHost(slot: int)
      requires slot in insts
      modifies this`insts
      ensures View() == DecideHost(old(View()), slot, 0)
    {
      var nb := insts[slot].slotNo1;
      if insts[slot].slotNum == 2 && nb in boards && nb in insts && insts[nb].state == 1 && insts[nb].role == Backup {
        insts := insts[nb := insts[nb].(role := Active)];
      }
      insts := insts[slot := insts[slot].(role := Disabled)];
    }
  }
}
