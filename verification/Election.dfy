/**
  Local instances of one profile on at most two slots, and which of them is active. The
  master keeps a summary of the profile and one record per slot; HOST is its own slot.
*/
module Election {
  import opened Options
  import opened Chassis

  // isActive: 0, INST_BACKUP, INST_ACTIVE, INST_DISABLE
  datatype Role = NoRole | Backup | Active | Disabled

  datatype Inst = Inst(slotNo: int, slotNo1: int, slotNum: int,
                       state: int, state1: int, role: Role, role1: Role)

  datatype Summary = Summary(slotNo: int, slotNo1: int, slotNum: int, state: int, state1: int)

  datatype Profile = Profile(host: int, boards: set<int>, summary: Option<Summary>, insts: map<int, Inst>)

  datatype Code = Success | NoSlot | NoSuchId | NoInstance | NoLinks

  function NewInst(slot: int, other: int, num: int): Inst { Inst(slot, other, num, 0, 0, NoRole, NoRole) }

  // ---- hmd_dbus_interface_config_local_hansi ----

  // The record of a slot, if it exists, learns of its neighbour.
  function Paired(insts: map<int, Inst>, slot: int, other: int): map<int, Inst> {
    if slot in insts then insts[slot := insts[slot].(slotNo1 := other, slotNum := 2)] else insts
  }

  function Create(p: Profile, slot: int): (Profile, Code) {
    if !(0 <= slot < MAX_SLOT_NUM && slot in p.boards) then (p, NoSlot)
    else if p.summary.None? then
      (p.(summary := Some(Summary(slot, -1, 1, 0, 0)), insts := p.insts[slot := NewInst(slot, -1, 1)]), Success)
    else
      var m := p.summary.value;
      if m.slotNum < 2 then
        if slot in p.insts then (p, Success) else CreateSecond(p, slot)
      else (p, if m.slotNo == slot || m.slotNo1 == slot then Success else NoSuchId)
  }

  function CreateSecond(p: Profile, slot: int): (Profile, Code)
    requires p.summary.Some?
  {
    var m := p.summary.value;
    var m' := if m.slotNo == -1 then m.(slotNo := slot) else if m.slotNo1 == -1 then m.(slotNo1 := slot) else m;
    var other := if m.slotNo == -1 then m.slotNo1 else if m.slotNo1 == -1 then m.slotNo else -1;
    if 0 < other < MAX_SLOT_NUM then
      var insts := if other in p.boards then Paired(p.insts, other, slot) else p.insts;
      (p.(summary := Some(m'.(slotNum := 2)), insts := insts[slot := NewInst(slot, other, 2)]), Success)
    else (p.(summary := Some(m')), Success)
  }

  // ---- hmd_dbus_interface_set_hansi_disable_enable ----

  function SetState1(insts: map<int, Inst>, slot: int, enable: int): map<int, Inst> {
    if slot in insts then insts[slot := insts[slot].(state1 := enable)] else insts
  }

  // Both branches first write the flag into the record, the summary and the neighbour.
  function Flagged(p: Profile, slot: int, enable: int): Profile
    requires slot in p.insts
  {
    var insts := p.insts[slot := p.insts[slot].(state := enable)];
    if p.summary.None? then p.(insts := insts) else
      var m := p.summary.value;
      if m.slotNo == slot then
        p.(summary := Some(m.(state := enable)),
           insts := if m.slotNum == 2 then SetState1(insts, m.slotNo1, enable) else insts)
      else if m.slotNo1 == slot then
        p.(summary := Some(m.(state1 := enable)),
           insts := if m.slotNum == 2 then SetState1(insts, m.slotNo, enable) else insts)
      else p.(insts := insts)
  }

  predicate HasNeighbour(p: Profile, slot: int)
    requires slot in p.insts
  {
    p.insts[slot].slotNum == 2 && p.insts[slot].slotNo1 in p.boards && p.insts[slot].slotNo1 in p.insts
  }

  predicate NeighbourIs(p: Profile, slot: int, role: Role)
    requires slot in p.insts
  {
    HasNeighbour(p, slot) && p.insts[p.insts[slot].slotNo1].state == 1 && p.insts[p.insts[slot].slotNo1].role == role
  }

  function SetRole(p: Profile, slot: int, role: Role): Profile {
    if slot in p.insts then p.(insts := p.insts[slot := p.insts[slot].(role := role)]) else p
  }

  function SetRole1(p: Profile, slot: int, role: Role): Profile {
    if slot in p.insts then p.(insts := p.insts[slot := p.insts[slot].(role1 := role)]) else p
  }

  // The branch for a slot other than the host's; it also tells each side about the other.
  function DecideRemote(p: Profile, slot: int, enable: int): Profile
    requires slot in p.insts
  {
    var nb := p.insts[slot].slotNo1;
    if enable != 0 then
      var role := if NeighbourIs(p, slot, Active) then Backup else Active;
      if HasNeighbour(p, slot) then SetRole1(SetRole(p, slot, role), nb, role) else SetRole(p, slot, role)
    else
      var q := if NeighbourIs(p, slot, Backup)
               then SetRole1(SetRole1(SetRole(p, nb, Active), nb, Disabled), slot, Active) else p;
      SetRole(q, slot, Disabled)
  }

  // The branch for the host's own slot.
  function DecideHost(p: Profile, slot: int, enable: int): Profile
    requires slot in p.insts
  {
    var nb := p.insts[slot].slotNo1;
    if enable != 0 then SetRole(p, slot, if NeighbourIs(p, slot, Active) then Backup else Active)
    else SetRole(if NeighbourIs(p, slot, Backup) then SetRole(p, nb, Active) else p, slot, Disabled)
  }

  // linked: the instance has an uplink or a downlink; only the host branch looks at it.
  function SetEnabled(p: Profile, slot: int, enable: int, linked: bool): (Profile, Code) {
    if slot != p.host then
      if slot in p.boards && slot in p.insts then (DecideRemote(Flagged(p, slot, enable), slot, enable), Success)
      else (p, NoSlot)
    else if slot in p.insts then
      if !linked then (p.(insts := p.insts[slot := p.insts[slot].(state := enable)]), NoLinks)
      else (DecideHost(Flagged(p, slot, enable), slot, enable), Success)
    else (p, NoInstance)
  }

  // ---- what every run keeps ----

  // At most two slots, which point at each other.
  ghost predicate Shape(p: Profile) {
    && (forall s :: s in p.insts ==> s in p.boards && p.insts[s].slotNo == s)
    && (p.summary.None? ==> p.insts.Keys == {})
    && (p.summary.Some? ==>
          var m := p.summary.value;
          0 <= m.slotNo < MAX_SLOT_NUM &&
          (|| (m.slotNum == 1 && (m.slotNo > 0 ==> m.slotNo1 == -1) && p.insts.Keys == {m.slotNo} && Alone(p.insts[m.slotNo]))
           || (m.slotNum == 2 && m.slotNo != m.slotNo1 && p.insts.Keys == {m.slotNo, m.slotNo1}
               && Points(p.insts[m.slotNo], m.slotNo1) && Points(p.insts[m.slotNo1], m.slotNo))))
  }

  predicate Alone(i: Inst) { i.slotNum == 1 && i.slotNo1 == -1 }
  predicate Points(i: Inst, other: int) { i.slotNum == 2 && i.slotNo1 == other }

  predicate Enabled(p: Profile, s: int) { s in p.insts && p.insts[s].state != 0 }
  predicate IsActive(p: Profile, s: int) { s in p.insts && p.insts[s].role == Active }

  // An enabled instance is active or backup, a disabled one neither.
  ghost predicate RolesMatch(p: Profile) {
    forall s :: s in p.insts ==>
      && (p.insts[s].state == 0 || p.insts[s].state == 1)
      && (p.insts[s].state == 1 <==> p.insts[s].role == Active || p.insts[s].role == Backup)
  }

  // Never two active slots, and one whenever any is enabled.
  ghost predicate OneActive(p: Profile) {
    && (forall s, t :: IsActive(p, s) && IsActive(p, t) ==> s == t)
    && ((exists s :: Enabled(p, s)) ==> exists s :: IsActive(p, s))
  }

  ghost predicate Inv(p: Profile) { Shape(p) && RolesMatch(p) && OneActive(p) }

  lemma CreateKeepsInv(p: Profile, slot: int)
    requires Inv(p)
    ensures Inv(Create(p, slot).0)
  {
    var q := Create(p, slot).0;
    assert forall s :: s in p.insts ==> s in q.insts && q.insts[s].state == p.insts[s].state && q.insts[s].role == p.insts[s].role;
    forall s | Enabled(q, s)
      ensures exists t :: IsActive(q, t)
    {
      assert Enabled(p, s);
      var t :| IsActive(p, t);
      assert IsActive(q, t);
    }
  }

  // What creation does not touch in a record that is already there
  predicate SameButNeighbour(i: Inst, j: Inst) { j == i.(slotNo1 := j.slotNo1, slotNum := j.slotNum) }

  predicate OnBoard(p: Profile, slot: int) { 0 <= slot < MAX_SLOT_NUM && slot in p.boards }

  // A slot gets a record exactly if it has a board, and the profile has no slot yet, or a
  // single one that is not slot 0; the handler takes a first slot 0 for none.
  ghost predicate Gets(p: Profile, slot: int) {
    OnBoard(p, slot) && slot !in p.insts && (p.insts.Keys == {} || (|p.insts.Keys| == 1 && 0 !in p.insts))
  }

  lemma CreateExactly(p: Profile, slot: int)
    requires Shape(p)
    ensures var q := Create(p, slot).0;
            && (slot in q.insts <==> slot in p.insts || Gets(p, slot))
            && q.insts.Keys == p.insts.Keys + (if Gets(p, slot) then {slot} else {})
            && (!Gets(p, slot) ==> q.insts == p.insts)
            && (Gets(p, slot) ==> SameButNeighbour(NewInst(slot, -1, 1), q.insts[slot]))
            && (forall s :: s in p.insts ==> SameButNeighbour(p.insts[s], q.insts[s]))
            && (forall s :: s in p.insts && Gets(p, slot) ==> Points(q.insts[slot], s) && Points(q.insts[s], slot))
  {
    if p.summary.Some? && p.summary.value.slotNum == 2 {
      assert |{p.summary.value.slotNo, p.summary.value.slotNo1}| == 2;
    }
  }

  lemma CreateReplies(p: Profile, slot: int)
    requires Shape(p)
    ensures var code := Create(p, slot).1;
            && (code == NoSlot <==> !OnBoard(p, slot))
            && (code == NoSuchId <==> OnBoard(p, slot) && |p.insts.Keys| == 2 && slot !in p.insts)
            && (code == Success || code == NoSlot || code == NoSuchId)
  {
    if p.summary.Some? && p.summary.value.slotNum == 2 {
      assert |{p.summary.value.slotNo, p.summary.value.slotNo1}| == 2;
    }
  }

  // ---- enable and disable ----

  // What either branch does to the roles and flags, said without its steps.
  ghost predicate Decided(p: Profile, q: Profile, slot: int, enable: int) {
    && q.insts.Keys == p.insts.Keys && q.boards == p.boards && slot in p.insts
    && q.insts[slot].state == enable
    && (enable != 0 ==> q.insts[slot].role == if NeighbourIs(p, slot, Active) then Backup else Active)
    && (enable == 0 ==> q.insts[slot].role == Disabled)
    && (forall s :: s in p.insts && s != slot ==>
          && q.insts[s].state == p.insts[s].state
          && q.insts[s].role == if enable == 0 && NeighbourIs(p, slot, Backup) && s == p.insts[slot].slotNo1
                                then Active else p.insts[s].role)
  }

  ghost predicate SameSlots(p: Profile, q: Profile) {
    && q.insts.Keys == p.insts.Keys && q.boards == p.boards && q.summary.Some? == p.summary.Some?
    && (p.summary.Some? ==> q.summary.value.slotNo == p.summary.value.slotNo
                            && q.summary.value.slotNo1 == p.summary.value.slotNo1
                            && q.summary.value.slotNum == p.summary.value.slotNum)
    && (forall s :: s in p.insts ==> SameSlot(p.insts[s], q.insts[s]))
  }

  predicate SameSlot(i: Inst, j: Inst) { i.slotNo == j.slotNo && i.slotNo1 == j.slotNo1 && i.slotNum == j.slotNum }

  lemma FlaggedChanges(p: Profile, slot: int, enable: int)
    requires slot in p.insts
    ensures var q := Flagged(p, slot, enable);
            && SameSlots(p, q) && q.insts[slot].state == enable
            && (forall s :: s in p.insts ==> q.insts[s].role == p.insts[s].role)
            && (forall s :: s in p.insts && s != slot ==> q.insts[s].state == p.insts[s].state)
  {}

  lemma HostRoles(f: Profile, slot: int, enable: int)
    requires slot in f.insts && f.insts[slot].slotNo1 != slot
    ensures var (q, nb) := (DecideHost(f, slot, enable), f.insts[slot].slotNo1);
            && SameSlots(f, q)
            && (forall s :: s in f.insts ==> q.insts[s].state == f.insts[s].state)
            && q.insts[slot].role == (if enable == 0 then Disabled else if NeighbourIs(f, slot, Active) then Backup else Active)
            && (forall s :: s in f.insts && s != slot ==>
                  q.insts[s].role == if enable == 0 && NeighbourIs(f, slot, Backup) && s == nb then Active else f.insts[s].role)
  { }

  lemma HostDecides(p: Profile, slot: int, enable: int)
    requires slot in p.insts && p.insts[slot].slotNo1 != slot
    ensures var q := DecideHost(Flagged(p, slot, enable), slot, enable);
            Decided(p, q, slot, enable) && SameSlots(p, q)
  {
    var f := Flagged(p, slot, enable);
    FlaggedChanges(p, slot, enable);
    HostRoles(f, slot, enable);
    assert forall r :: NeighbourIs(f, slot, r) <==> NeighbourIs(p, slot, r);
  }

  // The host branch and the remote branch decide alike, whatever the tables hold.
  lemma HostAndRemoteAgree(p: Profile, slot: int, enable: int)
    requires slot in p.insts && p.insts[slot].slotNo1 != slot
    ensures var r := DecideRemote(Flagged(p, slot, enable), slot, enable);
            var h := DecideHost(Flagged(p, slot, enable), slot, enable);
            && r.summary == h.summary && r.insts.Keys == h.insts.Keys
            && (forall s :: s in r.insts ==> r.insts[s].(role1 := NoRole) == h.insts[s].(role1 := NoRole))
  {}

  lemma RemoteDecides(p: Profile, slot: int, enable: int)
    requires slot in p.insts && p.insts[slot].slotNo1 != slot
    ensures var q := DecideRemote(Flagged(p, slot, enable), slot, enable);
            Decided(p, q, slot, enable) && SameSlots(p, q)
  {
    HostDecides(p, slot, enable);
    HostAndRemoteAgree(p, slot, enable);
    var r, h := DecideRemote(Flagged(p, slot, enable), slot, enable), DecideHost(Flagged(p, slot, enable), slot, enable);
    assert forall s :: s in r.insts ==> SameSlot(r.insts[s], h.insts[s]) && r.insts[s].state == h.insts[s].state && r.insts[s].role == h.insts[s].role;
  }

  lemma DecidedKeepsInv(p: Profile, q: Profile, slot: int, enable: int)
    requires Inv(p) && Decided(p, q, slot, enable) && SameSlots(p, q) && (enable == 0 || enable == 1)
    ensures Inv(q)
  {
    var m := p.summary.value;
    assert Shape(q);
    assert RolesMatch(q);
    if m.slotNum == 2 {
      var other := if slot == m.slotNo then m.slotNo1 else m.slotNo;
      assert p.insts.Keys == {slot, other} && HasNeighbour(p, slot) && p.insts[slot].slotNo1 == other;
      assert IsActive(q, slot) || IsActive(q, other) || (!Enabled(q, slot) && !Enabled(q, other)) by {
        if Enabled(p, slot) || Enabled(p, other) { assert IsActive(p, slot) || IsActive(p, other); }
      }
      assert !(IsActive(q, slot) && IsActive(q, other));
    } else {
      assert p.insts.Keys == {slot};
      assert enable == 1 ==> IsActive(q, slot);
    }
  }

  lemma SetEnabledKeepsInv(p: Profile, slot: int, enable: int, linked: bool)
    requires Inv(p) && (enable == 0 || enable == 1) && linked
    ensures Inv(SetEnabled(p, slot, enable, linked).0)
  {
    if slot in p.insts && (slot == p.host || slot in p.boards) {
      SlotIsNotItsNeighbour(p, slot);
      RemoteDecides(p, slot, enable);
      HostDecides(p, slot, enable);
      DecidedKeepsInv(p, SetEnabled(p, slot, enable, linked).0, slot, enable);
    }
  }

  lemma SlotIsNotItsNeighbour(p: Profile, slot: int)
    requires Shape(p) && slot in p.insts
    ensures p.insts[slot].slotNo1 != slot
  {}

  lemma SetEnabledReplies(p: Profile, slot: int, enable: int, linked: bool)
    requires Shape(p)
    ensures var code := SetEnabled(p, slot, enable, linked).1;
            && (code == Success <==> slot in p.insts && (slot == p.host ==> linked))
            && (code == NoLinks <==> slot in p.insts && slot == p.host && !linked)
            && (code == NoInstance <==> slot !in p.insts && slot == p.host)
            && (code == NoSlot <==> slot !in p.insts && slot != p.host)
  { }

  // The summary's flag of that slot, and the copy its neighbour keeps
  lemma FlagsAreCopied(p: Profile, slot: int, enable: int)
    requires Shape(p) && slot in p.insts
    ensures var q := SetEnabled(p, slot, enable, true).0;
            && q.insts.Keys == p.insts.Keys && q.summary.Some?
            && q.summary.value == (if slot == p.summary.value.slotNo then p.summary.value.(state := enable)
                                   else p.summary.value.(state1 := enable))
            && (forall s :: s in p.insts ==> q.insts[s].state1 == if s == slot then p.insts[s].state1 else enable)
  {
    SlotIsNotItsNeighbour(p, slot);
    FlaggedCopies(p, slot, enable);
    var f := Flagged(p, slot, enable);
    assert DecideRemote(f, slot, enable).summary == f.summary && DecideHost(f, slot, enable).summary == f.summary;
  }

  lemma FlaggedCopies(p: Profile, slot: int, enable: int)
    requires Shape(p) && slot in p.insts
    ensures var f := Flagged(p, slot, enable);
            && f.summary.Some? && f.insts.Keys == p.insts.Keys
            && f.summary.value == (if slot == p.summary.value.slotNo then p.summary.value.(state := enable)
                                   else p.summary.value.(state1 := enable))
            && (forall s :: s in p.insts ==> f.insts[s].state1 == if s == slot then p.insts[s].state1 else enable)
  { }

  // The remote branch also tells each side the other's role, whenever it changes one.
  lemma RemoteTellsRoles(p: Profile, slot: int, other: int, enable: int)
    requires Shape(p) && slot in p.insts && other in p.insts && slot != other
    ensures var q := DecideRemote(Flagged(p, slot, enable), slot, enable);
            && slot in q.insts && other in q.insts
            && (enable != 0 ==> q.insts[other].role1 == q.insts[slot].role && q.insts[slot].role1 == p.insts[slot].role1)
            && (enable == 0 && NeighbourIs(p, slot, Backup) ==>
                  q.insts[other].role1 == q.insts[slot].role && q.insts[slot].role1 == q.insts[other].role)
            && (enable == 0 && !NeighbourIs(p, slot, Backup) ==>
                  q.insts[other].role1 == p.insts[other].role1 && q.insts[slot].role1 == p.insts[slot].role1)
  {
    TwoPoint(p, slot, other);
  }

  // ---- runs ----

  datatype Op = CreateAt(slot: int) | Switch(slot: int, enable: int, linked: bool)

  function Step(p: Profile, op: Op): Profile {
    match op
    case CreateAt(slot) => Create(p, slot).0
    case Switch(slot, enable, linked) => SetEnabled(p, slot, enable, linked).0
  }

  function Run(p: Profile, ops: seq<Op>): Profile {
    if ops == [] then p else Step(Run(p, ops[..|ops| - 1]), ops[|ops| - 1])
  }

  // The command is on or off, and the instance has a link.
  predicate Proper(op: Op) { op.Switch? ==> (op.enable == 0 || op.enable == 1) && op.linked }

  function Fresh(host: int, boards: set<int>): Profile { Profile(host, boards, None, map[]) }

  lemma {:induction false} RunKeepsInv(p: Profile, ops: seq<Op>)
    requires Inv(p) && forall i :: 0 <= i < |ops| ==> Proper(ops[i])
    ensures Inv(Run(p, ops))
  {
    if ops != [] {
      var q := Run(p, ops[..|ops| - 1]);
      RunKeepsInv(p, ops[..|ops| - 1]);
      match ops[|ops| - 1]
      case CreateAt(slot) => CreateKeepsInv(q, slot);
      case Switch(slot, enable, linked) => SetEnabledKeepsInv(q, slot, enable, linked);
    }
  }

  // At most two slots, which point at each other.
  ghost predicate AtMostTwo(p: Profile) {
    && |p.insts.Keys| <= 2
    && (forall s, t :: s in p.insts && t in p.insts && s != t ==> Points(p.insts[s], t))
  }

  // Never two active slots; one is active exactly when one is enabled, and it is enabled.
  ghost predicate Elected(p: Profile) {
    && (forall s, t :: IsActive(p, s) && IsActive(p, t) ==> s == t)
    && ((exists s :: Enabled(p, s)) <==> (exists s :: IsActive(p, s)))
    && (forall s :: IsActive(p, s) ==> Enabled(p, s))
  }

  lemma ShapeIsAtMostTwo(p: Profile)
    requires Shape(p)
    ensures AtMostTwo(p)
  {
    if p.summary.Some? && p.summary.value.slotNum == 2 {
      var m := p.summary.value;
      assert |{m.slotNo, m.slotNo1}| == 2;
    }
  }

  lemma InvElects(p: Profile)
    requires RolesMatch(p) && OneActive(p)
    ensures Elected(p)
  {
    forall s | IsActive(p, s) ensures Enabled(p, s) {}
  }

  lemma EveryRunElects(host: int, boards: set<int>, ops: seq<Op>)
    requires forall i :: 0 <= i < |ops| ==> Proper(ops[i])
    ensures AtMostTwo(Run(Fresh(host, boards), ops))
    ensures Elected(Run(Fresh(host, boards), ops))
  {
    RunKeepsInv(Fresh(host, boards), ops);
    ShapeIsAtMostTwo(Run(Fresh(host, boards), ops));
    InvElects(Run(Fresh(host, boards), ops));
  }

  // In every run a creation does exactly that.
  lemma EveryCreationDecides(host: int, boards: set<int>, ops: seq<Op>, slot: int)
    requires forall i :: 0 <= i < |ops| ==> Proper(ops[i])
    ensures var p := Run(Fresh(host, boards), ops);
            var q := Create(p, slot).0;
            && q.insts.Keys == p.insts.Keys + (if Gets(p, slot) then {slot} else {})
            && (forall s :: s in p.insts ==> SameButNeighbour(p.insts[s], q.insts[s]))
            && (forall s :: s in p.insts && Gets(p, slot) ==> Points(q.insts[slot], s) && Points(q.insts[s], slot))
  {
    RunKeepsInv(Fresh(host, boards), ops);
    CreateExactly(Run(Fresh(host, boards), ops), slot);
  }

  // ---- where the conditions on a command are needed ----

  lemma RunTwo(p: Profile, x: Op, y: Op)
    ensures Run(p, [x, y]) == Step(Step(p, x), y)
  {
    var ops := [x, y];
    assert ops[..1] == [x];
    RunOne(p, x);
  }

  lemma RunOne(p: Profile, x: Op)
    ensures Run(p, [x]) == Step(p, x)
  {
    assert [x][..0] == [] && Run(p, []) == p;
  }

  // The neighbour counts as enabled only if its flag is exactly 1: after commands v and w to
  // the two slots, both are active exactly if v is neither 0 nor 1, w is not 0 and the second
  // slot was not active before.
  lemma BothActiveExactly(p: Profile, a: int, b: int, v: int, w: int)
    requires Inv(p) && a in p.insts && b in p.insts && a != b
    ensures var q := Run(p, [Switch(a, v, true), Switch(b, w, true)]);
            (IsActive(q, a) && IsActive(q, b)) <==> (v != 0 && v != 1 && w != 0 && !IsActive(p, b))
  {
    var p1 := SetEnabled(p, a, v, true).0;
    RunTwo(p, Switch(a, v, true), Switch(b, w, true));
    SwitchDecides(p, a, v);
    SwitchDecides(p1, b, w);
    TwoPoint(p, a, b);
    TwoPoint(p1, b, a);
    SecondDecides(p, p1, SetEnabled(p1, b, w, true).0, a, b, v, w);
  }

  lemma TwoPoint(p: Profile, a: int, b: int)
    requires Shape(p) && a in p.insts && b in p.insts && a != b
    ensures a in p.boards && b in p.boards && Points(p.insts[a], b) && Points(p.insts[b], a)
  { }

  lemma SecondDecides(p: Profile, p1: Profile, q: Profile, a: int, b: int, v: int, w: int)
    requires a in p.insts && b in p.insts && a != b && RolesMatch(p)
    requires a in p.boards && b in p.boards && p1.boards == p.boards && Points(p.insts[a], b)
    requires Decided(p, p1, a, v) && Points(p1.insts[b], a) && Decided(p1, q, b, w)
    ensures (IsActive(q, a) && IsActive(q, b)) <==> (v != 0 && v != 1 && w != 0 && !IsActive(p, b))
  {
    assert HasNeighbour(p, a) && HasNeighbour(p1, b);
    assert NeighbourIs(p, a, Active) <==> IsActive(p, b);
    assert NeighbourIs(p1, b, Active) <==> v == 1 && IsActive(p1, a);
  }

  lemma SwitchDecides(p: Profile, slot: int, enable: int)
    requires Shape(p) && slot in p.insts
    ensures var q := SetEnabled(p, slot, enable, true).0;
            Decided(p, q, slot, enable) && Shape(q)
  {
    SlotIsNotItsNeighbour(p, slot);
    RemoteDecides(p, slot, enable);
    HostDecides(p, slot, enable);
  }

  // Without links the host branch writes the flag and leaves the role: the invariant survives
  // exactly if the flag was already as asked.
  lemma UnlinkedHostIsSafeExactly(p: Profile, enable: int)
    requires Inv(p) && p.host in p.insts && (enable == 0 || enable == 1)
    ensures Inv(SetEnabled(p, p.host, enable, false).0) <==> p.insts[p.host].state == enable
  {
    var q := SetEnabled(p, p.host, enable, false).0;
    if p.insts[p.host].state == enable {
      assert q == p;
    } else {
      assert q.insts[p.host].role == p.insts[p.host].role;
    }
  }
}
