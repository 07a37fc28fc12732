/** Reference groups: each holds instances, named by slot and instance number. */
module Groups {
  import opened Chassis
  import opened Lists

  const MAX_GROUP_NUM: int := 33
  const MAX_HANSI_NUM: int := 16

  datatype Node = Node(slot: int, inst: int)
  datatype Group = Group(id: int, hansi: seq<Node>)

  datatype Code = Success | Denied | NoSlot | AtOtherGroup | NotInGroup | NoSuchGroup

  // A table cell in use is one with a slot or an instance number.
  const FREE: Node := Node(0, 0)

  predicate Shaped(t: seq<Group>) {
    |t| == MAX_GROUP_NUM && forall i :: 0 <= i < |t| ==> |t[i].hansi| == MAX_HANSI_NUM
  }

  predicate OnBoard(boards: set<int>, slot: int) { 0 <= slot < MAX_SLOT_NUM && slot in boards }

  // ---- the four handlers ----

  function Config(t: seq<Group>, g: nat, permitted: bool): (seq<Group>, Code)
    requires Shaped(t) && 0 < g < MAX_GROUP_NUM
  {
    if !permitted then (t, Denied)
    else if t[g].id == 0 then (t[g := t[g].(id := g)], Success)
    else (t, Success)
  }

  // The node sits in another configured group.
  predicate Elsewhere(t: seq<Group>, g: nat, n: Node) {
    exists i :: 1 <= i < |t| && t[i].id != 0 && t[i].id != g && n in t[i].hansi
  }

  function Put(group: Group, g: nat, n: Node): Group {
    var k := Find(group.hansi, FREE);
    if k < |group.hansi| then Group(g, group.hansi[k := n]) else group
  }

  function Add(t: seq<Group>, boards: set<int>, g: nat, n: Node, permitted: bool): (seq<Group>, Code)
    requires Shaped(t) && g < MAX_GROUP_NUM
  {
    if OnBoard(boards, n.slot) && n in t[g].hansi then (t, AtOtherGroup)
    else if !permitted then (t, Denied)
    else if !OnBoard(boards, n.slot) then (t, NoSlot)
    else if Elsewhere(t, g, n) then (t, AtOtherGroup)
    else (t[g := Put(t[g], g, n)], Success)
  }

  function Take(group: Group, n: Node): Group {
    var k := Find(group.hansi, n);
    if k < |group.hansi| then group.(hansi := group.hansi[k := FREE]) else group
  }

  function Remove(t: seq<Group>, boards: set<int>, g: nat, n: Node, permitted: bool): (seq<Group>, Code)
    requires Shaped(t) && g < MAX_GROUP_NUM
  {
    if !permitted then (t, Denied)
    else if !OnBoard(boards, n.slot) then (t, NoSlot)
    else if t[g].id != g then (t, Success)
    else (t[g := Take(t[g], n)], if n in t[g].hansi then Success else NotInGroup)
  }

  // A cell is cleared if it has a slot; the instance number is not looked at.
  function Cleared(group: Group): (r: Group)
    ensures |r.hansi| == |group.hansi|
  {
    Group(0, seq(|group.hansi|, k requires 0 <= k < |group.hansi| =>
                                  if group.hansi[k].slot != 0 then FREE else group.hansi[k]))
  }

  function Delete(t: seq<Group>, g: nat, permitted: bool): (seq<Group>, Code)
    requires Shaped(t) && g != 0
  {
    if !permitted then (t, Denied)
    else (seq(|t|, i requires 0 <= i < |t| => if i >= 1 && t[i].id == g then Cleared(t[i]) else t[i]),
          if t[MAX_GROUP_NUM - 1].id == g then Success else NoSuchGroup)
  }

  // ---- what every run keeps ----

  predicate Used(n: Node) { n != FREE }

  ghost predicate In(t: seq<Group>, g: int, n: Node) { 0 <= g < |t| && n in t[g].hansi }

  // A group is configured under its own number, or empty.
  ghost predicate IdsMatch(t: seq<Group>) {
    forall i :: 0 <= i < |t| ==> t[i].id == 0 || t[i].id == i
  }

  ghost predicate EmptyWhenOff(t: seq<Group>) {
    forall i, n :: In(t, i, n) && t[i].id == 0 ==> n == FREE
  }

  ghost predicate NoneTwice(cells: seq<Node>) {
    forall a, b :: 0 <= a < b < |cells| && Used(cells[a]) ==> cells[a] != cells[b]
  }

  ghost predicate OneGroup(t: seq<Group>) {
    forall i, j, n :: In(t, i, n) && In(t, j, n) && Used(n) ==> i == j
  }

  // No node sits in two cells, of one group or of two.
  ghost predicate Disjoint(t: seq<Group>) {
    (forall i :: 0 <= i < |t| ==> NoneTwice(t[i].hansi)) && OneGroup(t)
  }

  ghost predicate SlotsSet(t: seq<Group>) {
    forall i, n :: In(t, i, n) && Used(n) ==> n.slot != 0
  }

  ghost predicate Inv(t: seq<Group>) {
    Shaped(t) && IdsMatch(t) && EmptyWhenOff(t) && Disjoint(t) && SlotsSet(t)
  }

  lemma PutMembers(group: Group, g: nat, n: Node)
    requires NoneTwice(group.hansi) && n !in group.hansi && Used(n)
    ensures var q := Put(group, g, n);
            && |q.hansi| == |group.hansi| && NoneTwice(q.hansi)
            && (forall m :: Used(m) ==> (m in q.hansi <==> m in group.hansi || (m == n && FREE in group.hansi)))
            && q.id == if FREE in group.hansi then g else group.id
  {
    var k := Find(group.hansi, FREE);
    if k < |group.hansi| {
      var q := group.hansi[k := n];
      assert q[k] == n;
      forall m | Used(m) && m in group.hansi
        ensures m in q
      {
        var a :| 0 <= a < |group.hansi| && group.hansi[a] == m;
        assert q[a] == m;
      }
    }
  }

  lemma TakeMembers(group: Group, n: Node)
    requires NoneTwice(group.hansi) && Used(n)
    ensures var q := Take(group, n);
            && |q.hansi| == |group.hansi| && NoneTwice(q.hansi) && q.id == group.id
            && (forall m :: Used(m) ==> (m in q.hansi <==> m in group.hansi && m != n))
  {
    var k := Find(group.hansi, n);
    if k < |group.hansi| {
      var q := group.hansi[k := FREE];
      forall m | Used(m) && m in group.hansi && m != n
        ensures m in q
      {
        var a :| 0 <= a < |group.hansi| && group.hansi[a] == m;
        assert q[a] == m;
      }
    }
  }

  // A new table whose groups hold no more used nodes than before keeps the invariant.
  ghost predicate Shrinks(t: seq<Group>, u: seq<Group>) {
    && Shaped(u) && |u| == |t|
    && (forall i :: 0 <= i < |t| ==> NoneTwice(u[i].hansi) && (u[i].id == t[i].id || u[i].id == i || u[i].id == 0))
    && (forall i, m :: In(u, i, m) && Used(m) ==> In(t, i, m))
  }

  lemma ShrinkingKeepsInv(t: seq<Group>, u: seq<Group>)
    requires Inv(t) && Shrinks(t, u) && EmptyWhenOff(u)
    ensures Inv(u)
  {}

  lemma ConfigKeepsInv(t: seq<Group>, g: nat, permitted: bool)
    requires Inv(t) && 0 < g < MAX_GROUP_NUM
    ensures Inv(Config(t, g, permitted).0)
    ensures forall i, m :: In(Config(t, g, permitted).0, i, m) <==> In(t, i, m)
  {
    ShrinkingKeepsInv(t, Config(t, g, permitted).0);
  }

  lemma RemoveKeepsInv(t: seq<Group>, boards: set<int>, g: nat, n: Node, permitted: bool)
    requires Inv(t) && g < MAX_GROUP_NUM && Used(n)
    ensures Inv(Remove(t, boards, g, n, permitted).0)
  {
    var u := Remove(t, boards, g, n, permitted).0;
    TakeMembers(t[g], n);
    assert EmptyWhenOff(u) by {
      forall i, m | In(u, i, m) && u[i].id == 0
        ensures m == FREE
      {
        if Used(m) { assert In(t, i, m); }
      }
    }
    ShrinkingKeepsInv(t, u);
  }

  // Removal takes out that node from that group, if the group is configured, and no other.
  lemma RemoveIsExact(t: seq<Group>, boards: set<int>, g: nat, n: Node, permitted: bool)
    requires Inv(t) && g < MAX_GROUP_NUM && Used(n)
    ensures var (u, code) := Remove(t, boards, g, n, permitted);
            forall i, m :: Used(m) ==> (In(u, i, m) <==> In(t, i, m) && !(permitted && OnBoard(boards, n.slot) && i == g && m == n))
  {
    TakeMembers(t[g], n);
  }

  // The handler goes through with it exactly on these inputs.
  ghost predicate Admits(t: seq<Group>, boards: set<int>, n: Node, permitted: bool) {
    permitted && OnBoard(boards, n.slot) && !exists i :: In(t, i, n)
  }

  // A node that is already in some group is refused; otherwise it joins if there is a free
  // cell, and if there is none the reply is success all the same.
  lemma AddIsExact(t: seq<Group>, boards: set<int>, g: nat, n: Node, permitted: bool)
    requires Inv(t) && g < MAX_GROUP_NUM && Used(n)
    ensures var (u, code) := Add(t, boards, g, n, permitted);
            && (code == Success <==> Admits(t, boards, n, permitted))
            && (forall i, m :: Used(m) ==>
                  (In(u, i, m) <==> In(t, i, m) || (code == Success && FREE in t[g].hansi && i == g && m == n)))
  {
    if n !in t[g].hansi { PutMembers(t[g], g, n); }
    if Elsewhere(t, g, n) {
      var i :| 1 <= i < |t| && t[i].id != 0 && t[i].id != g && n in t[i].hansi;
      assert In(t, i, n);
    } else {
      forall i | In(t, i, n)
        ensures i == g
      {
        assert t[i].id != 0;
      }
    }
    if n in t[g].hansi { assert In(t, g, n); }
  }

  // Adding to a group other than 0 keeps the invariant. Group 0, whose number marks a group
  // as unused, is not excluded: adding to it breaks the invariant for every admitted node.
  lemma AddKeepsInvExactly(t: seq<Group>, boards: set<int>, g: nat, n: Node, permitted: bool)
    requires Inv(t) && g < MAX_GROUP_NUM && Used(n) && n.slot != 0
    ensures Inv(Add(t, boards, g, n, permitted).0) <==> g != 0 || !Admits(t, boards, n, permitted)
  {
    var (u, code) := Add(t, boards, g, n, permitted);
    AddIsExact(t, boards, g, n, permitted);
    if code == Success {
      assert !In(t, g, n);
      PutMembers(t[g], g, n);
      if g == 0 {
        assert In(t, 0, t[0].hansi[0]);
        assert FREE in t[0].hansi;
        assert In(u, 0, n) && u[0].id == 0;
      } else {
        AddedToGroup(t, u, g, n);
      }
    }
  }

  lemma AddedToGroup(t: seq<Group>, u: seq<Group>, g: nat, n: Node)
    requires Inv(t) && 0 < g < |t| && Used(n) && n.slot != 0 && !(exists i :: In(t, i, n))
    requires Shaped(u) && NoneTwice(u[g].hansi) && (forall i :: 0 <= i < |t| && i != g ==> u[i] == t[i])
    requires u[g].id == if FREE in t[g].hansi then g else t[g].id
    requires forall i, m :: Used(m) ==> (In(u, i, m) <==> In(t, i, m) || (FREE in t[g].hansi && i == g && m == n))
    ensures Inv(u)
  {
    assert OneGroup(u);
    assert EmptyWhenOff(u);
  }

  // Deleting empties that group, unconfigures it and touches no other.
  lemma DeleteIsExact(t: seq<Group>, g: nat, permitted: bool)
    requires Inv(t) && g != 0
    ensures Inv(Delete(t, g, permitted).0)
    ensures var (u, code) := Delete(t, g, permitted);
            && (forall i, m :: Used(m) ==> (In(u, i, m) <==> In(t, i, m) && !(permitted && i == g)))
            && (permitted && g < MAX_GROUP_NUM ==> u[g].id == 0)
  {
    var u := Delete(t, g, permitted).0;
    if permitted {
      forall i | 0 <= i < |t|
        ensures NoneTwice(u[i].hansi) && (forall m :: Used(m) ==> (m in u[i].hansi <==> m in t[i].hansi && i != g))
      {
        if i == g { ClearedIsEmpty(t, g); }
      }
      ShrinkingKeepsInv(t, u);
    }
  }

  lemma ClearedIsEmpty(t: seq<Group>, g: nat)
    requires Inv(t) && g < |t|
    ensures forall m :: m in Cleared(t[g]).hansi ==> m == FREE
    ensures t[g].id == 0 ==> Cleared(t[g]) == t[g]
  {
    var c := Cleared(t[g]);
    forall k | 0 <= k < |c.hansi|
      ensures c.hansi[k] == FREE
    {
      assert In(t, g, t[g].hansi[k]);
    }
    if t[g].id == 0 { assert forall k :: 0 <= k < |c.hansi| ==> In(t, g, t[g].hansi[k]); }
  }

  // Adding a node and deleting its group leaves a member in an unconfigured group exactly if
  // the node was added and has no slot number, since only cells with one are cleared.
  lemma AddThenDeleteExactly(t: seq<Group>, boards: set<int>, g: nat, n: Node, permitted: bool)
    requires Inv(t) && 0 < g < MAX_GROUP_NUM && Used(n)
    ensures var u := Delete(Add(t, boards, g, n, permitted).0, g, true).0;
            u[g].id == 0 && ((exists m :: Used(m) && In(u, g, m))
                             <==> n.slot == 0 && Admits(t, boards, n, permitted) && FREE in t[g].hansi)
  {
    var s := Add(t, boards, g, n, permitted).0;
    var u := Delete(s, g, true).0;
    AddIsExact(t, boards, g, n, permitted);
    ClearedMembers(s[g]);
    assert u[g] == if s[g].id == g then Cleared(s[g]) else s[g];
    assert s[g].id != g ==> s == t && s[g].id == 0;
    if n.slot == 0 && Admits(t, boards, n, permitted) && FREE in t[g].hansi {
      assert In(s, g, n) && In(u, g, n);
    }
    forall m | Used(m) && In(u, g, m)
      ensures m == n && n.slot == 0 && !In(t, g, n)
    {
      assert In(s, g, m);
    }
  }

  lemma ClearedMembers(group: Group)
    ensures forall m :: Used(m) ==> (m in Cleared(group).hansi <==> m in group.hansi && m.slot == 0)
  {
    forall m | m in group.hansi && m.slot == 0
      ensures m in Cleared(group).hansi
    {
      var k :| 0 <= k < |group.hansi| && group.hansi[k] == m;
      assert Cleared(group).hansi[k] == m;
    }
  }

  // The reply tells whether the group was configured exactly if it is the last one or was not.
  lemma DeleteReplyIsTrueExactly(t: seq<Group>, g: nat)
    requires Inv(t) && 0 < g < MAX_GROUP_NUM
    ensures (Delete(t, g, true).1 == Success <==> t[g].id == g) <==> (g == MAX_GROUP_NUM - 1 || t[g].id == 0)
  {}

  // ---- what every handler does to the whole table, and its reply ----

  // All groups but one are as they were.
  ghost predicate SameBut(t: seq<Group>, u: seq<Group>, g: int) {
    |u| == |t| && forall i :: 0 <= i < |t| && i != g ==> u[i] == t[i]
  }

  // A permitted request leaves the group configured, with its members, and no other touched.
  lemma ConfigDecides(t: seq<Group>, g: nat, permitted: bool)
    requires Inv(t) && 0 < g < MAX_GROUP_NUM
    ensures var (u, code) := Config(t, g, permitted);
            && (code == Success <==> permitted) && (code == Denied <==> !permitted)
            && SameBut(t, u, g) && u[g].hansi == t[g].hansi
            && u[g].id == if permitted then g else t[g].id
  { }

  lemma AddDecides(t: seq<Group>, boards: set<int>, g: nat, n: Node, permitted: bool)
    requires Inv(t) && 0 < g < MAX_GROUP_NUM && Used(n)
    ensures var (u, code) := Add(t, boards, g, n, permitted);
            var placed := OnBoard(boards, n.slot);
            && (code == Success <==> Admits(t, boards, n, permitted))
            && (code == AtOtherGroup <==> placed && (In(t, g, n) || (permitted && exists i :: In(t, i, n))))
            && (code == Denied <==> !permitted && !(placed && In(t, g, n)))
            && (code == NoSlot <==> permitted && !placed)
            && (code != Success ==> u == t) && SameBut(t, u, g)
            && (code == Success && FREE in t[g].hansi ==> u[g].id == g)
            && (code == Success && FREE !in t[g].hansi ==> u[g] == t[g])
  {
    AddIsExact(t, boards, g, n, permitted);
    if Elsewhere(t, g, n) {
      var i :| 1 <= i < |t| && t[i].id != 0 && t[i].id != g && n in t[i].hansi;
      assert In(t, i, n);
    }
  }

  lemma RemoveDecides(t: seq<Group>, boards: set<int>, g: nat, n: Node, permitted: bool)
    requires Inv(t) && 0 < g < MAX_GROUP_NUM && Used(n)
    ensures var (u, code) := Remove(t, boards, g, n, permitted);
            var placed := OnBoard(boards, n.slot);
            && (code == Denied <==> !permitted)
            && (code == NoSlot <==> permitted && !placed)
            && (code == NotInGroup <==> permitted && placed && t[g].id == g && !In(t, g, n))
            && (code == Success <==> permitted && placed && (In(t, g, n) || t[g].id == 0))
            && SameBut(t, u, g) && u[g].id == t[g].id
            && (permitted && placed ==> !In(u, g, n))
  {
    TakeMembers(t[g], n);
    assert In(t, g, n) ==> t[g].id == g;
  }

  lemma DeleteDecides(t: seq<Group>, g: nat, permitted: bool)
    requires Inv(t) && 0 < g < MAX_GROUP_NUM
    ensures var (u, code) := Delete(t, g, permitted);
            && (code == Denied <==> !permitted) && (!permitted ==> u == t)
            && SameBut(t, u, g) && (permitted ==> u[g].id == 0 && forall k :: 0 <= k < MAX_HANSI_NUM ==> u[g].hansi[k] == FREE)
  {
    var u := Delete(t, g, permitted).0;
    if permitted {
      ClearedIsEmpty(t, g);
      forall k | 0 <= k < MAX_HANSI_NUM ensures u[g].hansi[k] == FREE {
        assert u[g] == if t[g].id == g then Cleared(t[g]) else t[g];
        assert u[g].hansi[k] in u[g].hansi && In(t, g, t[g].hansi[k]);
      }
    }
  }

  // ---- runs ----

  datatype Op =
    | ConfigOp(g: nat, permitted: bool)
    | AddOp(boards: set<int>, g: nat, n: Node, permitted: bool)
    | RemoveOp(boards: set<int>, g: nat, n: Node, permitted: bool)
    | DeleteOp(g: nat, permitted: bool)

  // Group numbers in range, slot and instance numbers not zero
  predicate Proper(op: Op) {
    && 0 < op.g < MAX_GROUP_NUM
    && (op.AddOp? || op.RemoveOp? ==> op.n.slot != 0 && op.n.inst != 0)
  }

  function Step(t: seq<Group>, op: Op): seq<Group>
    requires Shaped(t) && Proper(op)
  {
    match op
    case ConfigOp(g, permitted) => Config(t, g, permitted).0
    case AddOp(boards, g, n, permitted) => Add(t, boards, g, n, permitted).0
    case RemoveOp(boards, g, n, permitted) => Remove(t, boards, g, n, permitted).0
    case DeleteOp(g, permitted) => Delete(t, g, permitted).0
  }

  lemma StepKeepsShape(t: seq<Group>, op: Op)
    requires Shaped(t) && Proper(op)
    ensures Shaped(Step(t, op))
  {}

  lemma StepKeepsInv(t: seq<Group>, op: Op)
    requires Inv(t) && Proper(op)
    ensures Inv(Step(t, op))
  {
    match op
    case ConfigOp(g, permitted) => ConfigKeepsInv(t, g, permitted);
    case AddOp(boards, g, n, permitted) => AddKeepsInvExactly(t, boards, g, n, permitted);
    case RemoveOp(boards, g, n, permitted) => RemoveKeepsInv(t, boards, g, n, permitted);
    case DeleteOp(g, permitted) => DeleteIsExact(t, g, permitted);
  }

  ghost predicate Run(states: seq<seq<Group>>, ops: seq<Op>) {
    && |states| == |ops| + 1
    && (forall k :: 0 <= k < |ops| ==> Proper(ops[k]) && Shaped(states[k]) && states[k + 1] == Step(states[k], ops[k]))
  }

  function Initial(): seq<Group> {
    seq(MAX_GROUP_NUM, _ => Group(0, seq(MAX_HANSI_NUM, _ => FREE)))
  }

  lemma InitialInv()
    ensures Inv(Initial())
  {
    assert forall i, n :: In(Initial(), i, n) ==> n == FREE;
  }

  // No pair of slot and instance in two cells of the whole table, at any time.
  lemma {:induction false} EveryRunIsDisjoint(states: seq<seq<Group>>, ops: seq<Op>, k: nat)
    requires Run(states, ops) && states[0] == Initial() && k < |states|
    ensures Inv(states[k])
  {
    if k == 0 {
      InitialInv();
    } else {
      EveryRunIsDisjoint(states, ops, k - 1);
      StepKeepsInv(states[k - 1], ops[k - 1]);
    }
  }
}
