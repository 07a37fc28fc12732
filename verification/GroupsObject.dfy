/** The table hmd_group, changed in place by the loops of the D-Bus handlers. */
module GroupsObject {
  import opened Lists
  import opened Groups

  class Table {
    var groups: seq<Group>

    ghost predicate Valid()
      reads this
    {
      Shaped(groups)
    }

    constructor ()
      ensures Valid() && groups == Initial()
    {
      groups := seq(MAX_GROUP_NUM, _ => Group(0, seq(MAX_HANSI_NUM, _ => FREE)));
    }

    method Config(g: nat, permitted: bool) returns (code: Code)
      requires Valid() && 0 < g < MAX_GROUP_NUM
      modifies this
      ensures Valid() && (groups, code) == Groups.Config(old(groups), g, permitted)
    {
      if !permitted { return Denied; }
      if groups[g].id == 0 { groups := groups[g := groups[g].(id := g)]; }
      return Success;
    }

    method Search(g: nat, n: Node) returns (k: nat)
      requires Valid() && g < MAX_GROUP_NUM
      ensures k == Find(groups[g].hansi, n)
    {
      k := 0;
      while k < MAX_HANSI_NUM
        invariant k <= MAX_HANSI_NUM
        invariant forall j :: 0 <= j < k ==> groups[g].hansi[j] != n
      {
        if groups[g].hansi[k] == n { break; }
        k := k + 1;
      }
    }

    method SearchOthers(g: nat, n: Node) returns (found: bool)
      requires Valid()
      ensures found == Elsewhere(groups, g, n)
    {
      var i := 1;
      while i < MAX_GROUP_NUM
        invariant 1 <= i <= MAX_GROUP_NUM
        invariant forall j :: 1 <= j < i && groups[j].id != 0 && groups[j].id != g ==> n !in groups[j].hansi
      {
        if groups[i].id != 0 && groups[i].id != g {
          var k := Search(i, n);
          if k < MAX_HANSI_NUM { return true; }
        }
        i := i + 1;
      }
      return false;
    }

    method Add(boards: set<int>, g: nat, n: Node, permitted: bool) returns (code: Code)
      requires Valid() && g < MAX_GROUP_NUM
      modifies this
      ensures Valid() && (groups, code) == Groups.Add(old(groups), boards, g, n, permitted)
    {
      if OnBoard(boards, n.slot) {
        var k := Search(g, n);
        if k < MAX_HANSI_NUM { return AtOtherGroup; }
      }
      if !permitted { return Denied; }
      if !OnBoard(boards, n.slot) { return NoSlot; }
      var other := SearchOthers(g, n);
      if other { return AtOtherGroup; }
      var k := Search(g, FREE);
      if k < MAX_HANSI_NUM {
        groups := groups[g := Group(g, groups[g].hansi[k := n])];
      } else {
        assert groups[g := groups[g]] == groups;
      }
      return Success;
    }

    method Remove(boards: set<int>, g: nat, n: Node, permitted: bool) returns (code: Code)
      requires Valid() && g < MAX_GROUP_NUM
      modifies this
      ensures Valid() && (groups, code) == Groups.Remove(old(groups), boards, g, n, permitted)
    {
      if !permitted { return Denied; }
      if !OnBoard(boards, n.slot) { return NoSlot; }
      if groups[g].id != g { return Success; }
      var k := Search(g, n);
      if k < MAX_HANSI_NUM {
        groups := groups[g := groups[g].(hansi := groups[g].hansi[k := FREE])];
        return Success;
      }
      assert groups[g := groups[g]] == groups;
      return NotInGroup;
    }

    method Clear(i: nat)
      requires Valid() && i < MAX_GROUP_NUM
      modifies this
      ensures Valid() && groups == old(groups)[i := Cleared(old(groups)[i])]
    {
      ghost var was := groups[i].hansi;
      groups := groups[i := groups[i].(id := 0)];
      var j := 0;
      while j < MAX_HANSI_NUM
        invariant 0 <= j <= MAX_HANSI_NUM && Valid()
        invariant groups == old(groups)[i := groups[i]] && groups[i].id == 0
        invariant forall k :: 0 <= k < MAX_HANSI_NUM ==>
                    groups[i].hansi[k] == if k < j && was[k].slot != 0 then FREE else was[k]
      {
        if groups[i].hansi[j].slot != 0 {
          groups := groups[i := groups[i].(hansi := groups[i].hansi[j := FREE])];
        }
        j := j + 1;
      }
      assert groups[i].hansi == Cleared(old(groups)[i]).hansi;
    }

    method Delete(g: nat, permitted: bool) returns (code: Code)
      requires Valid() && g != 0
      modifies this
      ensures Valid() && (groups, code) == Groups.Delete(old(groups), g, permitted)
    {
      if !permitted { return Denied; }
      code := Success;
      ghost var was := groups;
      var i := 1;
      while i < MAX_GROUP_NUM
        invariant 1 <= i <= MAX_GROUP_NUM && Valid()
        invariant forall k :: 0 <= k < MAX_GROUP_NUM ==>
                    groups[k] == if 1 <= k < i && was[k].id == g then Cleared(was[k]) else was[k]
        invariant code == if i == MAX_GROUP_NUM && was[i - 1].id != g then NoSuchGroup else Success
      {
        if groups[i].id == g {
          Clear(i);
        } else if i == MAX_GROUP_NUM - 1 {
          code := NoSuchGroup;
        }
        i := i + 1;
      }
      assert groups == Groups.Delete(was, g, permitted).0;
    }
  }
}
