/** The linked list of the source: its ends point at themselves, and a counter goes along. */
module L2mcList {
  import opened Lists
  import opened L2mcKeys

  class Node<G(!new, ==)> {
    const key: Key<G>
    var next: Node<G>
    var prev: Node<G>

    // An entry on its own points at itself both ways.
    constructor (key: Key<G>)
      ensures this.key == key && next == this && prev == this
    {
      this.key := key;
      next, prev := this, this;
    }
  }

  class Entries<G(!new, ==)> {
    const max: nat
    var head: Node?<G>
    var count: int
    ghost var nodes: seq<Node<G>>
    ghost var keys: seq<Key<G>>

    ghost predicate Linked()
      reads this, nodes
    {
      && Distinct(nodes)
      && (nodes == [] ==> head == null)
      && (nodes != [] ==> head == nodes[0] && nodes[0].prev == nodes[0] && nodes[|nodes| - 1].next == nodes[|nodes| - 1])
      && (forall i {:trigger nodes[i].prev} :: 1 <= i < |nodes| ==> nodes[i].prev == nodes[i - 1])
      && (forall i {:trigger nodes[i].next} :: 0 <= i < |nodes| - 1 ==> nodes[i].next == nodes[i + 1])
    }

    ghost predicate Valid()
      reads this, nodes
    {
      && Linked() && count == |nodes| == |keys| <= max + 1
      && (forall i :: 0 <= i < |nodes| ==> nodes[i].key == keys[i])
    }

    constructor (max: nat)
      ensures Valid() && keys == [] && nodes == [] && this.max == max
    {
      this.max := max;
      head, count, nodes, keys := null, 0, [], [];
    }

    // The search loop of insert and node delete. The counter never reaches its limit.
    method Lookup(k: Key<G>) returns (t: Node?<G>, code: Code, ghost p: nat)
      requires Valid()
      ensures code == Ok && p == Find(keys, k)
      ensures if p < |keys| then t == nodes[p] else t == null
    {
      t, p := head, 0;
      var seen := 0;
      while t != null
        invariant seen == p && (if nodes == [] then t == null && p == 0 else p < |nodes| && t == nodes[p])
        invariant forall i :: 0 <= i < p ==> keys[i] != k
        decreases |nodes| - p
      {
        if seen >= max + 1 {
          return t, OutOfRange, p;
        }
        seen := seen + 1;
        if t.key == k {
          FindIs(keys, k, p);
          return t, Ok, p;
        }
        if t == t.next {
          FindIs(keys, k, |keys|);
          return null, Ok, |keys|;
        }
        t, p := t.next, p + 1;
      }
      return null, Ok, 0;
    }

    method LinkHead(t: Node<G>)
      requires Linked() && t !in nodes && t.next == t && t.prev == t
      modifies this`head, this`nodes, nodes`prev, t`next
      ensures Linked() && nodes == [t] + old(nodes)
    {
      if head != null {
        head.prev := t;
        t.next := head;
      }
      head := t;
      nodes := [t] + nodes;
    }

    method AddHead(t: Node<G>)
      requires Valid() && t !in nodes && t.next == t && t.prev == t && |nodes| <= max
      modifies this`head, this`count, this`nodes, this`keys, nodes`prev, t`next
      ensures Valid() && keys == [t.key] + old(keys) && forall n :: n in nodes ==> n in old(nodes) || n == t
    {
      LinkHead(t);
      count := count + 1;
      keys := [t.key] + keys;
    }

    // L2mc_Entry_Insert
    method Insert(k: Key<G>, memory: bool) returns (code: Code)
      requires Valid()
      modifies this`head, this`count, this`nodes, this`keys, nodes`prev
      ensures Valid() && forall n :: n in nodes ==> n in old(nodes) || fresh(n)
      ensures (keys, code) == L2mcKeys.Insert(old(keys), k, max, memory)
    {
      FindsExactly(keys, k);
      var t, c, p := Lookup(k);
      if c != Ok {
        return c;
      }
      if t == null {
        if head != null && count >= max + 1 {
          return OutOfRange;
        }
        if !memory {
          return NoMemory;
        }
        var entry := new Node(k);
        AddHead(entry);
      }
      code := Ok;
    }

    // The unlink cases: first, last, between two.
    method Unlink(t: Node<G>, ghost p: nat, ghost own: set<Node<G>>)
      requires Linked() && p < |nodes| && nodes[p] == t && |nodes| > 1
      requires forall n :: n in nodes ==> n in own
      modifies this`head, this`nodes, own`next, own`prev
      ensures Linked() && nodes == Drop(old(nodes), p)
    {
      ghost var was := nodes;
      if t == t.prev {
        t.next.prev := t.next;
        head := t.next;
      } else if t == t.next {
        t.prev.next := t.prev;
      } else {
        t.prev.next := t.next;
        t.next.prev := t.prev;
      }
      nodes := Drop(was, p);
      DropAt(was, p);
      DropDistinct(was, p);
      forall i | 1 <= i < |nodes| ensures nodes[i].prev == nodes[i - 1] {
        if i >= p { assert old(was[i + 1].prev) == was[i]; } else { assert old(was[i].prev) == was[i - 1]; }
      }
      forall i | 0 <= i < |nodes| - 1 ensures nodes[i].next == nodes[i + 1] {
        if i >= p { assert old(was[i + 1].next) == was[i + 2]; } else { assert old(was[i].next) == was[i + 1]; }
      }
    }

    // Unlink, free, count, and forget the head with the last entry.
    method Delete(t: Node<G>, ghost p: nat, ghost own: set<Node<G>>)
      requires Valid() && p < |nodes| && nodes[p] == t
      requires forall n :: n in nodes ==> n in own
      modifies this`head, this`count, this`nodes, this`keys, own`next, own`prev
      ensures Valid() && nodes == Drop(old(nodes), p) && keys == Drop(old(keys), p)
    {
      if !(t == t.prev && t == t.next) {
        Unlink(t, p, own);
      } else {
        nodes := Drop(nodes, p);
      }
      keys := Drop(keys, p);
      count := count - 1;
      if count == 0 {
        head := null;
      }
    }

    // L2mc_Entry_Node_Delete
    method NodeDelete(k: Key<G>) returns (code: Code)
      requires Valid()
      modifies this`head, this`count, this`nodes, this`keys, nodes`next, nodes`prev
      ensures Valid() && forall n :: n in nodes ==> n in old(nodes)
      ensures code == Ok && keys == L2mcKeys.NodeDelete(old(keys), k)
    {
      var t, c, p := Lookup(k);
      if c != Ok {
        return c;
      }
      if t != null {
        Delete(t, p, set n | n in nodes);
      }
      code := Ok;
    }

    // One round of L2mc_Entry_Group_Delete at an entry that is not the tail: step on, then
    // delete the entry behind if it matches. At least the tail remains.
    method Pass(t: Node<G>, group: G, vlan: int, vidx: int, ghost d: nat, ghost own: set<Node<G>>)
      returns (u: Node<G>)
      requires Valid() && d + 1 < |nodes| && nodes[d] == t && forall n :: n in nodes ==> n in own
      modifies this`head, this`count, this`nodes, this`keys, own`next, own`prev
      ensures Valid() && forall n :: n in nodes ==> n in own
      ensures var gone := Matches(old(keys)[d], group, vlan, vidx);
              && keys == (if gone then Drop(old(keys), d) else old(keys))
              && var d' := if gone then d else d + 1; d' < |nodes| && u == nodes[d']
    {
      u := t.next;
      if Matches(t.key, group, vlan, vidx) {
        Delete(t, d, own);
      }
    }

    // L2mc_Entry_Group_Delete
    method GroupDelete(group: G, vlan: int, vidx: int) returns (code: Code)
      requires Valid()
      modifies this`head, this`count, this`nodes, this`keys, nodes`next, nodes`prev
      ensures Valid() && forall n :: n in nodes ==> n in old(nodes)
      ensures code == Ok && keys == L2mcKeys.GroupDelete(old(keys), group, vlan, vidx)
    {
      if head == null {
        return Ok;
      }
      var t: Node<G> := head;
      var seen := 0;
      ghost var own := set n | n in nodes;
      ghost var d := 0;
      assert keys[..0] == [] && keys[0..] == keys;
      while true
        invariant Valid() && forall n :: n in nodes ==> n in own
        invariant d < |nodes| && t == nodes[d] && 0 <= seen < |old(keys)|
        invariant Progress(old(keys), seen, keys, d, group, vlan, vidx)
        decreases |old(keys)| - seen
      {
        if seen >= max + 1 {
          return OutOfRange;
        }
        if t == t.next {
          ProgressEnd(old(keys), seen, keys, d, group, vlan, vidx);
          return Ok;
        }
        ProgressStep(old(keys), seen, keys, d, group, vlan, vidx);
        ghost var gone := Matches(keys[d], group, vlan, vidx);
        t := Pass(t, group, vlan, vidx, d, own);
        d := if gone then d else d + 1;
        seen := seen + 1;
      }
    }

    // L2mc_Entry_Group_Delete_All. It always unlinks the head, so of its unlink cases only
    // the first ever applies; there they agree with those of the other deletions.
    method DeleteAll() returns (code: Code)
      requires Valid()
      modifies this`head, this`count, this`nodes, this`keys, nodes`next, nodes`prev
      ensures Valid() && code == Ok && keys == [] && nodes == []
    {
      var t := head;
      var seen := 0;
      ghost var own := set n | n in nodes;
      while t != null
        invariant Valid() && forall n :: n in nodes ==> n in own
        invariant nodes == [] ==> t == null
        invariant nodes != [] ==> t == nodes[0]
        invariant seen + |nodes| == |old(nodes)|
        decreases |nodes|
      {
        if seen >= max + 1 {
          return Error;
        }
        seen := seen + 1;
        var entry := t;
        t := t.next;
        Delete(entry, 0, own);
        if count == 0 {
          head := null;
          break;
        }
      }
      code := Ok;
    }

    // L2mc_Entry_GetVidx: the first entry of the vlan and group decides.
    method GetVidx(vlan: int, group: G) returns (code: Code, vidx: int)
      requires Valid()
      ensures code == Ok || (code == Error && vidx == 0)
      ensures code == Ok <==> exists p :: 0 <= p < |keys| && OfGroup(keys[p], vlan, group)
      ensures code == Ok ==>
        exists p :: (0 <= p < |keys| && OfGroup(keys[p], vlan, group) && keys[p].vidx == vidx
                     && forall i :: 0 <= i < p ==> !OfGroup(keys[i], vlan, group))
    {
      var t := head;
      var seen := 0;
      while t != null
        invariant if nodes == [] then t == null && seen == 0 else seen < |nodes| && t == nodes[seen]
        invariant forall i :: 0 <= i < seen ==> !OfGroup(keys[i], vlan, group)
        decreases |nodes| - seen
      {
        if seen >= max + 1 {
          return OutOfRange, 0;
        }
        if OfGroup(t.key, vlan, group) {
          return Ok, t.key.vidx;
        }
        if t == t.next {
          return Error, 0;
        }
        t, seen := t.next, seen + 1;
      }
      return Error, 0;
    }
  }

  predicate OfGroup<G(==)>(k: Key<G>, vlan: int, group: G) { k.vlan == vlan && k.group == group }

  lemma WithoutSnoc<G>(pre: seq<Key<G>>, k: Key<G>, group: G, vlan: int, vidx: int)
    ensures Without(pre + [k], group, vlan, vidx)
            == Without(pre, group, vlan, vidx) + (if Matches(k, group, vlan, vidx) then [] else [k])
  {
    assert (pre + [k])[..|pre|] == pre;
  }

  // Halfway through a group delete: the first seen keys have been sifted into the first d.
  ghost predicate Progress<G>(was: seq<Key<G>>, seen: nat, keys: seq<Key<G>>, d: nat, group: G, vlan: int, vidx: int) {
    && seen < |was| && d < |keys|
    && keys[..d] == Without(was[..seen], group, vlan, vidx) && keys[d..] == was[seen..]
  }

  lemma ProgressStep<G>(was: seq<Key<G>>, seen: nat, keys: seq<Key<G>>, d: nat, group: G, vlan: int, vidx: int)
    requires Progress(was, seen, keys, d, group, vlan, vidx) && d + 1 < |keys|
    ensures var gone := Matches(keys[d], group, vlan, vidx);
            Progress(was, seen + 1, if gone then Drop(keys, d) else keys, if gone then d else d + 1, group, vlan, vidx)
    ensures |was| - seen == |keys| - d
  {
    assert |was[seen..]| == |keys[d..]|;
    assert keys[d] == keys[d..][0] == was[seen..][0] == was[seen];
    assert was[..seen + 1] == was[..seen] + [was[seen]];
    WithoutSnoc(was[..seen], was[seen], group, vlan, vidx);
    assert keys[d + 1..] == keys[d..][1..] && was[seen + 1..] == was[seen..][1..];
    if Matches(keys[d], group, vlan, vidx) {
      assert Drop(keys, d)[..d] == keys[..d] && Drop(keys, d)[d..] == keys[d + 1..];
    } else {
      assert keys[..d + 1] == keys[..d] + [keys[d]];
    }
  }

  lemma ProgressEnd<G>(was: seq<Key<G>>, seen: nat, keys: seq<Key<G>>, d: nat, group: G, vlan: int, vidx: int)
    requires Progress(was, seen, keys, d, group, vlan, vidx) && d + 1 == |keys|
    ensures keys == L2mcKeys.GroupDelete(was, group, vlan, vidx)
  {
    assert |was[seen..]| == |keys[d..]| == 1;
    assert keys == keys[..d] + keys[d..] && was[seen..] == [was[|was| - 1]];
  }

}
