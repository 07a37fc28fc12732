/**
  The layer-2 multicast entries as a list of distinct keys, and what the operations mean
  for the set of keys. The group address is a parameter: IPv4 and IPv6 differ only there.
*/
module L2mcKeys {
  import opened Lists

  datatype Key<G> = Key(group: G, vlan: int, port: int, vidx: int)

  datatype Code = Ok | Error | OutOfRange | NoMemory

  // Which entries L2mc_Entry_Group_Delete is after.
  predicate Matches<G(==)>(k: Key<G>, group: G, vlan: int, vidx: int) {
    k.group == group && k.vlan == vlan && k.vidx == vidx
  }

  // L2mc_Entry_Insert
  function Insert<G(==)>(ks: seq<Key<G>>, k: Key<G>, max: nat, memory: bool): (seq<Key<G>>, Code) {
    if k in ks then (ks, Ok)
    else if |ks| >= max + 1 then (ks, OutOfRange)
    else if !memory then (ks, NoMemory)
    else ([k] + ks, Ok)
  }

  // L2mc_Entry_Node_Delete
  function NodeDelete<G(==)>(ks: seq<Key<G>>, k: Key<G>): seq<Key<G>> {
    var p := Find(ks, k);
    if p < |ks| then Drop(ks, p) else ks
  }

  function Without<G(==)>(ks: seq<Key<G>>, group: G, vlan: int, vidx: int): seq<Key<G>> {
    if ks == [] then []
    else
      var last := ks[|ks| - 1];
      Without(ks[..|ks| - 1], group, vlan, vidx) + (if Matches(last, group, vlan, vidx) then [] else [last])
  }

  // L2mc_Entry_Group_Delete: its loop leaves when it reaches the tail, before deleting it.
  function GroupDelete<G(==)>(ks: seq<Key<G>>, group: G, vlan: int, vidx: int): seq<Key<G>> {
    if ks == [] then [] else Without(ks[..|ks| - 1], group, vlan, vidx) + [ks[|ks| - 1]]
  }

  function Set<K>(ks: seq<K>): set<K> { set k | k in ks }

  // ---- the operations on the set of keys ----

  lemma InsertIsAdd<G>(ks: seq<Key<G>>, k: Key<G>, max: nat, memory: bool)
    requires Distinct(ks) && |ks| <= max + 1
    ensures var (r, code) := Insert(ks, k, max, memory);
            && Distinct(r) && |r| <= max + 1
            && (code == Ok ==> Set(r) == Set(ks) + {k})
            && (code != Ok ==> r == ks)
            && (code == OutOfRange <==> k !in ks && |ks| == max + 1)
            && (code == NoMemory <==> k !in ks && |ks| <= max && !memory)
            && (code == Ok || code == OutOfRange || code == NoMemory)
            && Insert(r, k, max, memory) == (r, code)
  {
    assert k in [k] + ks;
  }

  lemma DropIsRemove<K>(ks: seq<K>, p: nat)
    requires Distinct(ks) && p < |ks|
    ensures Distinct(Drop(ks, p)) && Set(Drop(ks, p)) == Set(ks) - {ks[p]}
  {
    var r := Drop(ks, p);
    assert forall i :: 0 <= i < |r| ==> r[i] == ks[if i < p then i else i + 1];
    forall i | 0 <= i < |ks| && i != p
      ensures ks[i] in r
    {
      assert r[if i < p then i else i - 1] == ks[i];
    }
  }

  lemma NodeDeleteIsRemove<G>(ks: seq<Key<G>>, k: Key<G>)
    requires Distinct(ks)
    ensures Distinct(NodeDelete(ks, k)) && |NodeDelete(ks, k)| <= |ks|
    ensures Set(NodeDelete(ks, k)) == Set(ks) - {k}
  {
    var p := Find(ks, k);
    if p < |ks| {
      DropIsRemove(ks, p);
    }
  }

  lemma {:induction false} WithoutIsFilter<G>(ks: seq<Key<G>>, group: G, vlan: int, vidx: int)
    requires Distinct(ks)
    ensures var r := Without(ks, group, vlan, vidx);
            && Distinct(r) && |r| <= |ks|
            && forall k :: k in r <==> k in ks && !Matches(k, group, vlan, vidx)
  {
    if ks != [] {
      var init, last := ks[..|ks| - 1], ks[|ks| - 1];
      WithoutIsFilter(init, group, vlan, vidx);
      assert ks == init + [last];
      assert last !in init;
    }
  }

  // Group delete as written: every matching entry goes, except a matching tail.
  lemma GroupDeleteSparesTail<G>(ks: seq<Key<G>>, group: G, vlan: int, vidx: int)
    requires Distinct(ks) && ks != []
    ensures var r := GroupDelete(ks, group, vlan, vidx);
            && Distinct(r) && |r| <= |ks|
            && forall k :: k in r <==> k in ks && (!Matches(k, group, vlan, vidx) || k == ks[|ks| - 1])
  {
    var init, last := ks[..|ks| - 1], ks[|ks| - 1];
    assert ks == init + [last] && last !in init;
    WithoutIsFilter(init, group, vlan, vidx);
  }

  // It does what its name says exactly when the tail does not match.
  lemma GroupDeleteIsCompleteExactly<G>(ks: seq<Key<G>>, group: G, vlan: int, vidx: int)
    requires Distinct(ks)
    ensures (forall k :: k in GroupDelete(ks, group, vlan, vidx) ==> !Matches(k, group, vlan, vidx))
            <==> (ks == [] || !Matches(ks[|ks| - 1], group, vlan, vidx))
  {
    if ks != [] {
      GroupDeleteSparesTail(ks, group, vlan, vidx);
      assert ks[|ks| - 1] in ks;
    }
  }

  // ---- runs ----

  datatype Op<G> =
    | InsertOp(k: Key<G>, memory: bool)
    | NodeDeleteOp(k: Key<G>)
    | GroupDeleteOp(group: G, vlan: int, vidx: int)
    | DeleteAllOp

  function Step<G(==)>(ks: seq<Key<G>>, op: Op<G>, max: nat): seq<Key<G>> {
    match op
    case InsertOp(k, memory) => Insert(ks, k, max, memory).0
    case NodeDeleteOp(k) => NodeDelete(ks, k)
    case GroupDeleteOp(group, vlan, vidx) => GroupDelete(ks, group, vlan, vidx)
    case DeleteAllOp => []
  }

  function Run<G(==)>(ops: seq<Op<G>>, max: nat): seq<Key<G>> {
    if ops == [] then [] else Step(Run(ops[..|ops| - 1], max), ops[|ops| - 1], max)
  }

  // Over every run no key is entered twice and the capacity holds, so the counter that
  // bounds every traversal never trips.
  lemma {:induction false} EveryRunIsWithinCapacity<G>(ops: seq<Op<G>>, max: nat)
    ensures Distinct(Run(ops, max)) && |Run(ops, max)| <= max + 1
  {
    if ops != [] {
      var ks := Run(ops[..|ops| - 1], max);
      EveryRunIsWithinCapacity(ops[..|ops| - 1], max);
      match ops[|ops| - 1]
      case InsertOp(k, memory) => InsertIsAdd(ks, k, max, memory);
      case NodeDeleteOp(k) => NodeDeleteIsRemove(ks, k);
      case GroupDeleteOp(group, vlan, vidx) =>
        if ks != [] {
          GroupDeleteSparesTail(ks, group, vlan, vidx);
        }
      case DeleteAllOp =>
    }
  }

  // ---- the order of the entries ----

  // When each key was last entered, as a number of operations
  function Entered<G(==)>(ops: seq<Op<G>>, max: nat): map<Key<G>, nat> {
    if ops == [] then map[]
    else
      var before, ks, op := Entered(ops[..|ops| - 1], max), Run(ops[..|ops| - 1], max), ops[|ops| - 1];
      if op.InsertOp? && op.k !in ks && Insert(ks, op.k, max, op.memory).1 == Ok
      then before[op.k := |ops| - 1] else before
  }

  ghost predicate NewestFirst<G>(ks: seq<Key<G>>, at: map<Key<G>, nat>) {
    && (forall i :: 0 <= i < |ks| ==> ks[i] in at)
    && (forall i, j :: 0 <= i < j < |ks| ==> at[ks[i]] > at[ks[j]])
  }

  lemma DropKeepsOrder<G>(ks: seq<Key<G>>, p: nat, at: map<Key<G>, nat>)
    requires NewestFirst(ks, at) && p < |ks|
    ensures NewestFirst(Drop(ks, p), at)
  {
    DropAt(ks, p);
  }

  lemma {:induction false} WithoutKeepsOrder<G>(ks: seq<Key<G>>, group: G, vlan: int, vidx: int, at: map<Key<G>, nat>)
    requires NewestFirst(ks, at)
    ensures NewestFirst(Without(ks, group, vlan, vidx), at)
    ensures forall k :: k in Without(ks, group, vlan, vidx) ==> k in ks
  {
    if ks != [] {
      var init, last := ks[..|ks| - 1], ks[|ks| - 1];
      WithoutKeepsOrder(init, group, vlan, vidx, at);
      SnocKeepsOrder(init, Without(init, group, vlan, vidx), last, at);
      assert ks == init + [last];
    }
  }

  lemma SnocKeepsOrder<G>(init: seq<Key<G>>, r: seq<Key<G>>, last: Key<G>, at: map<Key<G>, nat>)
    requires NewestFirst(init + [last], at) && NewestFirst(r, at) && forall k :: k in r ==> k in init
    ensures NewestFirst(r + [last], at)
  {
    var ks := init + [last];
    assert ks[|init|] == last;
    forall i | 0 <= i < |r| ensures at[r[i]] > at[last] {
      assert r[i] in init;
      var j :| 0 <= j < |init| && init[j] == r[i];
      assert ks[j] == r[i];
    }
  }

  lemma InsertKeepsOrder<G>(ks: seq<Key<G>>, k: Key<G>, at: map<Key<G>, nat>, now: nat)
    requires NewestFirst(ks, at) && k !in ks && forall x :: x in at ==> at[x] < now
    ensures NewestFirst([k] + ks, at[k := now])
  {
    var r, m := [k] + ks, at[k := now];
    forall i | 0 <= i < |r| ensures r[i] in m && m[r[i]] == (if i == 0 then now else at[ks[i - 1]]) {
      if i > 0 { assert r[i] == ks[i - 1]; }
    }
  }

  lemma GroupDeleteKeepsOrder<G>(ks: seq<Key<G>>, group: G, vlan: int, vidx: int, at: map<Key<G>, nat>)
    requires NewestFirst(ks, at)
    ensures NewestFirst(GroupDelete(ks, group, vlan, vidx), at)
  {
    if ks != [] {
      var init, last := ks[..|ks| - 1], ks[|ks| - 1];
      assert ks == init + [last];
      assert forall i :: 0 <= i < |init| ==> init[i] == ks[i];
      WithoutKeepsOrder(init, group, vlan, vidx, at);
      SnocKeepsOrder(init, Without(init, group, vlan, vidx), last, at);
    }
  }

  // In every run the list is in the order of entry, the newest entry at the head: an entry
  // that comes anew goes first, and deletions keep the order of the rest.
  lemma {:induction false} EveryRunIsNewestFirst<G>(ops: seq<Op<G>>, max: nat)
    ensures NewestFirst(Run(ops, max), Entered(ops, max))
    ensures forall k :: k in Entered(ops, max) ==> Entered(ops, max)[k] < |ops|
  {
    if ops != [] {
      var ks, at := Run(ops[..|ops| - 1], max), Entered(ops[..|ops| - 1], max);
      EveryRunIsNewestFirst(ops[..|ops| - 1], max);
      match ops[|ops| - 1]
      case InsertOp(k, memory) => if k !in ks { InsertKeepsOrder(ks, k, at, |ops| - 1); }
      case NodeDeleteOp(k) => if Find(ks, k) < |ks| { DropKeepsOrder(ks, Find(ks, k), at); }
      case GroupDeleteOp(group, vlan, vidx) => GroupDeleteKeepsOrder(ks, group, vlan, vidx, at);
      case DeleteAllOp =>
    }
  }

  // So the first entry of a group, which L2mc_Entry_GetVidx reports, is its newest one, and
  // the tail that group delete spares is the oldest of all.
  lemma FirstIsNewest<G>(ops: seq<Op<G>>, max: nat, p: nat, q: nat)
    requires p < q < |Run(ops, max)|
    ensures var (ks, at) := (Run(ops, max), Entered(ops, max));
            ks[p] in at && ks[q] in at && at[ks[q]] < at[ks[p]]
  {
    EveryRunIsNewestFirst(ops, max);
  }
}
