/**
  The slab allocator: blocks on three lists, a bump pointer and a recover list in every
  block, and one word per item that names the owner while the item is live and links
  the recover list while it is not.
*/
module MemCache {
  import opened Options
  import opened Lists
  import opened MemLayout

  // A pointer value: nothing, a block, or item i of a block.
  datatype Ptr = Null | Block(b: nat) | Item(b: nat, i: nat)

  // The user's handle of an item: its block and its place in the block.
  type Handle = (nat, nat)

  datatype Blk = Blk(freeNum: int, frist: Ptr, free: Ptr, recover: Ptr)

  datatype Cache = Cache(cfg: Config, blkNum: int, emptyNum: int,
                         full: seq<nat>, partial: seq<nat>, empty: seq<nat>,
                         blks: map<nat, Blk>, priv: map<Handle, Ptr>)

  // ---- the operations of the source ----

  function Remove(l: seq<nat>, b: nat): seq<nat> {
    if l == [] then [] else if l[0] == b then l[1..] else [l[0]] + Remove(l[1..], b)
  }

  // list_del does not say which list the block is on.
  function ListDel(s: Cache, b: nat): Cache {
    s.(full := Remove(s.full, b), partial := Remove(s.partial, b), empty := Remove(s.empty, b))
  }

  function AddFull(s: Cache, b: nat): Cache { s.(full := [b] + s.full) }
  function AddPartial(s: Cache, b: nat): Cache { s.(partial := [b] + s.partial) }
  function AddEmpty(s: Cache, b: nat): Cache { s.(empty := [b] + s.empty) }

  function Priv(s: Cache, h: Handle): Ptr { if h in s.priv then s.priv[h] else Null }
  function AsItem(p: Ptr): Handle { if p.Item? then (p.b, p.i) else (0, 0) }
  function AsBlock(p: Ptr): nat { if p.Block? then p.b else 0 }
  function BlkAt(s: Cache, b: nat): Blk { if b in s.blks then s.blks[b] else Blk(0, Null, Null, Null) }

  // mem_blk_create at the address that malloc returned
  function NewBlk(c: Config, b: nat): Blk { Blk(c.itemNum, Item(b, 0), Item(b, 0), Null) }

  // __get_free_item_blk
  function FreeBlk(s: Cache): Option<nat> {
    if s.partial != [] then Some(s.partial[0]) else if s.empty != [] then Some(s.empty[0]) else None
  }

  // __blk_alloc_item
  function TakenItem(s: Cache, b: nat): Handle {
    var blk := BlkAt(s, b);
    AsItem(if blk.recover != Null then blk.recover else blk.free)
  }

  function TakeItem(s: Cache, b: nat): Cache {
    var blk, h := BlkAt(s, b), TakenItem(s, b);
    var blk' := if blk.recover != Null then blk.(recover := Priv(s, h))
                else blk.(free := Item(h.0, h.1 + 1));
    s.(blks := s.blks[b := blk'.(freeNum := blk.freeNum - 1)], priv := s.priv[h := Block(b)])
  }

  // The list on which a block goes that is about to lose an item.
  function AddByOne(s: Cache, b: nat): Cache {
    if BlkAt(s, b).freeNum == 1 then AddFull(s, b) else AddPartial(s, b)
  }

  // mem_cache_alloc up to the choice of the block; m is what malloc returns, 0 for NULL.
  function Provide(s: Cache, m: nat): (Cache, Option<nat>) {
    match FreeBlk(s)
    case None =>
      if s.cfg.maxBlk == s.blkNum || m == 0 then (s, None)
      else (AddByOne(s.(blks := s.blks[m := NewBlk(s.cfg, m)], blkNum := s.blkNum + 1), m), Some(m))
    case Some(b) =>
      if BlkAt(s, b).freeNum == s.cfg.itemNum then
        (AddByOne(ListDel(s, b).(emptyNum := s.emptyNum - 1), b), Some(b))
      else if BlkAt(s, b).freeNum == 1 then (AddFull(ListDel(s, b), b), Some(b))
      else (s, Some(b))
  }

  // mem_cache_alloc
  function Alloc(s: Cache, m: nat): (Cache, Option<Handle>) {
    var (p, b) := Provide(s, m);
    if b.None? then (p, None) else (TakeItem(p, b.value), Some(TakenItem(p, b.value)))
  }

  // __blk_free_item
  function ReturnItem(s: Cache, b: nat, h: Handle): Cache {
    var blk := BlkAt(s, b);
    s.(priv := s.priv[h := blk.recover],
       blks := s.blks[b := blk.(recover := Item(h.0, h.1), freeNum := blk.freeNum + 1)])
  }

  // mem_cache_free
  function Free(s: Cache, h: Handle): Cache {
    var b := AsBlock(Priv(s, h));
    var r := ReturnItem(s, b, h);
    var blk := BlkAt(r, b);
    if blk.freeNum == s.cfg.itemNum then
      var d := ListDel(r, b);
      if s.emptyNum == s.cfg.maxEmpty then d.(blkNum := s.blkNum - 1, blks := r.blks - {b})
      else AddEmpty(d.(blks := r.blks[b := Blk(s.cfg.itemNum, blk.frist, blk.frist, Null)],
                       emptyNum := s.emptyNum + 1), b)
    else if blk.freeNum == 1 then AddPartial(ListDel(r, b), b)
    else r
  }

  // ---- what every run keeps ----

  // How a block is used: items handed out by the bump pointer, recovered items in
  // list order, live items.
  datatype Shape = Shape(bump: nat, recov: seq<nat>, live: set<nat>)

  // Where the recover list of block b starts, and where its k-th item points.
  function LinkTo(b: nat, recov: seq<nat>, k: nat): Ptr {
    if k < |recov| then Item(b, recov[k]) else Null
  }

  // Every item of the block is exactly one of live, recovered and not yet bumped.
  ghost predicate Partition(c: Config, s: Shape) {
    && s.bump <= c.itemNum
    && Distinct(s.recov)
    && (forall i: nat :: i in s.recov ==> i < s.bump)
    && (forall i: nat :: i in s.live <==> i < s.bump && i !in s.recov)
    && |s.live| + |s.recov| == s.bump
  }

  // The words of the items: a live one names its block, a recovered one the next.
  ghost predicate Words(priv: map<Handle, Ptr>, b: nat, s: Shape) {
    && (forall i: nat :: i in s.live ==> (b, i) in priv && priv[(b, i)] == Block(b))
    && (forall k :: 0 <= k < |s.recov| ==> (b, s.recov[k]) in priv && priv[(b, s.recov[k])] == LinkTo(b, s.recov, k + 1))
  }

  ghost predicate BlkInv(c: Config, priv: map<Handle, Ptr>, b: nat, blk: Blk, s: Shape) {
    && Partition(c, s) && Words(priv, b, s)
    && blk == Blk(c.itemNum - |s.live|, Item(b, 0), Item(b, s.bump), LinkTo(b, s.recov, 0))
  }

  // The list a block belongs on.
  datatype Home = Full | Partial | Empty

  function HomeOf(c: Config, blk: Blk): Home {
    if blk.freeNum == 0 then Full else if blk.freeNum < c.itemNum then Partial else Empty
  }

  // A list holds exactly the blocks whose free count belongs there, once each.
  ghost predicate Placed(c: Config, blks: map<nat, Blk>, l: seq<nat>, home: Home) {
    Distinct(l) && forall b :: b in l <==> b in blks && HomeOf(c, blks[b]) == home
  }

  ghost predicate ListsInv(s: Cache) {
    && Placed(s.cfg, s.blks, s.full, Full)
    && Placed(s.cfg, s.blks, s.partial, Partial)
    && Placed(s.cfg, s.blks, s.empty, Empty)
    && s.blkNum == |s.full| + |s.partial| + |s.empty|
    && s.emptyNum == |s.empty| <= s.cfg.maxEmpty
  }

  ghost predicate ShapesInv(c: Config, priv: map<Handle, Ptr>, blks: map<nat, Blk>, sh: map<nat, Shape>) {
    sh.Keys == blks.Keys && forall b :: b in blks ==> BlkInv(c, priv, b, blks[b], sh[b])
  }

  // The allocations that malloc handed out are apart from each other.
  ghost predicate RegionsInv(c: Config, blks: set<nat>) {
    0 !in blks && forall a, b :: a in blks && b in blks && a != b ==> Apart(a, b, Asked(c))
  }

  ghost predicate CfgOk(c: Config) {
    c.itemNum > 0 && 0 < c.machine.itemHdr <= c.itemSize && Needed(c) < 0x1_0000_0000
  }

  ghost predicate Inv(s: Cache, sh: map<nat, Shape>) {
    CfgOk(s.cfg) && ListsInv(s) && ShapesInv(s.cfg, s.priv, s.blks, sh) && RegionsInv(s.cfg, s.blks.Keys)
  }

  // What malloc promises: NULL, or an allocation apart from the others.
  ghost predicate MallocOk(s: Cache, m: nat) {
    m != 0 ==> m !in s.blks && forall b :: b in s.blks ==> Apart(m, b, Asked(s.cfg))
  }

  // Removing one element of a list without duplicates.
  lemma {:induction false} RemoveOne(l: seq<nat>, b: nat)
    requires Distinct(l)
    ensures Distinct(Remove(l, b))
    ensures forall x :: x in Remove(l, b) <==> x in l && x != b
    ensures |Remove(l, b)| == |l| - (if b in l then 1 else 0)
  {
    if l == [] {
    } else {
      var t := l[1..];
      assert l == [l[0]] + t && Distinct(t) && l[0] !in t;
      RemoveOne(t, b);
    }
  }

  // Moving block b to the list its new free count asks for.
  lemma Relist(c: Config, blks: map<nat, Blk>, blks': map<nat, Blk>, l: seq<nat>, home: Home, b: nat)
    requires Placed(c, blks, l, home)
    requires forall x :: x != b ==> (x in blks <==> x in blks') && (x in blks ==> HomeOf(c, blks[x]) == HomeOf(c, blks'[x]))
    ensures var l' := if b in blks' && HomeOf(c, blks'[b]) == home then [b] + Remove(l, b) else Remove(l, b);
            && Placed(c, blks', l', home)
            && |l'| == |l| - (if b in blks && HomeOf(c, blks[b]) == home then 1 else 0)
                       + (if b in blks' && HomeOf(c, blks'[b]) == home then 1 else 0)
  {
    RemoveOne(l, b);
  }

  lemma {:induction false} RemoveAbsent(l: seq<nat>, b: nat)
    requires b !in l
    ensures Remove(l, b) == l
  {
    if l != [] {
      RemoveAbsent(l[1..], b);
    }
  }

  // ---- one block ----

  ghost function Taken(s: Shape): nat { if s.recov != [] then s.recov[0] else s.bump }

  ghost function TakeShape(s: Shape): Shape {
    if s.recov != [] then Shape(s.bump, s.recov[1..], s.live + {s.recov[0]})
    else Shape(s.bump + 1, [], s.live + {s.bump})
  }

  ghost function GiveShape(s: Shape, i: nat): Shape { Shape(s.bump, [i] + s.recov, s.live - {i}) }

  lemma TakeKeepsPartition(c: Config, s: Shape)
    requires Partition(c, s) && |s.live| < c.itemNum
    ensures Partition(c, TakeShape(s)) && Taken(s) < c.itemNum && Taken(s) !in s.live
    ensures |TakeShape(s).live| == |s.live| + 1
  {
    if s.recov != [] {
      var x, t := s.recov[0], s.recov[1..];
      assert s.recov == [x] + t && Distinct(t);
      assert forall i: nat :: i in s.recov <==> i == x || i in t;
      assert x !in t;
    } else {
      assert s.bump == |s.live| && s.bump !in s.live;
    }
  }

  lemma TakeKeepsWords(c: Config, priv: map<Handle, Ptr>, b: nat, s: Shape)
    requires Partition(c, s) && Words(priv, b, s)
    ensures Words(priv[(b, Taken(s)) := Block(b)], b, TakeShape(s))
  {
    var t, priv', x := TakeShape(s), priv[(b, Taken(s)) := Block(b)], Taken(s);
    forall i: nat | i in t.live
      ensures (b, i) in priv' && priv'[(b, i)] == Block(b)
    {
      assert i == x || i in s.live;
    }
    forall k | 0 <= k < |t.recov|
      ensures (b, t.recov[k]) in priv' && priv'[(b, t.recov[k])] == LinkTo(b, t.recov, k + 1)
    {
      assert t.recov[k] == s.recov[k + 1] != s.recov[0] == x;
      assert LinkTo(b, t.recov, k + 1) == LinkTo(b, s.recov, k + 2);
    }
  }

  lemma GiveKeepsPartition(c: Config, s: Shape, i: nat)
    requires Partition(c, s) && i in s.live
    ensures Partition(c, GiveShape(s, i)) && |GiveShape(s, i).live| == |s.live| - 1
  { }

  lemma GiveKeepsWords(c: Config, priv: map<Handle, Ptr>, b: nat, s: Shape, i: nat)
    requires Partition(c, s) && Words(priv, b, s) && i in s.live
    ensures Words(priv[(b, i) := LinkTo(b, s.recov, 0)], b, GiveShape(s, i))
  {
    var t := GiveShape(s, i);
    assert forall k :: 1 <= k < |t.recov| ==> t.recov[k] == s.recov[k - 1];
  }

  // A block does not see the words of other blocks.
  lemma BlkFrame(c: Config, priv: map<Handle, Ptr>, h: Handle, p: Ptr, b: nat, blk: Blk, s: Shape)
    requires BlkInv(c, priv, b, blk, s) && h.0 != b
    ensures BlkInv(c, priv[h := p], b, blk, s)
  { }

  lemma NewBlkInv(c: Config, priv: map<Handle, Ptr>, b: nat)
    requires c.itemNum > 0
    ensures BlkInv(c, priv, b, NewBlk(c, b), Shape(0, [], {}))
  { }

  // ---- the whole cache ----

  ghost predicate IsLive(sh: map<nat, Shape>, h: Handle) { h.0 in sh && h.1 in sh[h.0].live }

  // The blocks when one of them has lost an item
  function Lowered(blks: map<nat, Blk>, b: nat): map<nat, Blk>
    requires b in blks
  {
    blks[b := blks[b].(freeNum := blks[b].freeNum - 1)]
  }

  // All three lists at once.
  lemma RelistAll(s: Cache, blks': map<nat, Blk>, b: nat)
    requires ListsInv(s) && b in blks'
    requires forall x :: x != b ==> (x in s.blks <==> x in blks') && (x in s.blks ==> HomeOf(s.cfg, s.blks[x]) == HomeOf(s.cfg, blks'[x]))
    ensures var d := ListDel(s, b);
            var t := match HomeOf(s.cfg, blks'[b])
                     case Full => AddFull(d, b) case Partial => AddPartial(d, b) case Empty => AddEmpty(d, b);
            && Placed(s.cfg, blks', t.full, Full)
            && Placed(s.cfg, blks', t.partial, Partial)
            && Placed(s.cfg, blks', t.empty, Empty)
            && |t.full| + |t.partial| + |t.empty| == s.blkNum + (if b in s.blks then 0 else 1)
            && |t.empty| == s.emptyNum - (if b in s.blks && HomeOf(s.cfg, s.blks[b]) == Empty then 1 else 0)
                            + (if HomeOf(s.cfg, blks'[b]) == Empty then 1 else 0)
  {
    Relist(s.cfg, s.blks, blks', s.full, Full, b);
    Relist(s.cfg, s.blks, blks', s.partial, Partial, b);
    Relist(s.cfg, s.blks, blks', s.empty, Empty, b);
  }

  lemma NewBlkLists(s: Cache, m: nat)
    requires CfgOk(s.cfg) && ListsInv(s) && m !in s.blks
    ensures var p := s.(blks := s.blks[m := NewBlk(s.cfg, m)], blkNum := s.blkNum + 1);
            ListsInv(AddByOne(p, m).(blks := Lowered(p.blks, m)))
  {
    RemoveAbsent(s.full, m);
    RemoveAbsent(s.partial, m);
    RemoveAbsent(s.empty, m);
    RelistAll(s, Lowered(s.blks[m := NewBlk(s.cfg, m)], m), m);
  }

  lemma EmptyBlkLists(s: Cache, b: nat)
    requires CfgOk(s.cfg) && ListsInv(s) && b in s.blks && s.blks[b].freeNum == s.cfg.itemNum
    ensures ListsInv(AddByOne(ListDel(s, b).(emptyNum := s.emptyNum - 1), b).(blks := Lowered(s.blks, b)))
  {
    RelistAll(s, Lowered(s.blks, b), b);
  }

  lemma LastItemLists(s: Cache, b: nat)
    requires CfgOk(s.cfg) && ListsInv(s) && b in s.blks && 1 == s.blks[b].freeNum < s.cfg.itemNum
    ensures ListsInv(AddFull(ListDel(s, b), b).(blks := Lowered(s.blks, b)))
  {
    RelistAll(s, Lowered(s.blks, b), b);
  }

  lemma SameHomeLists(s: Cache, b: nat, blks': map<nat, Blk>)
    requires ListsInv(s) && blks'.Keys == s.blks.Keys
    requires forall x :: x in s.blks ==> HomeOf(s.cfg, s.blks[x]) == HomeOf(s.cfg, blks'[x])
    ensures ListsInv(s.(blks := blks'))
  { }

  // The chosen block has room, and the lists are already right for it losing an item.
  lemma ProvideLists(s: Cache, m: nat)
    requires CfgOk(s.cfg) && ListsInv(s) && MallocOk(s, m) && Provide(s, m).1.Some?
    requires forall b :: b in s.blks ==> 0 <= s.blks[b].freeNum <= s.cfg.itemNum
    ensures var (p, ob) := Provide(s, m);
            && ob.value in p.blks && p.blks[ob.value].freeNum > 0
            && ListsInv(p.(blks := Lowered(p.blks, ob.value)))
  {
    match FreeBlk(s)
    case None => NewBlkLists(s, m);
    case Some(b) =>
      assert b in s.blks && HomeOf(s.cfg, s.blks[b]) != Full;
      if s.blks[b].freeNum == s.cfg.itemNum {
        EmptyBlkLists(s, b);
      } else if s.blks[b].freeNum == 1 {
        LastItemLists(s, b);
      } else {
        SameHomeLists(s, b, Lowered(s.blks, b));
      }
  }

  ghost function ProvideShapes(s: Cache, sh: map<nat, Shape>, m: nat): map<nat, Shape> {
    if FreeBlk(s).None? && Provide(s, m).1.Some? then sh[m := Shape(0, [], {})] else sh
  }

  lemma AddBlkShapes(c: Config, priv: map<Handle, Ptr>, blks: map<nat, Blk>, sh: map<nat, Shape>, m: nat)
    requires ShapesInv(c, priv, blks, sh) && c.itemNum > 0
    ensures ShapesInv(c, priv, blks[m := NewBlk(c, m)], sh[m := Shape(0, [], {})])
  {
    NewBlkInv(c, priv, m);
  }

  // One block's words and counts change, the others do not see it.
  lemma ReplaceBlkShapes(c: Config, priv: map<Handle, Ptr>, blks: map<nat, Blk>, sh: map<nat, Shape>,
                         h: Handle, p: Ptr, blk: Blk, shape: Shape)
    requires ShapesInv(c, priv, blks, sh) && h.0 in blks
    requires BlkInv(c, priv[h := p], h.0, blk, shape)
    ensures ShapesInv(c, priv[h := p], blks[h.0 := blk], sh[h.0 := shape])
  {
    forall x | x in blks && x != h.0
      ensures BlkInv(c, priv[h := p], x, blks[x], sh[x])
    {
      BlkFrame(c, priv, h, p, x, blks[x], sh[x]);
    }
  }

  // A block goes away; the others do not see it.
  lemma DropBlkShapes(c: Config, priv: map<Handle, Ptr>, blks: map<nat, Blk>, sh: map<nat, Shape>, h: Handle, p: Ptr)
    requires ShapesInv(c, priv, blks, sh)
    ensures ShapesInv(c, priv[h := p], blks - {h.0}, sh - {h.0})
  {
    forall x | x in blks && x != h.0
      ensures BlkInv(c, priv[h := p], x, blks[x], sh[x])
    {
      BlkFrame(c, priv, h, p, x, blks[x], sh[x]);
    }
  }

  lemma TakeKeepsBlk(c: Config, priv: map<Handle, Ptr>, b: nat, blk: Blk, s: Shape)
    requires BlkInv(c, priv, b, blk, s) && blk.freeNum > 0
    ensures Taken(s) < c.itemNum && Taken(s) !in s.live
    ensures var blk' := if s.recov != [] then blk.(recover := priv[(b, s.recov[0])]) else blk.(free := Item(b, s.bump + 1));
            BlkInv(c, priv[(b, Taken(s)) := Block(b)], b, blk'.(freeNum := blk.freeNum - 1), TakeShape(s))
  {
    TakeKeepsPartition(c, s);
    TakeKeepsWords(c, priv, b, s);
  }

  // The item that is taken, and what that does to the words and the block
  lemma TakeItemIs(p: Cache, s: Shape, b: nat)
    requires b in p.blks && BlkInv(p.cfg, p.priv, b, p.blks[b], s)
    ensures TakenItem(p, b) == (b, Taken(s))
    ensures var (q, blk) := (TakeItem(p, b), p.blks[b]);
            var blk' := if s.recov != [] then blk.(recover := p.priv[(b, s.recov[0])]) else blk.(free := Item(b, s.bump + 1));
            && q.cfg == p.cfg && q.priv == p.priv[(b, Taken(s)) := Block(b)]
            && q.blks == p.blks[b := blk'.(freeNum := blk.freeNum - 1)]
  {
    if s.recov != [] { assert LinkTo(b, s.recov, 0) == Item(b, s.recov[0]); }
  }

  lemma TakeKeepsShapes(p: Cache, sh: map<nat, Shape>, b: nat)
    requires ShapesInv(p.cfg, p.priv, p.blks, sh) && b in p.blks && p.blks[b].freeNum > 0
    ensures TakenItem(p, b) == (b, Taken(sh[b]))
    ensures Taken(sh[b]) < p.cfg.itemNum && Taken(sh[b]) !in sh[b].live
    ensures var q := TakeItem(p, b);
            && ShapesInv(q.cfg, q.priv, q.blks, sh[b := TakeShape(sh[b])])
            && q.blks[b].freeNum == p.blks[b].freeNum - 1
  {
    var q, h := TakeItem(p, b), (b, Taken(sh[b]));
    TakeItemIs(p, sh[b], b);
    TakeKeepsBlk(p.cfg, p.priv, b, p.blks[b], sh[b]);
    ReplaceBlkShapes(p.cfg, p.priv, p.blks, sh, h, Block(b), q.blks[b], TakeShape(sh[b]));
  }

  ghost function AllocShapes(s: Cache, sh: map<nat, Shape>, m: nat): map<nat, Shape> {
    var sh1, ob := ProvideShapes(s, sh, m), Provide(s, m).1;
    if ob.Some? && ob.value in sh1 then sh1[ob.value := TakeShape(sh1[ob.value])] else sh1
  }

  predicate Grows(s: Cache, m: nat) { FreeBlk(s).None? && s.cfg.maxBlk != s.blkNum && m != 0 }

  lemma ProvideIs(s: Cache, m: nat)
    ensures var (p, ob) := Provide(s, m);
            && p.cfg == s.cfg && p.priv == s.priv
            && p.blks == (if Grows(s, m) then s.blks[m := NewBlk(s.cfg, m)] else s.blks)
            && (ob.None? ==> p == s && !Grows(s, m))
  { }

  lemma ProvideKeepsShapes(s: Cache, sh: map<nat, Shape>, m: nat)
    requires CfgOk(s.cfg) && ShapesInv(s.cfg, s.priv, s.blks, sh)
    ensures var p := Provide(s, m).0;
            p.cfg == s.cfg && p.priv == s.priv && ShapesInv(p.cfg, p.priv, p.blks, ProvideShapes(s, sh, m))
  {
    ProvideIs(s, m);
    AddBlkShapes(s.cfg, s.priv, s.blks, sh, m);
  }

  lemma FreeCounts(s: Cache, sh: map<nat, Shape>)
    requires ShapesInv(s.cfg, s.priv, s.blks, sh)
    ensures forall b :: b in s.blks ==> 0 <= s.blks[b].freeNum <= s.cfg.itemNum
  {
    forall b | b in s.blks
      ensures 0 <= s.blks[b].freeNum <= s.cfg.itemNum
    {
      assert BlkInv(s.cfg, s.priv, b, s.blks[b], sh[b]);
    }
  }

  // What Provide leaves behind when it finds a block with room.
  ghost predicate ReadyToTake(p: Cache, sh: map<nat, Shape>, b: nat) {
    && CfgOk(p.cfg) && ShapesInv(p.cfg, p.priv, p.blks, sh) && RegionsInv(p.cfg, p.blks.Keys)
    && b in p.blks && p.blks[b].freeNum > 0 && ListsInv(p.(blks := Lowered(p.blks, b)))
  }

  lemma ProvideIsReady(s: Cache, sh: map<nat, Shape>, m: nat)
    requires Inv(s, sh) && MallocOk(s, m) && Provide(s, m).1.Some?
    ensures ReadyToTake(Provide(s, m).0, ProvideShapes(s, sh, m), Provide(s, m).1.value)
  {
    FreeCounts(s, sh);
    ProvideLists(s, m);
    ProvideKeepsShapes(s, sh, m);
    ProvideKeepsRegions(s, m);
  }

  lemma ProvideKeepsRegions(s: Cache, m: nat)
    requires RegionsInv(s.cfg, s.blks.Keys) && MallocOk(s, m)
    ensures RegionsInv(s.cfg, Provide(s, m).0.blks.Keys)
  {
    var k := Provide(s, m).0.blks.Keys;
    assert k == s.blks.Keys || (m != 0 && k == s.blks.Keys + {m});
  }

  lemma LiveAfterTake(sh: map<nat, Shape>, b: nat)
    requires b in sh
    ensures forall h: Handle :: IsLive(sh[b := TakeShape(sh[b])], h) <==> IsLive(sh, h) || h == (b, Taken(sh[b]))
  { }

  lemma TakeKeepsInv(p: Cache, sh: map<nat, Shape>, b: nat)
    requires ReadyToTake(p, sh, b)
    ensures Inv(TakeItem(p, b), sh[b := TakeShape(sh[b])])
    ensures var h := TakenItem(p, b);
            && h.1 < p.cfg.itemNum && !IsLive(sh, h)
            && forall x: Handle :: IsLive(sh[b := TakeShape(sh[b])], x) <==> IsLive(sh, x) || x == h
  {
    TakeKeepsShapes(p, sh, b);
    LiveAfterTake(sh, b);
    TakeKeepsLists(p, b);
  }

  lemma TakeKeepsLists(p: Cache, b: nat)
    requires b in p.blks && ListsInv(p.(blks := Lowered(p.blks, b)))
    ensures ListsInv(TakeItem(p, b)) && TakeItem(p, b).blks.Keys == p.blks.Keys
  {
    SameHomeLists(p.(blks := Lowered(p.blks, b)), b, TakeItem(p, b).blks);
  }

  lemma LiveAfterProvide(s: Cache, sh: map<nat, Shape>, m: nat)
    requires sh.Keys == s.blks.Keys && MallocOk(s, m)
    ensures forall h: Handle :: IsLive(ProvideShapes(s, sh, m), h) <==> IsLive(sh, h)
  { }

  // mem_cache_alloc keeps everything and makes exactly the returned item live.
  lemma AllocKeepsInv(s: Cache, sh: map<nat, Shape>, m: nat)
    requires Inv(s, sh) && MallocOk(s, m)
    ensures var (q, r) := Alloc(s, m); var sh' := AllocShapes(s, sh, m);
            && Inv(q, sh')
            && (r.Some? ==> r.value.1 < q.cfg.itemNum && !IsLive(sh, r.value))
            && (forall h: Handle :: IsLive(sh', h) <==> IsLive(sh, h) || r == Some(h))
  {
    var ob := Provide(s, m).1;
    ProvideIs(s, m);
    if ob.Some? {
      AllocTakes(s, sh, m, ob.value);
    }
  }

  lemma AllocTakes(s: Cache, sh: map<nat, Shape>, m: nat, b: nat)
    requires Inv(s, sh) && MallocOk(s, m) && Provide(s, m).1 == Some(b)
    ensures var (p, sh1) := (Provide(s, m).0, ProvideShapes(s, sh, m));
            b in sh1 && var sh' := sh1[b := TakeShape(sh1[b])];
            && Inv(TakeItem(p, b), sh')
            && TakenItem(p, b).1 < s.cfg.itemNum && !IsLive(sh, TakenItem(p, b))
            && (forall h: Handle :: IsLive(sh', h) <==> IsLive(sh, h) || h == TakenItem(p, b))
  {
    ProvideIs(s, m);
    LiveAfterProvide(s, sh, m);
    ProvideIsReady(s, sh, m);
    TakeKeepsInv(Provide(s, m).0, ProvideShapes(s, sh, m), b);
  }

  ghost function FreeShapes(s: Cache, sh: map<nat, Shape>, h: Handle): map<nat, Shape>
    requires h.0 in sh && h.0 in s.blks
  {
    if s.blks[h.0].freeNum + 1 != s.cfg.itemNum then sh[h.0 := GiveShape(sh[h.0], h.1)]
    else if s.emptyNum == s.cfg.maxEmpty then sh - {h.0}
    else sh[h.0 := Shape(0, [], {})]
  }

  lemma GiveKeepsBlk(c: Config, priv: map<Handle, Ptr>, b: nat, blk: Blk, s: Shape, i: nat)
    requires BlkInv(c, priv, b, blk, s) && i in s.live
    ensures BlkInv(c, priv[(b, i) := blk.recover], b,
                   blk.(recover := Item(b, i), freeNum := blk.freeNum + 1), GiveShape(s, i))
  {
    GiveKeepsPartition(c, s, i);
    GiveKeepsWords(c, priv, b, s, i);
  }

  // The word of a live item leads mem_cache_free to its block.
  lemma OwnerOf(c: Config, priv: map<Handle, Ptr>, blks: map<nat, Blk>, sh: map<nat, Shape>, h: Handle)
    requires ShapesInv(c, priv, blks, sh) && IsLive(sh, h)
    ensures h.0 in blks && h in priv && priv[h] == Block(h.0) && 0 <= blks[h.0].freeNum < c.itemNum
    ensures BlkInv(c, priv, h.0, blks[h.0], sh[h.0])
  { }

  function Returned(blk: Blk, h: Handle): Blk { blk.(recover := Item(h.0, h.1), freeNum := blk.freeNum + 1) }

  lemma ReturnKeepsShapes(c: Config, priv: map<Handle, Ptr>, blks: map<nat, Blk>, sh: map<nat, Shape>, h: Handle)
    requires ShapesInv(c, priv, blks, sh) && IsLive(sh, h) && h.0 in blks
    requires BlkInv(c, priv, h.0, blks[h.0], sh[h.0])
    ensures ShapesInv(c, priv[h := blks[h.0].recover], blks[h.0 := Returned(blks[h.0], h)],
                      sh[h.0 := GiveShape(sh[h.0], h.1)])
  {
    GiveKeepsBlk(c, priv, h.0, blks[h.0], sh[h.0], h.1);
    assert (h.0, h.1) == h;
    ReplaceBlkShapes(c, priv, blks, sh, h, blks[h.0].recover, Returned(blks[h.0], h), GiveShape(sh[h.0], h.1));
  }

  // What mem_cache_free does to the words and the blocks.
  lemma FreeIs(s: Cache, h: Handle)
    requires h in s.priv && s.priv[h] == Block(h.0) && h.0 in s.blks && s.blks[h.0].frist == Item(h.0, 0)
    ensures var q := Free(s, h); var blk := s.blks[h.0];
            && q.cfg == s.cfg && q.priv == s.priv[h := blk.recover]
            && q.blks == if blk.freeNum + 1 != s.cfg.itemNum then s.blks[h.0 := Returned(blk, h)]
                         else if s.emptyNum == s.cfg.maxEmpty then s.blks - {h.0}
                         else s.blks[h.0 := NewBlk(s.cfg, h.0)]
  { }

  lemma FreeKeepsShapes(s: Cache, sh: map<nat, Shape>, h: Handle)
    requires CfgOk(s.cfg) && ShapesInv(s.cfg, s.priv, s.blks, sh) && IsLive(sh, h)
    ensures h.0 in s.blks && ShapesInv(s.cfg, Free(s, h).priv, Free(s, h).blks, FreeShapes(s, sh, h))
  {
    var b, c := h.0, s.cfg;
    OwnerOf(c, s.priv, s.blks, sh, h);
    FreeIs(s, h);
    if s.blks[b].freeNum + 1 != c.itemNum {
      ReturnKeepsShapes(c, s.priv, s.blks, sh, h);
    } else if s.emptyNum == c.maxEmpty {
      DropBlkShapes(c, s.priv, s.blks, sh, h, s.blks[b].recover);
    } else {
      var p := s.blks[b].recover;
      NewBlkInv(c, s.priv[h := p], b);
      ReplaceBlkShapes(c, s.priv, s.blks, sh, h, p, NewBlk(c, b), Shape(0, [], {}));
    }
  }

  lemma LiveAfterFree(s: Cache, sh: map<nat, Shape>, h: Handle)
    requires ShapesInv(s.cfg, s.priv, s.blks, sh) && IsLive(sh, h) && h.0 in s.blks
    ensures forall x: Handle :: IsLive(FreeShapes(s, sh, h), x) <==> IsLive(sh, x) && x != h
  {
    OwnerOf(s.cfg, s.priv, s.blks, sh, h);
    if s.blks[h.0].freeNum + 1 == s.cfg.itemNum {
      assert sh[h.0].live == {h.1} by {
        assert |sh[h.0].live - {h.1}| == 0;
      }
    }
  }

  lemma FreeKeepsLists(s: Cache, h: Handle)
    requires CfgOk(s.cfg) && ListsInv(s) && AsBlock(Priv(s, h)) == h.0 && h.0 in s.blks
    requires 0 <= s.blks[h.0].freeNum < s.cfg.itemNum
    ensures ListsInv(Free(s, h)) && Free(s, h).blks.Keys <= s.blks.Keys
  {
    var b, q := h.0, Free(s, h);
    if s.blks[b].freeNum + 1 == s.cfg.itemNum {
      if s.emptyNum == s.cfg.maxEmpty {
        DestroyKeepsLists(s, b, q);
      } else {
        FreeToEmpty(s, b, q);
      }
    } else if s.blks[b].freeNum == 0 {
      FreeToPartial(s, b, q);
    } else {
      SameHomeLists(s, b, q.blks);
    }
  }

  lemma FreeToEmpty(s: Cache, b: nat, q: Cache)
    requires ListsInv(s) && b in s.blks && 0 <= s.blks[b].freeNum < s.cfg.itemNum && s.emptyNum < s.cfg.maxEmpty
    requires b in q.blks && q.blks == s.blks[b := q.blks[b]] && q.blks[b].freeNum == s.cfg.itemNum > 0
    requires q == AddEmpty(ListDel(s, b), b).(blks := q.blks, emptyNum := s.emptyNum + 1, priv := q.priv)
    ensures ListsInv(q)
  {
    RelistAll(s, q.blks, b);
    Relist(s.cfg, s.blks, q.blks, s.empty, Empty, b);
  }

  lemma FreeToPartial(s: Cache, b: nat, q: Cache)
    requires ListsInv(s) && b in s.blks && s.blks[b].freeNum == 0
    requires b in q.blks && q.blks == s.blks[b := q.blks[b]] && q.blks[b].freeNum == 1 < s.cfg.itemNum
    requires q == AddPartial(ListDel(s, b), b).(blks := q.blks, priv := q.priv)
    ensures ListsInv(q)
  {
    RelistAll(s, q.blks, b);
    Relist(s.cfg, s.blks, q.blks, s.empty, Empty, b);
  }

  // A block that was on the full or the partial list is given back.
  lemma DestroyKeepsLists(s: Cache, b: nat, q: Cache)
    requires ListsInv(s) && b in s.blks && 0 <= s.blks[b].freeNum < s.cfg.itemNum
    requires q.cfg == s.cfg && q.blks == s.blks - {b} && q.blkNum == s.blkNum - 1 && q.emptyNum == s.emptyNum
    requires q.full == Remove(s.full, b) && q.partial == Remove(s.partial, b) && q.empty == Remove(s.empty, b)
    ensures ListsInv(q)
  {
    Relist(s.cfg, s.blks, q.blks, s.full, Full, b);
    Relist(s.cfg, s.blks, q.blks, s.partial, Partial, b);
    Relist(s.cfg, s.blks, q.blks, s.empty, Empty, b);
  }

  // mem_cache_free of a live item keeps everything and makes exactly that item free.
  lemma FreeKeepsInv(s: Cache, sh: map<nat, Shape>, h: Handle)
    requires Inv(s, sh) && IsLive(sh, h)
    ensures h.0 in s.blks && Inv(Free(s, h), FreeShapes(s, sh, h)) && Free(s, h).cfg == s.cfg
    ensures forall x: Handle :: IsLive(FreeShapes(s, sh, h), x) <==> IsLive(sh, x) && x != h
  {
    OwnerOf(s.cfg, s.priv, s.blks, sh, h);
    FreeIs(s, h);
    FreeKeepsShapes(s, sh, h);
    FreeKeepsLists(s, h);
    LiveAfterFree(s, sh, h);
  }
}
