/** Whole runs of the allocator: a cache refines the set of live handles. */
module MemCacheRuns {
  import opened Options
  import opened Lists
  import opened MemLayout
  import opened MemCache

  datatype Op = AllocOp(m: nat) | FreeOp(h: Handle)

  // The cache, and beside it the handles a user holds.
  datatype Sys = Sys(cache: Cache, live: set<Handle>)

  function Step(y: Sys, op: Op): Sys {
    match op
    case AllocOp(m) =>
      var (q, r) := Alloc(y.cache, m);
      Sys(q, if r.Some? then y.live + {r.value} else y.live)
    case FreeOp(h) => Sys(Free(y.cache, h), y.live - {h})
  }

  function Run(y: Sys, ops: seq<Op>): Sys {
    if ops == [] then y else Step(Run(y, ops[..|ops| - 1]), ops[|ops| - 1])
  }

  // malloc keeps its promise, and only live items are freed.
  ghost predicate Allowed(y: Sys, op: Op) {
    match op
    case AllocOp(m) => MallocOk(y.cache, m)
    case FreeOp(h) => h in y.live
  }

  ghost predicate AllowedRun(y: Sys, ops: seq<Op>) {
    ops == [] ||
    (AllowedRun(y, ops[..|ops| - 1]) && Allowed(Run(y, ops[..|ops| - 1]), ops[|ops| - 1]))
  }

  ghost predicate SysInv(y: Sys, sh: map<nat, Shape>) {
    Inv(y.cache, sh) && forall h: Handle :: h in y.live <==> IsLive(sh, h)
  }

  ghost predicate Bounded(s: Cache) { s.blkNum <= s.cfg.maxBlk }

  lemma StepKeepsInv(y: Sys, sh: map<nat, Shape>, op: Op) returns (sh': map<nat, Shape>)
    requires SysInv(y, sh) && Allowed(y, op)
    ensures SysInv(Step(y, op), sh')
  {
    match op
    case AllocOp(m) =>
      AllocKeepsInv(y.cache, sh, m);
      sh' := AllocShapes(y.cache, sh, m);
    case FreeOp(h) =>
      FreeKeepsInv(y.cache, sh, h);
      sh' := FreeShapes(y.cache, sh, h);
  }

  lemma ConfigIsFixed(y: Sys, op: Op)
    ensures Step(y, op).cache.cfg == y.cache.cfg
  { }

  lemma StepKeepsBound(y: Sys, op: Op)
    requires Bounded(y.cache)
    ensures Bounded(Step(y, op).cache)
  { }

  // Every run keeps the invariant, and the capacity if it starts within it.
  lemma {:induction false} RunKeepsInv(y: Sys, sh: map<nat, Shape>, ops: seq<Op>) returns (sh': map<nat, Shape>)
    requires SysInv(y, sh) && AllowedRun(y, ops)
    ensures SysInv(Run(y, ops), sh') && Run(y, ops).cache.cfg == y.cache.cfg
    ensures Bounded(y.cache) ==> Bounded(Run(y, ops).cache)
  {
    if ops == [] {
      sh' := sh;
    } else {
      var init, op := ops[..|ops| - 1], ops[|ops| - 1];
      var sh1 := RunKeepsInv(y, sh, init);
      sh' := StepKeepsInv(Run(y, init), sh1, op);
      ConfigIsFixed(Run(y, init), op);
      if Bounded(y.cache) {
        StepKeepsBound(Run(y, init), op);
      }
    }
  }

  // ---- what the invariant means for the user ----

  // A live item lies inside its block's allocation and its word names the block.
  lemma LiveItemIsInside(y: Sys, sh: map<nat, Shape>, h: Handle)
    requires SysInv(y, sh) && h in y.live
    ensures h.0 in y.cache.blks && Priv(y.cache, h) == Block(h.0)
    ensures h.1 < y.cache.cfg.itemNum && Inside(y.cache.cfg, h.0, h.1)
  {
    OwnerOf(y.cache.cfg, y.cache.priv, y.cache.blks, sh, h);
    assert Partition(y.cache.cfg, sh[h.0]);
    ItemInside(y.cache.cfg, h.0, h.1);
  }

  // No two live items overlap.
  lemma LiveItemsAreApart(y: Sys, sh: map<nat, Shape>, g: Handle, h: Handle)
    requires SysInv(y, sh) && g in y.live && h in y.live && g != h
    ensures var c := y.cache.cfg; Apart(ItemAddress(c, g.0, g.1), ItemAddress(c, h.0, h.1), c.itemSize)
  {
    LiveItemIsInside(y, sh, g);
    LiveItemIsInside(y, sh, h);
    ItemsApart(y.cache.cfg, g.0, g.1, h.0, h.1);
  }

  // ---- capacity ----

  function Grid(l: seq<nat>, n: nat): set<Handle> { set b, i | b in l && 0 <= i < n :: (b, i) }

  function Row(b: nat, n: nat): set<Handle> { set i | 0 <= i < n :: (b, i) }

  lemma {:induction false} RowCard(b: nat, n: nat)
    ensures |Row(b, n)| == n
  {
    if n > 0 {
      RowCard(b, n - 1);
      assert Row(b, n) == Row(b, n - 1) + {(b, n - 1)};
      assert (b, n - 1) !in Row(b, n - 1);
    }
  }

  lemma GridCons(l: seq<nat>, n: nat)
    requires Distinct(l) && l != []
    ensures Distinct(l[1..]) && Grid(l, n) == Grid(l[1..], n) + Row(l[0], n) && Grid(l[1..], n) !! Row(l[0], n)
  {
    assert l == [l[0]] + l[1..];
  }

  lemma MulStep(k: nat, n: nat)
    ensures (k + 1) * n == k * n + n
  { }

  lemma {:induction false} GridCard(l: seq<nat>, n: nat)
    requires Distinct(l)
    ensures |Grid(l, n)| == |l| * n
  {
    if l == [] {
      assert Grid(l, n) == {};
    } else {
      GridCons(l, n);
      GridCard(l[1..], n);
      RowCard(l[0], n);
      MulStep(|l| - 1, n);
    }
  }

  lemma SubsetCard<T>(a: set<T>, b: set<T>)
    requires a <= b
    ensures |a| <= |b|
  {
    assert b == a + (b - a);
  }

  lemma DistinctConcat(a: seq<nat>, b: seq<nat>)
    requires Distinct(a) && Distinct(b) && forall x :: x in a ==> x !in b
    ensures Distinct(a + b)
  {
    var l := a + b;
    forall i, j | 0 <= i < j < |l|
      ensures l[i] != l[j]
    {
      if i < |a| <= j {
        assert l[i] in a && l[j] in b;
      }
    }
  }

  lemma AllBlocks(s: Cache)
    requires ListsInv(s)
    ensures var l := s.full + s.partial + s.empty;
            Distinct(l) && |l| == s.blkNum && forall b :: b in l <==> b in s.blks
  {
    DistinctConcat(s.full, s.partial);
    DistinctConcat(s.full + s.partial, s.empty);
    var l := s.full + s.partial + s.empty;
    forall b: nat
      ensures b in l <==> b in s.blks
    {
      assert b in l <==> b in s.full || b in s.partial || b in s.empty;
      if b in s.blks {
        var home := HomeOf(s.cfg, s.blks[b]);
        assert home == Full || home == Partial || home == Empty;
      }
    }
  }

  lemma LiveIsInGrid(y: Sys, sh: map<nat, Shape>)
    requires SysInv(y, sh)
    ensures y.live <= Grid(y.cache.full + y.cache.partial + y.cache.empty, y.cache.cfg.itemNum)
  {
    AllBlocks(y.cache);
    forall h | h in y.live
      ensures h in Grid(y.cache.full + y.cache.partial + y.cache.empty, y.cache.cfg.itemNum)
    {
      LiveItemIsInside(y, sh, h);
    }
  }

  // Never more live items than the blocks have.
  lemma LiveBound(y: Sys, sh: map<nat, Shape>)
    requires SysInv(y, sh)
    ensures y.cache.blkNum >= 0 && |y.live| <= y.cache.blkNum * y.cache.cfg.itemNum
  {
    var l := y.cache.full + y.cache.partial + y.cache.empty;
    AllBlocks(y.cache);
    LiveIsInGrid(y, sh);
    GridCard(l, y.cache.cfg.itemNum);
    SubsetCard(y.live, Grid(l, y.cache.cfg.itemNum));
  }

  lemma FullBlockIsAllLive(y: Sys, sh: map<nat, Shape>, b: nat, i: nat)
    requires SysInv(y, sh) && b in y.cache.full && i < y.cache.cfg.itemNum
    ensures (b, i) in y.live
  {
    assert b in y.cache.blks && BlkInv(y.cache.cfg, y.cache.priv, b, y.cache.blks[b], sh[b]);
    assert sh[b].recov == [];
    assert IsLive(sh, (b, i));
  }

  lemma RefusalMeansFull(y: Sys, sh: map<nat, Shape>, m: nat)
    requires SysInv(y, sh) && m != 0 && Alloc(y.cache, m).1.None?
    ensures |y.live| == y.cache.cfg.maxBlk * y.cache.cfg.itemNum
  {
    var s, c := y.cache, y.cache.cfg;
    assert s.partial == [] && s.empty == [] && s.blkNum == c.maxBlk;
    assert s.full + s.partial + s.empty == s.full;
    LiveIsInGrid(y, sh);
    forall h | h in Grid(s.full, c.itemNum)
      ensures h in y.live
    {
      FullBlockIsAllLive(y, sh, h.0, h.1);
    }
    assert y.live == Grid(s.full, c.itemNum);
    GridCard(s.full, c.itemNum);
  }

  lemma RoomMeansSuccess(y: Sys, sh: map<nat, Shape>, m: nat)
    requires SysInv(y, sh) && Bounded(y.cache) && MallocOk(y.cache, m) && Alloc(y.cache, m).1.Some?
    ensures |y.live| < y.cache.cfg.maxBlk * y.cache.cfg.itemNum
  {
    var next := Step(y, AllocOp(m));
    AllocAddsOne(y, sh, m);
    var sh' := StepKeepsInv(y, sh, AllocOp(m));
    LiveBound(next, sh');
    StepKeepsBound(y, AllocOp(m));
    ConfigIsFixed(y, AllocOp(m));
    MulOrder(next.cache.blkNum, y.cache.cfg.maxBlk, y.cache.cfg.itemNum);
  }

  lemma AllocAddsOne(y: Sys, sh: map<nat, Shape>, m: nat)
    requires SysInv(y, sh) && MallocOk(y.cache, m) && Alloc(y.cache, m).1.Some?
    ensures |Step(y, AllocOp(m)).live| == |y.live| + 1
  {
    AllocIsNew(y.cache, sh, m);
    assert Step(y, AllocOp(m)).live == y.live + {Alloc(y.cache, m).1.value};
  }

  lemma AllocIsNew(s: Cache, sh: map<nat, Shape>, m: nat)
    requires Inv(s, sh) && MallocOk(s, m) && Alloc(s, m).1.Some?
    ensures !IsLive(sh, Alloc(s, m).1.value)
  {
    AllocKeepsInv(s, sh, m);
  }

  // Given memory, alloc refuses exactly when max_blk * item_num items are live.
  lemma AllocRefusesExactlyWhenFull(y: Sys, sh: map<nat, Shape>, m: nat)
    requires SysInv(y, sh) && Bounded(y.cache) && m != 0 && MallocOk(y.cache, m)
    ensures Alloc(y.cache, m).1.None? <==> |y.live| == y.cache.cfg.maxBlk * y.cache.cfg.itemNum
  {
    if Alloc(y.cache, m).1.None? {
      RefusalMeansFull(y, sh, m);
    } else {
      RoomMeansSuccess(y, sh, m);
    }
  }

  lemma MulOrder(a: int, b: int, n: nat)
    requires a <= b
    ensures a * n <= b * n
  { }

  // mem_cache_destroy goes ahead when nothing is on the full and partial lists.
  predicate DestroyAccepts(s: Cache) { s.full == [] && s.partial == [] }

  lemma DestroyAcceptsExactlyWhenNoneLive(y: Sys, sh: map<nat, Shape>)
    requires SysInv(y, sh)
    ensures DestroyAccepts(y.cache) <==> y.live == {}
  {
    var s := y.cache;
    if y.live != {} {
      var h :| h in y.live;
      OwnerOf(s.cfg, s.priv, s.blks, sh, h);
      assert h.0 in s.full || h.0 in s.partial;
    }
    if !DestroyAccepts(s) {
      var b := if s.full != [] then s.full[0] else s.partial[0];
      assert b in s.full || b in s.partial;
      assert BlkInv(s.cfg, s.priv, b, s.blks[b], sh[b]);
      assert |sh[b].live| > 0;
      var i :| i in sh[b].live;
      assert IsLive(sh, (b, i));
    }
  }

  // ---- a new cache ----

  // mem_cache_create accepts these limits.
  predicate CreateAccepts(maxBlk: nat, maxEmpty: nat) {
    maxBlk <= CACHE_MAX_BLKNUM && (maxBlk != 0 ==> maxEmpty <= maxBlk)
  }

  // list_add_tail of a new block
  function AddNew(s: Cache, m: nat): Cache {
    if m == 0 then s
    else s.(blks := s.blks[m := NewBlk(s.cfg, m)], empty := s.empty + [m],
            blkNum := s.blkNum + 1, emptyNum := s.emptyNum + 1)
  }

  function Blank(c: Config): Cache { Cache(c, 0, 0, [], [], [], map[], map[]) }

  // The loop of mem_cache_create, one malloc result per round.
  function Created(c: Config, ms: seq<nat>): Cache {
    if ms == [] then Blank(c) else AddNew(Created(c, ms[..|ms| - 1]), ms[|ms| - 1])
  }

  ghost predicate MallocsOk(c: Config, ms: seq<nat>) {
    ms == [] || (MallocsOk(c, ms[..|ms| - 1]) && MallocOk(Created(c, ms[..|ms| - 1]), ms[|ms| - 1]))
  }

  ghost function EmptyShapes(s: Cache): map<nat, Shape> { map b | b in s.blks :: Shape(0, [], {}) }

  lemma AddNewKeepsInv(s: Cache, m: nat)
    requires Inv(s, EmptyShapes(s)) && MallocOk(s, m) && s.emptyNum < s.cfg.maxEmpty
    ensures Inv(AddNew(s, m), EmptyShapes(AddNew(s, m)))
  {
    if m != 0 {
      var t := AddNew(s, m);
      AddBlkShapes(s.cfg, s.priv, s.blks, EmptyShapes(s), m);
      assert EmptyShapes(t) == EmptyShapes(s)[m := Shape(0, [], {})];
      AddNewKeepsLists(s, m);
      assert t.blks.Keys == s.blks.Keys + {m};
    }
  }

  lemma AddNewKeepsLists(s: Cache, m: nat)
    requires CfgOk(s.cfg) && ListsInv(s) && m != 0 && m !in s.blks && s.emptyNum < s.cfg.maxEmpty
    ensures ListsInv(AddNew(s, m))
  {
    assert m !in s.empty;
  }

  // A created cache satisfies the invariant with nothing live.
  lemma {:induction false} CreatedInv(c: Config, ms: seq<nat>)
    requires CfgOk(c) && |ms| <= c.maxEmpty && MallocsOk(c, ms)
    ensures var s := Created(c, ms);
            s.cfg == c && s.blkNum == s.emptyNum <= |ms| && SysInv(Sys(s, {}), EmptyShapes(s))
  {
    if ms != [] {
      CreatedInv(c, ms[..|ms| - 1]);
      AddNewKeepsInv(Created(c, ms[..|ms| - 1]), ms[|ms| - 1]);
    }
  }

  lemma {:induction false} CreatedCount(c: Config, ms: seq<nat>)
    requires 0 !in ms
    ensures Created(c, ms).blkNum == |ms|
  {
    if ms != [] {
      CreatedCount(c, ms[..|ms| - 1]);
    }
  }

  // Accepted limits leave a new cache within max_blk, except for max_blk == 0 with
  // max_empty above the default, where the check is skipped.
  lemma NewCacheIsBoundedExactly(machine: Machine, maxBlk: nat, maxEmpty: nat, size: nat, itemNum: nat, ms: seq<nat>)
    requires CreateAccepts(maxBlk, maxEmpty) && |ms| == maxEmpty && 0 !in ms
    ensures Bounded(Created(Effective(machine, maxBlk, maxEmpty, size, itemNum), ms))
            <==> !(maxBlk == 0 && maxEmpty > CACHE_MAX_BLKNUM)
  {
    var c := Effective(machine, maxBlk, maxEmpty, size, itemNum);
    CreatedCount(c, ms);
    CreatedConfig(c, ms);
  }

  lemma {:induction false} CreatedConfig(c: Config, ms: seq<nat>)
    ensures Created(c, ms).cfg == c
  {
    if ms != [] {
      CreatedConfig(c, ms[..|ms| - 1]);
    }
  }

  // Past the limit the comparison for equality never stops the cache from growing.
  lemma OversizedCacheNeverRefuses(s: Cache, m: nat)
    requires s.blkNum > s.cfg.maxBlk && m != 0
    ensures Alloc(s, m).1.Some?
  { }

  // Every run of a created cache: live items are apart, inside their blocks and named by
  // their words; the limits hold; alloc refuses and destroy accepts exactly as promised.
  lemma EveryRunIsSafe(c: Config, ms: seq<nat>, ops: seq<Op>, m: nat)
    requires CfgOk(c) && |ms| == c.maxEmpty <= c.maxBlk && MallocsOk(c, ms)
    requires AllowedRun(Sys(Created(c, ms), {}), ops)
    requires m != 0 && MallocOk(Run(Sys(Created(c, ms), {}), ops).cache, m)
    ensures var y := Run(Sys(Created(c, ms), {}), ops); var s := y.cache;
            && s.cfg == c
            && (forall h :: h in y.live ==> h.1 < c.itemNum && Inside(c, h.0, h.1) && Priv(s, h) == Block(h.0))
            && (forall g, h :: g in y.live && h in y.live && g != h ==>
                  Apart(ItemAddress(c, g.0, g.1), ItemAddress(c, h.0, h.1), c.itemSize))
            && s.blkNum == |s.full| + |s.partial| + |s.empty| <= c.maxBlk
            && s.emptyNum == |s.empty| <= c.maxEmpty
            && Placed(c, s.blks, s.full, Full) && Placed(c, s.blks, s.partial, Partial) && Placed(c, s.blks, s.empty, Empty)
            && (Alloc(s, m).1.None? <==> |y.live| == c.maxBlk * c.itemNum)
            && (DestroyAccepts(s) <==> y.live == {})
    ensures var y := Run(Sys(Created(c, ms), {}), ops);
            exists sh :: SysInv(y, sh) && EachSlotIsOneOfThree(y, sh)
  {
    var start := Sys(Created(c, ms), {});
    CreatedInv(c, ms);
    var sh := RunKeepsInv(start, EmptyShapes(start.cache), ops);
    var y := Run(start, ops);
    forall h | h in y.live
      ensures h.1 < c.itemNum && Inside(c, h.0, h.1) && Priv(y.cache, h) == Block(h.0)
    {
      LiveItemIsInside(y, sh, h);
    }
    forall g, h | g in y.live && h in y.live && g != h
      ensures Apart(ItemAddress(c, g.0, g.1), ItemAddress(c, h.0, h.1), c.itemSize)
    {
      LiveItemsAreApart(y, sh, g, h);
    }
    AllocRefusesExactlyWhenFull(y, sh, m);
    DestroyAcceptsExactlyWhenNoneLive(y, sh);
    SlotsArePartitioned(y, sh);
  }

  // Every slot of every block is live, on the recover list or never bumped, and only one of
  // them; the block's free count is that of its slots that are not live.
  ghost predicate EachSlotIsOneOfThree(y: Sys, sh: map<nat, Shape>) {
    forall b :: b in y.cache.blks ==> b in sh && Partitioned(y, sh[b], b)
  }

  ghost predicate Partitioned(y: Sys, s: Shape, b: nat)
    requires b in y.cache.blks
  {
    var n := y.cache.cfg.itemNum;
    && (forall i: nat :: i < n ==>
          (((b, i) in y.live) <==> (i < s.bump && i !in s.recov)) && (i in s.recov ==> i < s.bump))
    && Distinct(s.recov) && s.bump <= n
    && y.cache.blks[b].freeNum == |s.recov| + (n - s.bump)
  }

  lemma SlotsArePartitioned(y: Sys, sh: map<nat, Shape>)
    requires SysInv(y, sh)
    ensures EachSlotIsOneOfThree(y, sh)
  {
    forall b | b in y.cache.blks
      ensures b in sh && Partitioned(y, sh[b], b)
    {
      assert BlkInv(y.cache.cfg, y.cache.priv, b, y.cache.blks[b], sh[b]);
      forall i: nat ensures (b, i) in y.live <==> i in sh[b].live { assert IsLive(sh, (b, i)) <==> i in sh[b].live; }
    }
  }

  // For the size a user asked for: the bytes of a live item touch no other live item, its
  // header included, as long as the 32-bit item size does not wrap.
  lemma EveryRunKeepsUserBytesApart(machine: Machine, maxBlk: nat, maxEmpty: nat, size: nat, itemNum: nat,
                                    ms: seq<nat>, ops: seq<Op>, g: Handle, h: Handle)
    requires size + machine.itemHdr < 0x1_0000_0000
    requires var c := Effective(machine, maxBlk, maxEmpty, size, itemNum);
             && CfgOk(c) && |ms| <= c.maxEmpty && MallocsOk(c, ms)
             && AllowedRun(Sys(Created(c, ms), {}), ops)
             && g in Run(Sys(Created(c, ms), {}), ops).live && h in Run(Sys(Created(c, ms), {}), ops).live && g != h
    ensures var c := Effective(machine, maxBlk, maxEmpty, size, itemNum);
            || UserAddress(c, g.0, g.1) + size <= ItemAddress(c, h.0, h.1)
            || ItemAddress(c, h.0, h.1) + c.itemSize <= UserAddress(c, g.0, g.1)
  {
    var c := Effective(machine, maxBlk, maxEmpty, size, itemNum);
    var start := Sys(Created(c, ms), {});
    CreatedInv(c, ms);
    var sh := RunKeepsInv(start, EmptyShapes(start.cache), ops);
    LiveItemsAreApart(Run(start, ops), sh, g, h);
    UserBytesFitExactly(machine, maxBlk, maxEmpty, size, itemNum, g.0, g.1);
  }

  // mem_cache_create refuses exactly the limits that are too large or that the new cache
  // would exceed; a limit of zero is not compared.
  lemma CreateAcceptsExactly(machine: Machine, maxBlk: nat, maxEmpty: nat, size: nat, itemNum: nat, ms: seq<nat>)
    requires |ms| == maxEmpty && 0 !in ms
    ensures CreateAccepts(maxBlk, maxEmpty) <==>
            maxBlk <= 128 && (maxBlk == 0 || Bounded(Created(Effective(machine, maxBlk, maxEmpty, size, itemNum), ms)))
  {
    var c := Effective(machine, maxBlk, maxEmpty, size, itemNum);
    CreatedCount(c, ms);
    CreatedConfig(c, ms);
  }

  // ---- which block alloc takes, and which block free gives back ----

  ghost predicate FreeCountsOk(s: Cache) { forall b :: b in s.blks ==> 0 <= s.blks[b].freeNum <= s.cfg.itemNum }

  ghost predicate HasBlock(s: Cache, home: Home) { exists b :: b in s.blks && HomeOf(s.cfg, s.blks[b]) == home }

  // A partly used block comes first, then an empty one; only if there is neither is one made.
  ghost predicate Chosen(s: Cache, b: nat, q: Cache, m: nat) {
    if HasBlock(s, Partial) then
      b in s.blks && HomeOf(s.cfg, s.blks[b]) == Partial && q.blkNum == s.blkNum && q.emptyNum == s.emptyNum
    else if HasBlock(s, Empty) then
      b in s.blks && HomeOf(s.cfg, s.blks[b]) == Empty && q.blkNum == s.blkNum && q.emptyNum == s.emptyNum - 1
    else b == m && q.blkNum == s.blkNum + 1 && q.emptyNum == s.emptyNum
  }

  lemma AllocChoosesExactly(s: Cache, sh: map<nat, Shape>, m: nat)
    requires Inv(s, sh) && MallocOk(s, m) && Alloc(s, m).1.Some?
    ensures Chosen(s, Alloc(s, m).1.value.0, Alloc(s, m).0, m)
  {
    var b := Provide(s, m).1.value;
    FreeCounts(s, sh);
    ProvideChooses(s, m, b);
    AllocFromProvided(s, sh, m, b);
  }

  lemma ProvideChooses(s: Cache, m: nat, b: nat)
    requires CfgOk(s.cfg) && ListsInv(s) && FreeCountsOk(s) && Provide(s, m).1 == Some(b)
    ensures Chosen(s, b, Provide(s, m).0, m)
  {
    ListsTellHomes(s);
    if s.partial != [] {
      assert b == s.partial[0] && b in s.partial;
    } else if s.empty != [] {
      assert b == s.empty[0] && b in s.empty;
      EmptyIsWhole(s, b);
    }
  }

  lemma EmptyIsWhole(s: Cache, b: nat)
    requires ListsInv(s) && b in s.empty && FreeCountsOk(s)
    ensures b in s.blks && s.blks[b].freeNum == s.cfg.itemNum
  { }

  lemma AllocFromProvided(s: Cache, sh: map<nat, Shape>, m: nat, b: nat)
    requires Inv(s, sh) && MallocOk(s, m) && Provide(s, m).1 == Some(b)
    ensures Alloc(s, m).1.value.0 == b
    ensures Alloc(s, m).0.blkNum == Provide(s, m).0.blkNum && Alloc(s, m).0.emptyNum == Provide(s, m).0.emptyNum
  {
    ProvideIsReady(s, sh, m);
    TakeKeepsShapes(Provide(s, m).0, ProvideShapes(s, sh, m), b);
  }

  lemma ListsTellHomes(s: Cache)
    requires ListsInv(s)
    ensures HasBlock(s, Partial) <==> s.partial != []
    ensures HasBlock(s, Empty) <==> s.empty != []
  {
    if s.partial != [] { assert s.partial[0] in s.partial; }
    if s.empty != [] { assert s.empty[0] in s.empty; }
  }

  ghost predicate LastOfBlock(sh: map<nat, Shape>, h: Handle) {
    forall x: Handle :: IsLive(sh, x) && x.0 == h.0 ==> x == h
  }

  // A block goes back to malloc exactly if it loses its last live item and max_empty empty
  // ones are kept already; otherwise it is kept, as an empty one if it was its last item.
  lemma FreeKeepsBlockExactly(s: Cache, sh: map<nat, Shape>, h: Handle)
    requires Inv(s, sh) && IsLive(sh, h)
    ensures var q := Free(s, h);
            && (h.0 in q.blks <==> !(LastOfBlock(sh, h) && s.emptyNum == s.cfg.maxEmpty))
            && q.blkNum == s.blkNum - (if h.0 in q.blks then 0 else 1)
            && q.emptyNum == s.emptyNum + (if LastOfBlock(sh, h) && h.0 in q.blks then 1 else 0)
            && (forall b :: b in s.blks && b != h.0 ==> b in q.blks && q.blks[b] == s.blks[b])
  {
    OwnerOf(s.cfg, s.priv, s.blks, sh, h);
    FreeIs(s, h);
    LastIsOne(s.cfg, sh, h, s.blks[h.0], s.priv);
  }

  lemma LastIsOne(c: Config, sh: map<nat, Shape>, h: Handle, blk: Blk, priv: map<Handle, Ptr>)
    requires IsLive(sh, h) && BlkInv(c, priv, h.0, blk, sh[h.0])
    ensures LastOfBlock(sh, h) <==> blk.freeNum + 1 == c.itemNum
  {
    var live := sh[h.0].live;
    assert |live - {h.1}| == |live| - 1;
    if blk.freeNum + 1 != c.itemNum {
      assert live - {h.1} != {};
      var i :| i in live - {h.1};
      assert IsLive(sh, (h.0, i)) && (h.0, i) != h;
    } else {
      assert live - {h.1} == {};
    }
  }
}
