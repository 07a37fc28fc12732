/** The cache as the source updates it: one object whose fields change in place. */
module MemCacheObject {
  import opened Options
  import opened MemLayout
  import opened MemCache
  import Runs = MemCacheRuns

  class CacheObject {
    const cfg: Config
    var blkNum: int
    var emptyNum: int
    var full: seq<nat>
    var partial: seq<nat>
    var empty: seq<nat>
    var blks: map<nat, Blk>
    var priv: map<Handle, Ptr>

    function View(): Cache
      reads this
    {
      Cache(cfg, blkNum, emptyNum, full, partial, empty, blks, priv)
    }

    // mem_cache_create after its checks; ms are the results of its mallocs.
    constructor (cfg: Config, ms: seq<nat>)
      requires |ms| == cfg.maxEmpty
      ensures View() == Runs.Created(cfg, ms)
    {
      this.cfg := cfg;
      blkNum, emptyNum := 0, 0;
      full, partial, empty := [], [], [];
      blks, priv := map[], map[];
      new;
      var i := 0;
      while i < cfg.maxEmpty
        invariant 0 <= i <= cfg.maxEmpty
        invariant View() == Runs.Created(cfg, ms[..i])
      {
        assert ms[..i + 1][..i] == ms[..i];
        if ms[i] != 0 {
          blks := blks[ms[i] := NewBlk(cfg, ms[i])];
          empty := empty + [ms[i]];
          blkNum := blkNum + 1;
          emptyNum := emptyNum + 1;
        }
        i := i + 1;
      }
      assert ms[..i] == ms;
    }

    // list_del
    method Unlink(b: nat)
      modifies this`full, this`partial, this`empty
      ensures View() == ListDel(old(View()), b)
    {
      full, partial, empty := Remove(full, b), Remove(partial, b), Remove(empty, b);
    }

    // __blk_alloc_item
    method TakeItem(b: nat) returns (h: Handle)
      modifies this`blks, this`priv
      ensures View() == MemCache.TakeItem(old(View()), b) && h == TakenItem(old(View()), b)
    {
      var blk := BlkAt(View(), b);
      if blk.recover != Null {
        h := AsItem(blk.recover);
        blk := blk.(recover := Priv(View(), h));
      } else {
        h := AsItem(blk.free);
        blk := blk.(free := Item(h.0, h.1 + 1));
      }
      priv := priv[h := Block(b)];
      blks := blks[b := blk.(freeNum := blk.freeNum - 1)];
    }

    // mem_cache_alloc; m is what malloc returns if it is called, 0 for NULL.
    method Alloc(m: nat) returns (r: Option<Handle>)
      modifies this
      ensures (View(), r) == MemCache.Alloc(old(View()), m)
    {
      var found := FreeBlk(View());
      var b;
      if found.None? {
        if cfg.maxBlk == blkNum {
          return None;
        }
        if m == 0 {
          return None;
        }
        b := m;
        blks := blks[b := NewBlk(cfg, b)];
        if blks[b].freeNum == 1 { full := [b] + full; } else { partial := [b] + partial; }
        blkNum := blkNum + 1;
      } else {
        b := found.value;
        var free := BlkAt(View(), b).freeNum;
        if free == cfg.itemNum {
          Unlink(b);
          emptyNum := emptyNum - 1;
          if free == 1 { full := [b] + full; } else { partial := [b] + partial; }
        } else if free == 1 {
          Unlink(b);
          full := [b] + full;
        }
      }
      var h := TakeItem(b);
      r := Some(h);
    }

    // mem_cache_free
    method Free(h: Handle)
      modifies this
      ensures View() == MemCache.Free(old(View()), h)
    {
      var b := AsBlock(Priv(View(), h));
      var blk := BlkAt(View(), b);
      priv := priv[h := blk.recover];
      blk := blk.(recover := Item(h.0, h.1), freeNum := blk.freeNum + 1);
      blks := blks[b := blk];
      if blk.freeNum == cfg.itemNum {
        Unlink(b);
        if emptyNum == cfg.maxEmpty {
          blkNum := blkNum - 1;
          blks := blks - {b};
          return;
        }
        blks := blks[b := Blk(cfg.itemNum, blk.frist, blk.frist, Null)];
        empty := [b] + empty;
        emptyNum := emptyNum + 1;
      } else if blk.freeNum == 1 {
        Unlink(b);
        partial := [b] + partial;
      }
    }

    // mem_cache_destroy up to the return of the memory
    method Destroy() returns (ok: bool)
      ensures ok == Runs.DestroyAccepts(View())
    {
      ok := !(full != [] || partial != []);
    }
  }
}
