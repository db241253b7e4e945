/**
 * The kernel's page map as the heap uses it: frames for the pages, and frames for the page tables above them, which are
 * taken when the first page below a table is mapped and given back with the last.
 */
module KernelPages {
  import opened HeapCells
  import opened PageCost
  import opened Pmm

  // ------------------------------------------------------------ runs of pages

  /** The addresses of `count` pages from `v` on. */
  ghost function PageSet(v: nat, count: nat): set<nat>
  {
    set i | 0 <= i < count :: v + i * PAGE_SIZE
  }

  lemma PageSetEmpty(v: nat)
    ensures PageSet(v, 0) == {}
  {
  }

  lemma PageSetIncludes(v: nat, n: nat, count: nat)
    requires n < count
    ensures v + n * PAGE_SIZE in PageSet(v, count) && PageSet(v, n) <= PageSet(v, count)
  {
  }

  lemma PageSetSnoc(v: nat, count: nat)
    ensures PageSet(v, count + 1) == PageSet(v, count) + {v + count * PAGE_SIZE}
    ensures v + count * PAGE_SIZE !in PageSet(v, count)
  {
  }

  lemma {:induction false} PageSetSplit(v: nat, a: nat, b: nat)
    ensures PageSet(v, a + b) == PageSet(v, a) + PageSet(v + a * PAGE_SIZE, b)
    ensures PageSet(v, a) !! PageSet(v + a * PAGE_SIZE, b)
    decreases b
  {
    if b > 0 {
      PageSetSplit(v, a, b - 1);
      PageSetSnoc(v, a + b - 1);
      PageSetSnoc(v + a * PAGE_SIZE, b - 1);
    }
  }

  /** `pages` is `was` with the first n pages from v on. */
  ghost predicate Added(was: map<nat, nat>, pages: map<nat, nat>, v: nat, n: nat)
  {
    pages.Keys == was.Keys + PageSet(v, n) && pages - PageSet(v, n) == was
  }

  lemma AddedNone(pages: map<nat, nat>, v: nat)
    ensures Added(pages, pages, v, 0)
  {
    hide PageSet;
    PageSetEmpty(v);
  }

  lemma AddedFresh(was: map<nat, nat>, pages: map<nat, nat>, v: nat, n: nat, count: nat)
    requires Added(was, pages, v, n) && n < count && PageSet(v, count) !! was.Keys
    ensures v + n * PAGE_SIZE !in pages
  {
    hide PageSet;
    PageSetSnoc(v, n);
    PageSetIncludes(v, n, count);
  }

  lemma AddedNext(was: map<nat, nat>, pages: map<nat, nat>, pages': map<nat, nat>, v: nat, n: nat)
    requires Added(was, pages, v, n) && pages'.Keys == pages.Keys + {v + n * PAGE_SIZE}
    requires pages' - {v + n * PAGE_SIZE} == pages
    ensures Added(was, pages', v, n + 1)
  {
    hide PageSet;
    PageSetSnoc(v, n);
    assert pages' - PageSet(v, n + 1) == pages' - {v + n * PAGE_SIZE} - PageSet(v, n);
  }

  lemma AddedIs(was: map<nat, nat>, pages: map<nat, nat>, v: nat, n: nat)
    requires Added(was, pages, v, n)
    ensures pages.Keys == was.Keys + PageSet(v, n) && pages - PageSet(v, n) == was && PageSet(v, n) <= pages.Keys
  {
    hide PageSet;
  }

  // ------------------------------------------------------------ frames

  /** Every key has an allocated frame of its own. */
  ghost predicate Backed<K(!new)>(m: map<K, nat>, usable: set<nat>, free: set<nat>)
  {
    && (forall k | k in m :: m[k] in usable && m[k] !in free)
    && (forall k, l | k in m && l in m && k != l :: m[k] != m[l])
  }

  lemma ValuesAdd<K>(m: map<K, nat>, k: K, f: nat)
    requires k !in m
    ensures m[k := f].Values == m.Values + {f} && m[k := f] - {k} == m
  {
    var m' := m[k := f];
    forall x | x in m.Values + {f}
      ensures x in m'.Values
    {
      if x == f {
        assert m'[k] == x;
      } else {
        var l :| l in m && m[l] == x;
        assert m'[l] == x;
      }
    }
  }

  lemma ValuesRemove<K>(m: map<K, nat>, k: K)
    requires k in m && forall l | l in m && l != k :: m[l] != m[k]
    ensures m.Values == (m - {k}).Values + {m[k]} && m[k] !in (m - {k}).Values
  {
    var m' := m - {k};
    forall x | x in m.Values
      ensures x in m'.Values + {m[k]}
    {
      var l :| l in m && m[l] == x;
      assert l != k ==> m'[l] == x;
    }
  }

  lemma {:induction false} ValuesCount<K>(m: map<K, nat>)
    requires forall k, l | k in m && l in m && k != l :: m[k] != m[l]
    ensures |m.Values| == |m.Keys|
    decreases |m.Keys|
  {
    if k :| k in m {
      ValuesRemove(m, k);
      assert (m - {k}).Keys == m.Keys - {k};
      ValuesCount(m - {k});
    } else {
      assert m.Keys == {} && m.Values == {};
    }
  }

  /** Nothing of `m` was lost or changed. */
  ghost predicate Within<K(!new)>(m: map<K, nat>, more: map<K, nat>)
  {
    forall k | k in m :: k in more && more[k] == m[k]
  }

  /** The tables on the way to v, down from `level`, were made if n frames suffice. */
  ghost predicate Ensured(tables: map<TableId, nat>, n: nat, tables': map<TableId, nat>, v: nat, level: nat,
                          boot: set<TableId>, ok: bool)
  {
    && (ok <==> |Lacking(v, level, tables.Keys + boot, Addresses)| <= n)
    && (ok ==>
        Within(tables, tables') && tables'.Keys == tables.Keys + Lacking(v, level, tables.Keys + boot, Addresses))
    && (!ok ==> tables' == tables)
  }

  lemma EnsuredNone(tables: map<TableId, nat>, n: nat, v: nat, boot: set<TableId>)
    ensures Ensured(tables, n, tables, v, 0, boot, true)
  {
  }

  lemma {:induction false} EnsuredThere(tables: map<TableId, nat>, n: nat, tables': map<TableId, nat>, v: nat,
                                        level: nat, boot: set<TableId>, ok: bool)
    requires level > 0 && TableOf(v, level, Addresses) in tables.Keys + boot
    requires Ensured(tables, n, tables', v, level - 1, boot, ok)
    ensures Ensured(tables, n, tables', v, level, boot, ok)
  {
    hide Lacking, TableOf;
    LackingStep(v, level, tables.Keys + boot, Addresses);
  }

  lemma {:induction false} EnsuredNot(tables: map<TableId, nat>, v: nat, level: nat, boot: set<TableId>)
    requires level > 0 && TableOf(v, level, Addresses) !in tables.Keys + boot
    ensures Ensured(tables, 0, tables, v, level, boot, false)
  {
    hide Lacking, TableOf;
    LackingBelow(v, level, tables.Keys + boot, Addresses);
  }

  lemma {:induction false} EnsuredMade(tables: map<TableId, nat>, n: nat, f: nat, tables': map<TableId, nat>, v: nat,
                                       level: nat,
                                       boot: set<TableId>, ok: bool)
    requires level > 0 && n > 0 && TableOf(v, level, Addresses) !in tables.Keys + boot
    requires Ensured(tables[TableOf(v, level, Addresses) := f], n - 1, tables', v, level - 1, boot, ok)
    ensures ok ==> Ensured(tables, n, tables', v, level, boot, true)
    ensures !ok ==>
              TableOf(v, level, Addresses) in tables'
              && Ensured(tables, n, tables' - {TableOf(v, level, Addresses)}, v, level, boot, false)
  {
    hide Lacking, TableOf, Within;
    var t, have := TableOf(v, level, Addresses), tables.Keys + boot;
    OneMore(tables, boot, t, f);
    LackingBelow(v, level, have, Addresses);
    LackingStep(v, level, have, Addresses);
    if ok {
      WithinMore(tables, t, f);
      WithinTrans(tables, tables[t := f], tables');
    }
  }

  lemma OneMore(tables: map<TableId, nat>, boot: set<TableId>, t: TableId, f: nat)
    requires t !in tables
    ensures var made := tables[t := f];
            made.Keys == tables.Keys + {t} && made.Keys + boot == tables.Keys + boot + {t} && made - {t} == tables
  {
  }

  lemma WithinMore<K(!new)>(m: map<K, nat>, k: K, f: nat)
    requires k !in m
    ensures Within(m, m[k := f])
  {
  }

  /** Whether a page can be mapped, in terms of all frames there are. */
  lemma Decides(tables: map<TableId, nat>, n: nat, tables': map<TableId, nat>, pages: set<nat>, v: nat,
                boot: set<TableId>, ok: bool, pool: nat)
    requires tables.Keys == Needed(pages, Addresses) - boot && v !in pages
    requires Ensured(tables, n, tables', v, 3, boot, ok) && pool == n + 1 + Cost(pages, boot, Addresses)
    ensures ok <==> Cost(pages + {v}, boot, Addresses) <= pool
    ensures ok ==> tables'.Keys == Needed(pages + {v}, Addresses) - boot && Within(tables, tables')
    ensures !ok ==> tables' == tables
  {
    hide Cost, Needed, Lacking, Within;
    CostAdd(pages, v, boot, Addresses);
  }

  lemma NoFrame(pages: set<nat>, v: nat, boot: set<TableId>)
    requires v !in pages
    ensures Cost(pages + {v}, boot, Addresses) > Cost(pages, boot, Addresses)
  {
    hide Cost, Needed, Lacking;
    CostAdd(pages, v, boot, Addresses);
  }

  lemma WithinTrans<K(!new)>(a: map<K, nat>, b: map<K, nat>, c: map<K, nat>)
    requires Within(a, b) && Within(b, c)
    ensures Within(a, c)
  {
  }

  predicate IsBelow(u: TableId, t: TableId)
  {
    1 <= u.level <= 2 && Above(u) == t
  }

  /** The tables are those the pages need, and perhaps those on the way to v from `level` on. */
  ghost predicate Rest(tables: set<TableId>, need: set<TableId>, boot: set<TableId>, v: nat, level: nat)
  {
    forall t: TableId :: t in tables <==>
        t !in boot && (t in need || (level <= t.level <= 3 && t == TableOf(v, t.level, Addresses)))
  }

  lemma NeededAt(pages: set<nat>, v: nat, level: nat)
    requires v in pages && 1 <= level <= 3
    ensures TableOf(v, level, Addresses) in Needed(pages, Addresses)
  {
    assert level in {1, 2, 3};
  }

  lemma NeededBy(pages: set<nat>, t: TableId) returns (v: nat)
    requires t in Needed(pages, Addresses)
    ensures v in pages && 1 <= t.level <= 3 && t == TableOf(v, t.level, Addresses)
  {
    var w, k: nat :| w in pages && k in {1, 2, 3} && t == TableOf(w, k, Addresses);
    v := w;
  }

  /** Taking one page away leaves at most the tables on the way to it too many. */
  lemma RestAfter(pages: set<nat>, v: nat, boot: set<TableId>)
    requires v in pages
    ensures Rest(Needed(pages, Addresses) - boot, Needed(pages - {v}, Addresses), boot, v, 1)
  {
    hide Needed, TableOf;
    assert pages - {v} + {v} == pages;
    NeededAdd(pages - {v}, v, Addresses);
    forall t: TableId
      ensures t in {TableOf(v, 1, Addresses), TableOf(v, 2, Addresses), TableOf(v, 3, Addresses)} <==>
                1 <= t.level <= 3 && t == TableOf(v, t.level, Addresses)
    {
      Levels(v, t, Addresses);
    }
  }

  lemma AllExact(tables: set<TableId>, pages: set<nat>, boot: set<TableId>, v: nat)
    requires Rest(tables, Needed(pages, Addresses), boot, v, 4)
    ensures tables == Needed(pages, Addresses) - boot
  {
    hide Needed, TableOf;
  }

  lemma NextLevel(tables: set<TableId>, pages: set<nat>, boot: set<TableId>, v: nat, level: nat)
    requires Rest(tables, Needed(pages, Addresses), boot, v, level) && TableOf(v, level, Addresses) in tables
    requires TableOf(v, level, Addresses) !in Needed(pages, Addresses)
    ensures Rest(tables - {TableOf(v, level, Addresses)}, Needed(pages, Addresses), boot, v, level + 1)
  {
    hide Needed, TableOf;
  }

  /** A table that stays keeps all tables above it. */
  lemma StopHere(tables: set<TableId>, pages: set<nat>, boot: set<TableId>, v: nat, level: nat)
    requires Rooted(boot) && 1 <= level <= 3 && Rest(tables, Needed(pages, Addresses), boot, v, level)
    requires TableOf(v, level, Addresses) in boot || TableOf(v, level, Addresses) in Needed(pages, Addresses)
    ensures tables == Needed(pages, Addresses) - boot
    decreases 3 - level
  {
    hide Needed, TableOf, Above;
    if level < 3 {
      WalkUp(v, level, Addresses);
      if TableOf(v, level, Addresses) !in boot {
        var w := NeededBy(pages, TableOf(v, level, Addresses));
        WalkUp(w, level, Addresses);
        NeededAt(pages, w, level + 1);
      }
      StopHere(tables, pages, boot, v, level + 1);
    }
  }

  lemma Missing(tables: set<TableId>, need: set<TableId>, boot: set<TableId>, v: nat, level: nat)
    requires Rest(tables, need, boot, v, level) && 1 <= level <= 3 && TableOf(v, level, Addresses) !in tables
    ensures TableOf(v, level, Addresses) in boot
  {
    hide TableOf;
  }

  lemma WithinItself<K(!new)>(m: map<K, nat>)
    ensures Within(m, m)
  {
  }

  lemma WithinLess<K(!new)>(m: map<K, nat>, k: K)
    ensures Within(m - {k}, m)
  {
  }

  class KernelMap {
    const pmm: FrameAllocator
    const boot: set<TableId>
    var pages: map<nat, nat>
    var tables: map<TableId, nat>

    ghost predicate Held()
      reads this, pmm, pmm.usable, pmm.free
    {
      && pmm.Valid() && pmm.initialized && Rooted(boot)
      && Backed(pages, pmm.Usable(), pmm.Free()) && Backed(tables, pmm.Usable(), pmm.Free())
      && pages.Values !! tables.Values
    }

    /** There is a table exactly if some page needs it and it is not there anyway. */
    ghost predicate Valid()
      reads this, pmm, pmm.usable, pmm.free
    {
      Held() && tables.Keys == Needed(pages.Keys, Addresses) - boot
    }

    /** Frames that are free or in use for pages and tables; every operation conserves them. */
    ghost function Pool(): set<nat>
      reads this, pmm, pmm.free
    {
      pmm.Free() + pages.Values + tables.Values
    }

    constructor (pmm: FrameAllocator, boot: set<TableId>)
      requires pmm.Valid() && pmm.initialized && Rooted(boot)
      ensures Valid() && pages == map[] && tables == map[] && this.pmm == pmm && this.boot == boot
    {
      this.pmm, this.boot := pmm, boot;
      pages, tables := map[], map[];
    }

    lemma PoolCount()
      requires Held()
      ensures |Pool()| == |pmm.Free()| + |pages.Keys| + |tables.Keys|
      ensures Valid() ==> |Pool()| == |pmm.Free()| + Cost(pages.Keys, boot, Addresses)
    {
      hide FrameAllocator.Valid, FrameAllocator.Free, FrameAllocator.Usable, Needed;
      ValuesCount(pages);
      ValuesCount(tables);
      assert pmm.Free() !! pages.Values && pmm.Free() + pages.Values !! tables.Values;
    }

    lemma FreeIsRest()
      requires Held()
      ensures pmm.Free() == Pool() - pages.Values - tables.Values
    {
      hide FrameAllocator.Valid, FrameAllocator.Free, FrameAllocator.Usable;
    }

    /** The walk of vmm_map_page from `level` down, with the roll back of what it created. */
    method EnsureTables(v: nat, level: nat) returns (ok: bool)
      requires Held() && level <= 3
      modifies this`tables, pmm`freeCount, pmm`hint, pmm.free
      ensures Held() && pmm.Usable() == old(pmm.Usable()) && Pool() == old(Pool())
      ensures Ensured(old(tables), |old(pmm.Free())|, tables, v, level, boot, ok)
      decreases level
    {
      hide *;
      if level == 0 {
        EnsuredNone(tables, |pmm.Free()|, v, boot);
        return true;
      }
      var t := TableOf(v, level, Addresses);
      if t in boot || t in tables {
        ok := EnsureTables(v, level - 1);
        EnsuredThere(old(tables), |old(pmm.Free())|, tables, v, level, boot, ok);
        return;
      }
      var f := NewTable(t);
      if f == 0 {
        EnsuredNot(tables, v, level, boot);
        return false;
      }
      ok := EnsureTables(v, level - 1);
      EnsuredMade(old(tables), |old(pmm.Free())|, f, tables, v, level, boot, ok);
      if !ok {
        DropTable(t);
      }
    }

    /** A frame for table t. */
    method NewTable(t: TableId) returns (f: nat)
      requires Held() && t !in tables
      modifies this`tables, pmm`freeCount, pmm`hint, pmm.free
      ensures Held() && pmm.Usable() == old(pmm.Usable()) && Pool() == old(Pool())
      ensures f == 0 <==> old(pmm.Free()) == {}
      ensures f == 0 ==> tables == old(tables) && pmm.Free() == old(pmm.Free())
      ensures f != 0 ==> tables == old(tables)[t := f] && f in old(pmm.Free()) && pmm.Free() == old(pmm.Free()) - {f}
    {
      hide FrameAllocator.Valid, FrameAllocator.Free, FrameAllocator.Usable;
      pmm.FreeIsUsable();
      var address := pmm.AllocateFrame();
      if address == 0 {
        return 0;
      }
      f := address / FRAME_SIZE;
      ValuesAdd(tables, t, f);
      tables := tables[t := f];
    }

    /** release_owned_empty_table on a table that is empty. */
    method DropTable(t: TableId)
      requires Held() && t in tables
      modifies this`tables, pmm`freeCount, pmm`hint, pmm.free
      ensures Held() && pmm.Usable() == old(pmm.Usable()) && Pool() == old(Pool()) && tables == old(tables) - {t}
      ensures pmm.Free() == old(pmm.Free()) + {old(tables)[t]}
    {
      hide FrameAllocator.Valid, FrameAllocator.Free, FrameAllocator.Usable;
      ValuesRemove(tables, t);
      var frame := tables[t];
      tables := tables - {t};
      var freed := pmm.FreeFrame(frame * FRAME_SIZE);
      assert freed;
    }

    /** One turn of the loop in grow_heap: pmm_allocate_frame and vmm_map_page, or neither. */
    method MapNew(v: nat) returns (ok: bool)
      requires Valid() && v !in pages
      modifies this`pages, this`tables, pmm`freeCount, pmm`hint, pmm.free
      ensures Valid() && Pool() == old(Pool()) && (ok <==> Cost(old(pages).Keys + {v}, boot, Addresses) <= |Pool()|)
      ensures ok ==> pages.Keys == old(pages).Keys + {v} && pages - {v} == old(pages) && Within(old(tables), tables)
      ensures !ok ==> pages == old(pages) && tables == old(tables)
    {
      hide *;
      ValidIs();
      PoolCount();
      NoFrame(pages.Keys, v, boot);
      var frame := TakeFrame();
      if frame == 0 {
        ValidIs();
        return false;
      }
      ghost var n := |pmm.Free()|;
      ok := EnsureTables(v, 3);
      Decides(old(tables), n, tables, pages.Keys, v, boot, ok, |old(Pool())|);
      if !ok {
        GiveFrame(frame);
      } else {
        SetPage(v, frame);
      }
      ValidIs();
    }

    /** pmm_allocate_frame for a page. */
    method TakeFrame() returns (frame: nat)
      requires Held()
      modifies pmm`freeCount, pmm`hint, pmm.free
      ensures Held() && (frame == 0 <==> old(pmm.Free()) == {})
      ensures frame == 0 ==> pmm.Free() == old(pmm.Free()) && Pool() == old(Pool())
      ensures frame != 0 ==>
                frame in pmm.Usable() && frame !in Pool() && |pmm.Free()| + 1 == |old(pmm.Free())|
                && Pool() + {frame} == old(Pool())
    {
      hide FrameAllocator.Valid, FrameAllocator.Free, FrameAllocator.Usable;
      pmm.FreeIsUsable();
      var address := pmm.AllocateFrame();
      frame := address / FRAME_SIZE;
    }

    method GiveFrame(frame: nat)
      requires Held() && frame !in Pool() && frame in pmm.Usable()
      modifies pmm`freeCount, pmm`hint, pmm.free
      ensures Held() && pmm.Free() == old(pmm.Free()) + {frame} && Pool() == old(Pool()) + {frame}
    {
      hide FrameAllocator.Valid, FrameAllocator.Free, FrameAllocator.Usable;
      var freed := pmm.FreeFrame(frame * FRAME_SIZE);
      assert freed;
    }

    method SetPage(v: nat, frame: nat)
      requires Held() && v !in pages && frame !in Pool() && frame in pmm.Usable()
      modifies this`pages
      ensures Held() && pages == old(pages)[v := frame] && Pool() == old(Pool()) + {frame}
      ensures pages.Keys == old(pages).Keys + {v} && pages - {v} == old(pages)
    {
      hide FrameAllocator.Valid, FrameAllocator.Free, FrameAllocator.Usable;
      ValuesAdd(pages, v, frame);
      pages := pages[v := frame];
    }

    /** release_owned_empty_table from `level` upwards. */
    method ReleaseTables(v: nat, level: nat)
      requires Held() && 1 <= level <= 4 && Rest(tables.Keys, Needed(pages.Keys, Addresses), boot, v, level)
      modifies this`tables, pmm`freeCount, pmm`hint, pmm.free
      ensures Valid() && pmm.Usable() == old(pmm.Usable()) && Pool() == old(Pool()) && Within(tables, old(tables))
      decreases 4 - level
    {
      hide *;
      HeldIs();
      WithinItself(tables);
      ValidIs();
      if level == 4 {
        AllExact(tables.Keys, pages.Keys, boot, v);
        return;
      }
      var t := TableOf(v, level, Addresses);
      if t !in tables {
        Missing(tables.Keys, Needed(pages.Keys, Addresses), boot, v, level);
        StopHere(tables.Keys, pages.Keys, boot, v, level);
        return;
      }
      EmptyIff(v, level);
      if !(if level == 1 then NoPages(t) else NoTables(t)) {
        StopHere(tables.Keys, pages.Keys, boot, v, level);
        return;
      }
      ghost var before := tables;
      DropTable(t);
      assert tables.Keys == before.Keys - {t};
      NextLevel(before.Keys, pages.Keys, boot, v, level);
      WithinLess(before, t);
      ghost var less := tables;
      ReleaseTables(v, level + 1);
      WithinTrans(tables, less, before);
    }

    lemma HeldIs()
      requires Held()
      ensures Rooted(boot)
    {
    }

    lemma ValidIs()
      ensures Valid() <==> Held() && tables.Keys == Needed(pages.Keys, Addresses) - boot
    {
      hide KernelMap.Held, Needed;
    }

    /** A table on the way to v is empty exactly if no page needs it. */
    lemma EmptyIff(v: nat, level: nat)
      requires Rooted(boot) && 1 <= level <= 3 && Rest(tables.Keys, Needed(pages.Keys, Addresses), boot, v, level)
      requires TableOf(v, level, Addresses) in tables
      ensures (if level == 1 then NoPages(TableOf(v, level, Addresses))
                else NoTables(TableOf(v, level, Addresses))) <==>
                TableOf(v, level, Addresses) !in Needed(pages.Keys, Addresses)
    {
      hide Needed, TableOf;
      var t := TableOf(v, level, Addresses);
      if t in Needed(pages.Keys, Addresses) {
        var w := NeededBy(pages.Keys, t);
        if level > 1 {
          WalkUp(w, level - 1, Addresses);
          NeededAt(pages.Keys, w, level - 1);
          assert IsBelow(TableOf(w, level - 1, Addresses), t);
        }
      } else if level == 1 {
        forall w | w in pages
          ensures TableOf(w, 1, Addresses) != t
        {
          NeededAt(pages.Keys, w, 1);
        }
      } else {
        assert t !in boot;
        forall u | u in tables
          ensures !IsBelow(u, t)
        {
          if IsBelow(u, t) {
            var w := NeededBy(pages.Keys, u);
            WalkUp(w, level - 1, Addresses);
            NeededAt(pages.Keys, w, level);
          }
        }
      }
    }

    /** page_table_is_empty on a table of pages, and on a table of tables. */
    predicate NoPages(t: TableId)
      reads this`pages
    {
      forall w | w in pages :: TableOf(w, 1, Addresses) != t
    }

    predicate NoTables(t: TableId)
      reads this`tables
    {
      (forall u | u in tables :: !IsBelow(u, t)) && (forall u | u in boot :: !IsBelow(u, t))
    }

    /** vmm_unmap_page and pmm_free_frame on a mapped page. */
    method UnmapAndFree(v: nat)
      requires Valid() && v in pages
      modifies this`pages, this`tables, pmm`freeCount, pmm`hint, pmm.free
      ensures Valid() && Pool() == old(Pool()) && pages == old(pages) - {v} && Within(tables, old(tables))
    {
      hide *;
      ValidIs();
      RestAfter(pages.Keys, v, boot);
      var frame := ClearPage(v);
      ReleaseTables(v, 1);
      ValidIs();
      GiveFrame(frame);
      ValidIs();
    }

    method ClearPage(v: nat) returns (frame: nat)
      requires Held() && v in pages
      modifies this`pages
      ensures Held() && pages == old(pages) - {v} && pages.Keys == old(pages).Keys - {v} && frame !in Pool()
      ensures frame in pmm.Usable()
      ensures Pool() + {frame} == old(Pool())
    {
      hide FrameAllocator.Valid, FrameAllocator.Free, FrameAllocator.Usable;
      ValuesRemove(pages, v);
      frame := pages[v];
      pages := pages - {v};
    }

    /** The unmapping loops of grow_heap and reclaim_trailing_block. */
    method UnmapRun(v: nat, count: nat)
      requires Valid() && PageSet(v, count) <= pages.Keys
      modifies this`pages, this`tables, pmm`freeCount, pmm`hint, pmm.free
      ensures Valid() && Pool() == old(Pool()) && pages == old(pages) - PageSet(v, count) && Within(tables, old(tables))
    {
      hide *;
      PageSetEmpty(v);
      WithinItself(tables);
      for n := 0 to count
        invariant Valid() && Pool() == old(Pool()) && pages == old(pages) - PageSet(v, n) && Within(tables, old(tables))
      {
        PageSetSnoc(v, n);
        PageSetIncludes(v, n, count);
        ghost var before := tables;
        UnmapAndFree(v + n * PAGE_SIZE);
        WithinTrans(tables, before, old(tables));
        assert old(pages) - PageSet(v, n + 1) == old(pages) - PageSet(v, n) - {v + n * PAGE_SIZE};
      }
    }

    /** The mapping loop of grow_heap: all pages, or none and nothing changed. */
    method MapRun(v: nat, count: nat) returns (ok: bool)
      requires Valid() && PageSet(v, count) !! pages.Keys
      modifies this`pages, this`tables, pmm`freeCount, pmm`hint, pmm.free
      ensures Valid() && Pool() == old(Pool())
      ensures ok <==> Cost(old(pages).Keys + PageSet(v, count), boot, Addresses) <= |Pool()|
      ensures ok ==> pages.Keys == old(pages).Keys + PageSet(v, count)
      ensures !ok ==> pages == old(pages) && tables == old(tables) && pmm.Free() == old(pmm.Free())
    {
      hide *;
      AddedNone(pages, v);
      WithinItself(tables);
      ValidIs();
      FreeIsRest();
      for n := 0 to count
        invariant Valid() && Pool() == old(Pool()) && Added(old(pages), pages, v, n) && Within(old(tables), tables)
      {
        AddedFresh(old(pages), pages, v, n, count);
        AddedIs(old(pages), pages, v, n);
        RunGrows(old(pages).Keys, pages.Keys, v, n, count, boot);
        ghost var before, was := pages, tables;
        ok := MapNew(v + n * PAGE_SIZE);
        if !ok {
          UnmapRun(v, n);
          ValidIs();
          BackAgain(old(tables), was, tables, old(pages).Keys, boot);
          FreeIsRest();
          return;
        }
        WithinTrans(old(tables), was, tables);
        AddedNext(old(pages), before, pages, v, n);
      }
      AddedIs(old(pages), pages, v, count);
      ValidIs();
      PoolCount();
      ok := true;
    }
  }

  lemma RunGrows(was: set<nat>, pages: set<nat>, v: nat, n: nat, count: nat, boot: set<TableId>)
    requires n < count && pages == was + PageSet(v, n)
    ensures Cost(pages + {v + n * PAGE_SIZE}, boot, Addresses) <= Cost(was + PageSet(v, count), boot, Addresses)
  {
    hide Cost, PageSet;
    PageSetIncludes(v, n, count);
    CostGrows(pages + {v + n * PAGE_SIZE}, was + PageSet(v, count), boot, Addresses);
  }

  /** Tables that were there before the run never left; the others are gone with its pages. */
  lemma BackAgain(tables: map<TableId, nat>, most: map<TableId, nat>, tables': map<TableId, nat>, pages: set<nat>,
                  boot: set<TableId>)
    requires Within(tables, most) && Within(tables', most)
    requires tables.Keys == Needed(pages, Addresses) - boot == tables'.Keys
    ensures tables' == tables
  {
    hide Needed;
    forall t | t in tables
      ensures t in tables' && tables'[t] == tables[t]
    {
      assert t in tables.Keys && t in most;
    }
    assert forall t | t in tables' :: t in tables'.Keys;
  }
}
