/**
 * User memory of one address space: the page map together with the contents of the frames behind it.
 */
module UserSpace {
  import opened Bytes
  import opened Options
  import opened PageTree
  import opened Pmm
  import opened Vmm
  import opened FrameBudget

  type Ram = map<nat, seq<byte>>

  function ZeroPage(): (s: seq<byte>)
    ensures |s| == PAGE_SIZE
  {
    seq(PAGE_SIZE, _ => 0)
  }

  /** The byte a user address reads. */
  ghost function ByteAt(view: View, r: nat, ram: Ram, va: nat): Option<byte>
  {
    var p := Page(r, va / PAGE_SIZE);
    if p in view && view[p].frame in ram && |ram[view[p].frame]| == PAGE_SIZE
    then Some(ram[view[p].frame][va % PAGE_SIZE])
    else None
  }

  /** Every page of the address space has a frame of its own, allocated and with contents. */
  ghost predicate Backed(view: View, r: nat, ram: Ram, usable: set<nat>, free: set<nat>)
  {
    && (forall p | p in view && p.root == r :: FrameOk(view[p].frame, ram, usable, free))
    && (forall p, q | p in view && q in view && p.root == r && q.root == r && p != q :: view[p].frame != view[q].frame)
  }

  ghost predicate FrameOk(f: nat, ram: Ram, usable: set<nat>, free: set<nat>)
  {
    f in usable && f !in free && f in ram && |ram[f]| == PAGE_SIZE
  }

  /** One page reads as `bytes`, every other address as before. */
  ghost predicate Rewritten(view: View, ram: Ram, view': View, ram': Ram, r: nat, vpn: nat, bytes: seq<byte>)
    requires |bytes| == PAGE_SIZE
  {
    forall va: nat :: ByteAt(view', r, ram', va) ==
        if va / PAGE_SIZE == vpn then Some(bytes[va % PAGE_SIZE]) else ByteAt(view, r, ram, va)
  }

  /** The bytes at va are `bytes`, every other address reads as before. */
  ghost predicate Stored(view: View, ram: Ram, ram': Ram, r: nat, va: nat, bytes: seq<byte>)
  {
    forall x: nat :: ByteAt(view, r, ram', x) ==
        if va <= x < va + |bytes| then Some(bytes[x - va]) else ByteAt(view, r, ram, x)
  }

  /** A page with some bytes replaced. */
  function Patch(page: seq<byte>, at: nat, bytes: seq<byte>): (s: seq<byte>)
    requires at + |bytes| <= |page|
    ensures |s| == |page|
  {
    page[..at] + bytes + page[at + |bytes|..]
  }

  lemma PatchStored(view: View, r: nat, ram: Ram, va: nat, bytes: seq<byte>, frame: nat)
    requires Page(r, va / PAGE_SIZE) in view && view[Page(r, va / PAGE_SIZE)].frame == frame && frame in ram
    requires |ram[frame]| == PAGE_SIZE
    requires va % PAGE_SIZE + |bytes| <= PAGE_SIZE
    requires Rewritten(view, ram, view, ram[frame := Patch(ram[frame], va % PAGE_SIZE, bytes)], r, va / PAGE_SIZE,
              Patch(ram[frame], va % PAGE_SIZE, bytes))
    ensures Stored(view, ram, ram[frame := Patch(ram[frame], va % PAGE_SIZE, bytes)], r, va, bytes)
  {
    var off := va % PAGE_SIZE;
    var page := Patch(ram[frame], off, bytes);
    var ram' := ram[frame := page];
    forall x: nat
      ensures ByteAt(view, r, ram', x) ==
                if va <= x < va + |bytes| then Some(bytes[x - va]) else ByteAt(view, r, ram, x)
    {
      SamePage(va, x, |bytes|);
      assert ByteAt(view, r, ram', x) ==
          if x / PAGE_SIZE == va / PAGE_SIZE then Some(page[x % PAGE_SIZE]) else ByteAt(view, r, ram, x);
    }
  }

  lemma SamePage(va: nat, x: nat, n: nat)
    requires va % PAGE_SIZE + n <= PAGE_SIZE
    ensures va <= x < va + n ==> x / PAGE_SIZE == va / PAGE_SIZE && x % PAGE_SIZE == va % PAGE_SIZE + (x - va)
    ensures x / PAGE_SIZE == va / PAGE_SIZE && !(va <= x < va + n) ==>
              x % PAGE_SIZE < va % PAGE_SIZE || va % PAGE_SIZE + n <= x % PAGE_SIZE
  {
  }

  /** The page at va is mapped exactly if the budget covers it and its tables; the budget itself stays. */
  ghost predicate PaidFor(budget: nat, pages: set<nat>, budget': nat, pages': set<nat>, va: nat, ok: bool)
  {
    && budget' == budget && (ok <==> Cost(pages + {va / PAGE_SIZE}) <= budget)
    && pages' == if ok then pages + {va / PAGE_SIZE} else pages
  }

  /** The page at va is gone; its frame and the tables only it needed are in the budget again. */
  ghost predicate Without(budget: nat, pages: set<nat>, budget': nat, pages': set<nat>, va: nat)
  {
    budget' == budget && pages' == pages - {va / PAGE_SIZE}
  }

  lemma WithoutIs(budget: nat, pages: set<nat>, budget': nat, pages': set<nat>, va: nat)
    ensures Without(budget, pages, budget', pages', va) <==> budget' == budget && pages' == pages - {va / PAGE_SIZE}
  {
  }

  lemma PaidForIs(budget: nat, pages: set<nat>, budget': nat, pages': set<nat>, va: nat, ok: bool)
    ensures PaidFor(budget, pages, budget', pages', va, ok) <==>
            && budget' == budget && (ok <==> Cost(pages + {va / PAGE_SIZE}) <= budget)
            && pages' == if ok then pages + {va / PAGE_SIZE} else pages
  {
    hide Cost;
  }

  /** What a page mapped with these flags denotes. */
  function LeafFor(frame: nat, flags: Flags): Leaf
  {
    Leaf(frame, flags.writable, flags.user, flags.noExecute)
  }

  /** One page was added to the map. */
  ghost predicate Added(view: View, view': View, p: Page, leaf: Leaf)
  {
    p !in view && view' == view[p := leaf]
  }

  lemma AddedMapped(view: View, view': View, p: Page, leaf: Leaf)
    requires Added(view, view', p, leaf)
    ensures Mapped(view', p.root) == Mapped(view, p.root) + {p.vpn}
    ensures Cost(Mapped(view', p.root)) == Cost(Mapped(view, p.root)) + 1 + TablesMissing(view, p)
  {
    hide Cost, Mapped, TablesMissing;
    assert view'.Keys == view.Keys + {p};
    MapCost(view, view', p);
  }

  lemma NewPageCost(view: View, p: Page)
    requires p !in view
    ensures Cost(Mapped(view, p.root) + {p.vpn}) == Cost(Mapped(view, p.root)) + 1 + TablesMissing(view, p)
  {
    hide Cost, Mapped, TablesMissing;
    var leaf := Leaf(0, false, false, false);
    AddedMapped(view, view[p := leaf], p, leaf);
  }

  lemma RemovedMapped(view: View, p: Page)
    requires p in view
    ensures Mapped(view - {p}, p.root) == Mapped(view, p.root) - {p.vpn}
    ensures Cost(Mapped(view, p.root)) == Cost(Mapped(view - {p}, p.root)) + 1 + TablesMissing(view - {p}, p)
  {
    hide Cost, Mapped, TablesMissing;
    assert view.Keys == (view - {p}).Keys + {p};
    MapCost(view - {p}, view, p);
    MappedIs(view - {p}, p.root, p.vpn);
  }

  /** Mapping a page to a frame nothing else uses. */
  lemma BackedAdd(view: View, r: nat, ram: Ram, usable: set<nat>, free: set<nat>, free': set<nat>, p: Page, leaf: Leaf,
                  bytes: seq<byte>)
    requires Backed(view, r, ram, usable, free) && p.root == r && p !in view && leaf.frame in free
    requires leaf.frame in usable
    requires free' <= free - {leaf.frame} && |bytes| == PAGE_SIZE
    ensures Backed(view[p := leaf], r, ram[leaf.frame := bytes], usable, free')
    ensures Rewritten(view, ram, view[p := leaf], ram[leaf.frame := bytes], r, p.vpn, bytes)
  {
    var view', ram' := view[p := leaf], ram[leaf.frame := bytes];
    forall va: nat
      ensures ByteAt(view', r, ram', va) ==
                if va / PAGE_SIZE == p.vpn then Some(bytes[va % PAGE_SIZE]) else ByteAt(view, r, ram, va)
    {
      var q := Page(r, va / PAGE_SIZE);
      assert q in view ==> FrameOk(view[q].frame, ram, usable, free);
    }
  }

  /** Changing the contents of one mapped page. */
  lemma BackedWrite(view: View, r: nat, ram: Ram, usable: set<nat>, free: set<nat>, p: Page, bytes: seq<byte>)
    requires Backed(view, r, ram, usable, free) && p in view && p.root == r && |bytes| == PAGE_SIZE
    ensures Backed(view, r, ram[view[p].frame := bytes], usable, free)
    ensures Rewritten(view, ram, view, ram[view[p].frame := bytes], r, p.vpn, bytes)
  {
    var ram' := ram[view[p].frame := bytes];
    forall va: nat
      ensures ByteAt(view, r, ram', va) ==
                if va / PAGE_SIZE == p.vpn then Some(bytes[va % PAGE_SIZE]) else ByteAt(view, r, ram, va)
    {
      var q := Page(r, va / PAGE_SIZE);
      assert q in view && q != p ==> view[q].frame != view[p].frame;
    }
  }

  /** Giving a page back. */
  lemma BackedRemove(view: View, r: nat, ram: Ram, usable: set<nat>, free: set<nat>, free': set<nat>, p: Page)
    requires Backed(view, r, ram, usable, free) && p in view && p.root == r
    requires forall q | q in view && q.root == r && q != p :: view[q].frame !in free'
    ensures Backed(view - {p}, r, ram, usable, free')
    ensures forall va: nat | va / PAGE_SIZE != p.vpn :: ByteAt(view - {p}, r, ram, va) == ByteAt(view, r, ram, va)
  {
  }

  class UserMemory {
    const spaces: AddressSpaces
    const pml4: nat
    var ram: Ram

    ghost predicate Valid()
      reads this, spaces, spaces.pmm, spaces.pmm.usable, spaces.pmm.free
    {
      && spaces.Valid() && spaces.initialized && IsRoot(pml4) && Label(Root(), 4, 0) in spaces.node
      && NoAlias(spaces.node, spaces.view, Root())
      && Backed(spaces.view, Root(), ram, spaces.pmm.Usable(), spaces.pmm.Free())
    }

    ghost function Root(): nat
    {
      pml4 / PAGE_SIZE
    }

    ghost function Byte(va: nat): Option<byte>
      reads this, spaces
    {
      ByteAt(spaces.view, Root(), ram, va)
    }

    /** The mapped page numbers. */
    ghost function Pages(): set<nat>
      reads spaces
    {
      Mapped(spaces.view, Root())
    }

    /** Free frames, and those that went into pages and their tables. */
    ghost function Budget(): nat
      reads spaces, spaces.pmm, spaces.pmm.free
    {
      |spaces.pmm.Free()| + Cost(Pages())
    }

    lemma BudgetIs()
      ensures Budget() == |spaces.pmm.Free()| + Cost(Pages()) && Pages() == Mapped(spaces.view, Root())
    {
    }

    /** A fresh address space, as vmm_create_address_space returns it. */
    constructor (spaces: AddressSpaces, pml4: nat)
      requires spaces.Valid() && spaces.initialized && IsRoot(pml4) && Label(pml4 / PAGE_SIZE, 4, 0) in spaces.node
      requires forall p | p in spaces.view :: p.root != pml4 / PAGE_SIZE
      ensures Valid() && this.spaces == spaces && this.pml4 == pml4 && forall va: nat :: Byte(va).None?
    {
      this.spaces, this.pml4 := spaces, pml4;
      ram := map[];
    }

    /** pmm_allocate_frame for user data. */
    method TakeFrame() returns (address: nat)
      requires Valid()
      modifies spaces.pmm`freeCount, spaces.pmm`hint, spaces.pmm.free
      ensures Valid() && spaces.pmm.Usable() == old(spaces.pmm.Usable())
      ensures address == 0 <==> old(spaces.pmm.Free()) == {}
      ensures address == 0 ==> spaces.pmm.Free() == old(spaces.pmm.Free())
      ensures address != 0 ==>
                var f := address / PAGE_SIZE;
                && address == f * PAGE_SIZE && f in old(spaces.pmm.Free()) && f in spaces.pmm.Usable()
                && spaces.pmm.Free() == old(spaces.pmm.Free()) - {f} && f !in spaces.node.Values
                    && f !in LeafFrames(spaces.view, Root())
    {
      hide Tree, Compact, FrameAllocator.Valid, FrameAllocator.Free, FrameAllocator.Usable;
      spaces.pmm.FreeIsUsable();
      address := spaces.pmm.AllocateFrame();
    }

    /** pmm_free_frame on a frame that neither a table nor a page of this address space uses. */
    method GiveFrame(address: nat)
      requires Valid() && address % PAGE_SIZE == 0
      requires var f := address / PAGE_SIZE;
               f in spaces.pmm.Usable() && f !in spaces.pmm.Free() && f !in spaces.node.Values
                   && f !in LeafFrames(spaces.view, Root())
      modifies spaces.pmm`freeCount, spaces.pmm`hint, spaces.pmm.free
      ensures Valid() && spaces.pmm.Usable() == old(spaces.pmm.Usable())
      ensures spaces.pmm.Free() == old(spaces.pmm.Free()) + {address / PAGE_SIZE}
    {
      hide Tree, Compact, FrameAllocator.Valid, FrameAllocator.Free, FrameAllocator.Usable, NoAlias;
      var freed := spaces.pmm.FreeFrame(address);
      assert freed;
    }

    lemma UsableBound(f: nat)
      requires Valid() && f in spaces.pmm.Usable()
      ensures f < 0x100_0000_0000
    {
      hide Tree, Compact, NoAlias, Backed;
    }

    /** vmm_map_page_in on a frame set aside for the page, which is then zeroed. */
    method Bind(va: nat, address: nat, flags: Flags) returns (ok: bool)
      requires Valid() && va % PAGE_SIZE == 0 && va < LOWER_HALF_END && !flags.other
      requires Page(Root(), va / PAGE_SIZE) !in spaces.view
      requires var f := address / PAGE_SIZE;
               && address % PAGE_SIZE == 0 && f in spaces.pmm.Usable() && f !in spaces.pmm.Free()
               && f !in spaces.node.Values && f !in LeafFrames(spaces.view, Root())
      modifies this`ram, spaces`mem, spaces`node, spaces`view, spaces.pmm`freeCount, spaces.pmm`hint, spaces.pmm.free
      ensures Valid() && spaces.pmm.Usable() == old(spaces.pmm.Usable())
      ensures ok ==> spaces.TeardownPool(Root()) == old(spaces.TeardownPool(Root())) + {address / PAGE_SIZE}
      ensures ok ==> Rewritten(old(spaces.view), old(ram), spaces.view, ram, Root(), va / PAGE_SIZE, ZeroPage())
      ensures ok ==>
                Added(old(spaces.view), spaces.view, Page(Root(), va / PAGE_SIZE), LeafFor(address / PAGE_SIZE, flags))
                && Extends(old(spaces.node), spaces.node)
      ensures !ok ==>
                spaces.view == old(spaces.view) && spaces.node == old(spaces.node) && ram == old(ram)
                && spaces.pmm.Free() == old(spaces.pmm.Free())
      ensures ok <==> TablesMissing(old(spaces.view), Page(Root(), va / PAGE_SIZE)) <= |old(spaces.pmm.Free())|
      ensures ok ==>
                |spaces.pmm.Free()| + TablesMissing(old(spaces.view), Page(Root(), va / PAGE_SIZE)) ==
                |old(spaces.pmm.Free())|
    {
      hide *;
      HalfOrder();
      Parts();
      PageOfRoot(va);
      CanBind(pml4, va, address, flags);
      PoolIs(spaces, Root());
      ghost var view, node, free := spaces.view, spaces.node, spaces.pmm.Free();
      UsableBound(address / PAGE_SIZE);
      LeafFrameOf(address, flags);
      SpacesFacts(spaces);
      ok := spaces.MapPage(pml4, va, address, flags);
      if !ok {
        Whole();
        return;
      }
      Adopt(PageOf(pml4, va), LeafOf(address, flags), view, node, free, spaces.pmm.Usable());
    }

    /** Clearing the frame of a page that was just mapped. */
    method Adopt(ghost p: Page, leaf: Leaf, ghost view: View, ghost node: Nodes, ghost free: set<nat>,
                 ghost usable: set<nat>)
      requires spaces.Valid() && spaces.initialized && IsRoot(pml4) && Label(Root(), 4, 0) in node
      requires Backed(view, Root(), ram, usable, free) && NoAlias(node, view, Root()) && p !in view && p.root == Root()
      requires free + node.Values == spaces.Pool() && Extends(node, spaces.node) && spaces.view == view[p := leaf]
      requires spaces.pmm.Usable() == usable
      requires leaf.frame in usable && leaf.frame !in free && leaf.frame !in node.Values
      requires leaf.frame !in LeafFrames(view, Root())
      modifies this`ram
      ensures Valid() && spaces.TeardownPool(Root()) ==
                free + node.Values + LeafFrames(view, Root()) * usable + {leaf.frame}
      ensures Rewritten(view, old(ram), spaces.view, ram, Root(), p.vpn, ZeroPage())
      ensures Added(view, spaces.view, p, leaf)
    {
      hide *;
      SpacesFacts(spaces);
      PoolIs(spaces, Root());
      BindStep(view, node, free, ram, usable, spaces.node, spaces.pmm.Free(), Root(), p, leaf);
      ram := ram[leaf.frame := ZeroPage()];
      Whole();
    }

    lemma HalfOrder()
      ensures LOWER_HALF_END <= UPPER_HALF_START && PAGE_SIZE > 0
    {
    }

    lemma PageOfRoot(va: nat)
      ensures PageOf(pml4, va) == Page(Root(), va / PAGE_SIZE) && Root() == pml4 / PAGE_SIZE
    {
    }

    lemma Parts()
      requires Valid()
      ensures spaces.Valid() && spaces.initialized && IsRoot(pml4) && Label(Root(), 4, 0) in spaces.node
      ensures NoAlias(spaces.node, spaces.view, Root())
      ensures Backed(spaces.view, Root(), ram, spaces.pmm.Usable(), spaces.pmm.Free())
    {
      hide AddressSpaces.Valid;
    }

    lemma Whole()
      requires spaces.Valid() && spaces.initialized && IsRoot(pml4) && Label(Root(), 4, 0) in spaces.node
      requires NoAlias(spaces.node, spaces.view, Root())
      requires Backed(spaces.view, Root(), ram, spaces.pmm.Usable(), spaces.pmm.Free())
      ensures Valid()
    {
      hide AddressSpaces.Valid;
    }

    /** A page that is not mapped gets a zeroed frame of its own; on failure nothing changes. */
    method MapZeroed(va: nat, flags: Flags) returns (ok: bool, frame: nat)
      requires Valid() && va % PAGE_SIZE == 0 && va < LOWER_HALF_END && !flags.other
      requires Page(Root(), va / PAGE_SIZE) !in spaces.view
      modifies this`ram, spaces`mem, spaces`node, spaces`view, spaces.pmm`freeCount, spaces.pmm`hint, spaces.pmm.free
      ensures Valid() && spaces.TeardownPool(Root()) == old(spaces.TeardownPool(Root()))
      ensures ok ==> Rewritten(old(spaces.view), old(ram), spaces.view, ram, Root(), va / PAGE_SIZE, ZeroPage())
      ensures ok ==>
                Added(old(spaces.view), spaces.view, Page(Root(), va / PAGE_SIZE), LeafFor(frame, flags))
                && Extends(old(spaces.node), spaces.node)
      ensures !ok ==>
                spaces.view == old(spaces.view) && spaces.node == old(spaces.node) && ram == old(ram)
                && spaces.pmm.Free() == old(spaces.pmm.Free())
      ensures PaidFor(old(Budget()), old(Pages()), Budget(), Pages(), va, ok)
    {
      hide *;
      HalfOrder();
      Distinct();
      BudgetIs();
      PoolIs(spaces, Root());
      var address := TakeFrame();
      frame := address / PAGE_SIZE;
      PoolIs(spaces, Root());
      BudgetIs();
      NewPageCost(spaces.view, Page(Root(), va / PAGE_SIZE));
      PaidForIs(old(Budget()), old(Pages()), Budget(), Pages(), va, false);
      if address == 0 {
        return false, frame;
      }
      Multiple(frame);
      ok := Bind(va, address, flags);
      if !ok {
        GiveFrame(address);
        PoolIs(spaces, Root());
      }
      BudgetIs();
      if ok {
        AddedMapped(old(spaces.view), spaces.view, Page(Root(), va / PAGE_SIZE), LeafFor(frame, flags));
      }
      PaidForIs(old(Budget()), old(Pages()), Budget(), Pages(), va, ok);
    }

    lemma Distinct()
      requires Valid()
      ensures spaces.pmm.usable != spaces.pmm.free
    {
      hide Tree, Compact, Frames, Consistent;
    }

    /** Copying into one mapped page through its frame. */
    method WriteInPage(va: nat, frame: nat, bytes: seq<byte>)
      requires Valid() && Page(Root(), va / PAGE_SIZE) in spaces.view
      requires spaces.view[Page(Root(), va / PAGE_SIZE)].frame == frame
      requires va % PAGE_SIZE + |bytes| <= PAGE_SIZE
      modifies this`ram
      ensures Valid() && Stored(spaces.view, old(ram), ram, Root(), va, bytes)
    {
      hide AddressSpaces.Valid, UserMemory.Valid, Stored, Rewritten, Patch, NoAlias, Backed, FrameAllocator.Free;
      hide FrameAllocator.Usable, Root;
      Parts();
      BackedAt(spaces.view, Root(), ram, spaces.pmm.Usable(), spaces.pmm.Free(), Page(Root(), va / PAGE_SIZE));
      var page := Patch(ram[frame], va % PAGE_SIZE, bytes);
      BackedWrite(spaces.view, Root(), ram, spaces.pmm.Usable(), spaces.pmm.Free(), Page(Root(), va / PAGE_SIZE), page);
      PatchStored(spaces.view, Root(), ram, va, bytes, frame);
      ram := ram[frame := page];
      Whole();
    }

    /** vmm_unmap_page_in alone: the frame is in nobody's use afterwards. */
    method Detach(va: nat) returns (pa: nat)
      requires Valid() && va % PAGE_SIZE == 0 && va < LOWER_HALF_END && Page(Root(), va / PAGE_SIZE) in spaces.view
      modifies spaces`mem, spaces`node, spaces`view, spaces.pmm`freeCount, spaces.pmm`hint, spaces.pmm.free
      ensures Valid() && spaces.pmm.Usable() == old(spaces.pmm.Usable())
      ensures spaces.view == old(spaces.view) - {Page(Root(), va / PAGE_SIZE)} && Extends(spaces.node, old(spaces.node))
      ensures var f := old(spaces.view)[Page(Root(), va / PAGE_SIZE)].frame;
              && pa == f * PAGE_SIZE && f in spaces.pmm.Usable() && f !in spaces.pmm.Free() && f !in spaces.node.Values
              && f !in LeafFrames(spaces.view, Root())
                  && spaces.TeardownPool(Root()) + {f} == old(spaces.TeardownPool(Root()))
      ensures Without(old(Budget()), old(Pages()), Budget() + 1, Pages(), va)
      ensures old(spaces.pmm.Free()) <= spaces.pmm.Free()
      ensures old(spaces.view)[Page(Root(), va / PAGE_SIZE)].frame !in spaces.TeardownPool(Root())
      ensures forall x: nat | x / PAGE_SIZE != va / PAGE_SIZE :: Byte(x) == old(Byte(x))
    {
      hide *;
      HalfOrder();
      Parts();
      ByteIs();
      PageOfRoot(va);
      PoolIs(spaces, Root());
      SpacesFacts(spaces);
      ghost var p := PageOf(pml4, va);
      ghost var view, node, free, table := spaces.view, spaces.node, spaces.pmm.Free(), spaces.mem;
      BudgetIs();
      PoolFacts(spaces);
      pa := spaces.UnmapPage(pml4, va);
      SpacesFacts(spaces);
      PoolIs(spaces, Root());
      PoolFacts(spaces);
      UnbindStep(view, node, free, ram, spaces.pmm.Usable(), spaces.node, spaces.pmm.Free(), Root(), p);
      DetachCost(table, node, view, free, spaces.mem, spaces.node, spaces.pmm.Free(), p);
      BudgetIs();
      WithoutIs(old(Budget()), old(Pages()), Budget() + 1, Pages(), va);
      Whole();
      ByteIs();
    }

    /** vmm_unmap_page_in and pmm_free_frame on a mapped page. */
    method Release(va: nat)
      requires Valid() && va % PAGE_SIZE == 0 && va < LOWER_HALF_END && Page(Root(), va / PAGE_SIZE) in spaces.view
      modifies spaces`mem, spaces`node, spaces`view, spaces.pmm`freeCount, spaces.pmm`hint, spaces.pmm.free
      ensures Valid() && spaces.TeardownPool(Root()) == old(spaces.TeardownPool(Root()))
      ensures spaces.view == old(spaces.view) - {Page(Root(), va / PAGE_SIZE)} && Extends(spaces.node, old(spaces.node))
      ensures forall x: nat | x / PAGE_SIZE != va / PAGE_SIZE :: Byte(x) == old(Byte(x))
      ensures Without(old(Budget()), old(Pages()), Budget(), Pages(), va)
    {
      hide *;
      HalfOrder();
      ByteIs();
      BudgetIs();
      Multiple(spaces.view[Page(Root(), va / PAGE_SIZE)].frame);
      var pa := Detach(va);
      PoolIs(spaces, Root());
      BudgetIs();
      WithoutIs(old(Budget()), old(Pages()), Budget() + 1, Pages(), va);
      GiveFrame(pa);
      PoolIs(spaces, Root());
      BudgetIs();
      WithoutIs(old(Budget()), old(Pages()), Budget(), Pages(), va);
      ByteIs();
    }

    /** vmm_clear_user_address_space: every page and every table but the PML4 goes back. */
    method Clear()
      requires Valid() && Root() != spaces.kernelRoot
      modifies spaces`mem, spaces`node, spaces`view, spaces.pmm`freeCount, spaces.pmm`hint, spaces.pmm.free
      ensures Valid() && spaces.pmm.Usable() == old(spaces.pmm.Usable())
      ensures spaces.view == old(spaces.view) - PagesOf(old(spaces.view), Root())
      ensures spaces.pmm.Free() ==
                old(spaces.pmm.Free()) + (TableFrames(old(spaces.node), Root()) - {Root()})
                + LeafFrames(old(spaces.view), Root()) * spaces.pmm.Usable()
      ensures Extends(spaces.node, old(spaces.node)) && spaces.TeardownPool(Root()) == old(spaces.TeardownPool(Root()))
      ensures forall x: nat :: Byte(x).None?
    {
      hide *;
      Parts();
      ghost var view, node, free := spaces.view, spaces.node, spaces.pmm.Free();
      PageOfRoot(0);
      SpacesFacts(spaces);
      PoolIs(spaces, Root());
      ClearedPool(spaces.mem, node, view, Root(), free, spaces.pmm.Usable());
      spaces.ClearUserAddressSpace(pml4);
      PoolIs(spaces, Root());
      ClearStep(view, node, spaces.node, ram, spaces.pmm.Usable(), spaces.pmm.Free(), Root());
      Whole();
      ByteIs();
    }

    /** The free frames are what the address space and the page tables do not hold. */
    lemma FreeIsRest()
      requires Valid()
      ensures spaces.pmm.Free() == spaces.TeardownPool(Root()) - spaces.node.Values - LeafFrames(spaces.view, Root())
    {
      hide AddressSpaces.Valid, FrameAllocator.Free, FrameAllocator.Usable, FrameAllocator.Valid;
      hide AddressSpaces.TeardownPool, Tree, Compact, NoAlias;
      Parts();
      PoolIs(spaces, Root());
      SpacesFacts(spaces);
    }

    lemma ByteIs()
      ensures forall x: nat :: Byte(x) == ByteAt(spaces.view, Root(), ram, x)
    {
    }

    lemma Multiple(f: nat)
      ensures f * PAGE_SIZE % PAGE_SIZE == 0 && f * PAGE_SIZE / PAGE_SIZE == f
    {
    }
  }

  lemma CanBind(pml4: nat, va: nat, pa: nat, flags: Flags)
    requires IsRoot(pml4) && va % PAGE_SIZE == 0 && va < LOWER_HALF_END && pa % PAGE_SIZE == 0 && !flags.other
    ensures Acceptable(pml4, va, pa, flags)
  {
  }

  lemma PoolIs(spaces: AddressSpaces, r: nat)
    ensures spaces.Pool() == spaces.pmm.Free() + spaces.node.Values
    ensures spaces.TeardownPool(r) ==
              spaces.pmm.Free() + spaces.node.Values + LeafFrames(spaces.view, r) * spaces.pmm.Usable()
  {
  }

  lemma LeafFrameOf(address: nat, flags: Flags)
    requires address / PAGE_SIZE < 0x100_0000_0000
    ensures LeafOf(address, flags) == LeafFor(address / PAGE_SIZE, flags)
    ensures LeafOf(address, flags).frame == address / PAGE_SIZE
  {
  }

  lemma PoolFacts(spaces: AddressSpaces)
    requires spaces.Valid()
    ensures Tree(spaces.mem, spaces.node, spaces.view) && Compact(spaces.node, spaces.view, {})
    ensures spaces.Pool() == spaces.pmm.Free() + spaces.node.Values && spaces.pmm.Free() !! spaces.node.Values
    ensures Injective(spaces.node)
  {
    hide Tree, Compact, FrameAllocator.Free, Injective;
    SpacesFacts(spaces);
    spaces.PoolIsDisjoint({});
    PoolIs(spaces, 0);
  }

  /** What unmapping a page leaves of the budget: everything but the frame of the page. */
  lemma DetachCost(m0: Memory, n0: Nodes, v0: View, free0: set<nat>, m1: Memory, n1: Nodes, free1: set<nat>, p: Page)
    requires Tree(m0, n0, v0) && Compact(n0, v0, {}) && p in v0 && Extends(n1, n0)
    requires Tree(m1, n1, v0 - {p}) && Compact(n1, v0 - {p}, {})
    requires free0 + n0.Values == free1 + n1.Values && free0 !! n0.Values && free1 !! n1.Values && Injective(n0)
    requires Injective(n1)
    ensures |free1| + Cost(Mapped(v0 - {p}, p.root)) + 1 == |free0| + Cost(Mapped(v0, p.root))
    ensures Mapped(v0 - {p}, p.root) == Mapped(v0, p.root) - {p.vpn}
  {
    hide *;
    UnmapBudget(m0, n0, v0, free0, m1, n1, free1, p);
    RemovedMapped(v0, p);
  }

  lemma SpacesFacts(spaces: AddressSpaces)
    requires spaces.Valid()
    ensures spaces.pmm.Valid() && spaces.pmm.usable != spaces.pmm.free
    ensures forall l | l in spaces.node :: spaces.node[l] !in spaces.pmm.Free()
    ensures Tree(spaces.mem, spaces.node, spaces.view) && Compact(spaces.node, spaces.view, {})
  {
    hide Tree, Compact, Frames, Consistent;
  }

  /** A page bound to frame f, while tables were added for it. */
  lemma BindStep(view: View, node: Nodes, free: set<nat>, ram: Ram, usable: set<nat>, node': Nodes, free': set<nat>,
                 r: nat, p: Page, leaf: Leaf)
    requires Backed(view, r, ram, usable, free) && NoAlias(node, view, r) && p !in view && p.root == r
    requires free + node.Values == free' + node'.Values && Extends(node, node')
    requires forall l | l in node' :: node'[l] !in free'
    requires leaf.frame in usable && leaf.frame !in free && leaf.frame !in node.Values
    requires leaf.frame !in LeafFrames(view, r)
    ensures Backed(view[p := leaf], r, ram[leaf.frame := ZeroPage()], usable, free')
    ensures NoAlias(node', view[p := leaf], r)
    ensures Rewritten(view, ram, view[p := leaf], ram[leaf.frame := ZeroPage()], r, p.vpn, ZeroPage())
    ensures free' + node'.Values + LeafFrames(view[p := leaf], r) * usable ==
              free + node.Values + LeafFrames(view, r) * usable + {leaf.frame}
    ensures Added(view, view[p := leaf], p, leaf) && (Label(r, 4, 0) in node ==> Label(r, 4, 0) in node')
  {
    hide Extends, Rewritten, NoAlias, ZeroPage;
    ExtendsKeeps(node, node', Label(r, 4, 0));
    FreeShrinks(free, node, free', node');
    NotATable(free, node, free', node', leaf.frame);
    LeafFramesAdd(view, r, p, leaf);
    PagesAreNotTables(view, node, free, ram, usable, node', free', r);
    NoAliasAdd(node', view, r, p, leaf);
    BackedMore(view, r, ram, usable, free, leaf.frame);
    BackedAdd(view, r, ram, usable, free + {leaf.frame}, free', p, leaf, ZeroPage());
  }

  lemma ExtendsKeeps(a: Nodes, b: Nodes, l: Label)
    requires Extends(a, b)
    ensures l in a ==> l in b
  {
  }

  /** A page taken out of the map: its frame is then in nobody's use. */
  lemma UnbindStep(view: View, node: Nodes, free: set<nat>, ram: Ram, usable: set<nat>, node': Nodes, free': set<nat>,
                   r: nat, p: Page)
    requires Backed(view, r, ram, usable, free) && NoAlias(node, view, r) && p in view && p.root == r
    requires free + node.Values == free' + node'.Values && Extends(node', node)
    ensures Backed(view - {p}, r, ram, usable, free') && NoAlias(node', view - {p}, r)
    ensures var f := view[p].frame;
            && f in usable && f !in free' && f !in node'.Values && f !in LeafFrames(view - {p}, r)
            && free' + node'.Values + LeafFrames(view - {p}, r) * usable + {f} ==
                free + node.Values + LeafFrames(view, r) * usable
    ensures (forall l | l in node :: node[l] !in free) ==> free <= free'
    ensures Label(r, 4, 0) in node ==> Label(r, 4, 0) in node'
    ensures forall x: nat | x / PAGE_SIZE != p.vpn :: ByteAt(view - {p}, r, ram, x) == ByteAt(view, r, ram, x)
  {
    hide Extends, NoAlias, ByteAt;
    ExtendsRoots(node', node, Label(r, 4, 0));
    LeafFramesRemove(view, p);
    PagesAreNotTables(view, node, free, ram, usable, node', free', r);
    PagesAreNotFree(view, node, free, ram, usable, node', free', r);
    BackedRemove(view, r, ram, usable, free, free', p);
    NoAliasLess(node', view, r, p);
    FreeGrows(free, node, free', node');
    OwnFrame(view, r, ram, usable, free, p);
  }

  lemma ClearStep(view: View, node: Nodes, node': Nodes, ram: Ram, usable: set<nat>, free: set<nat>, r: nat)
    requires Label(r, 4, 0) in node && node' == node - (LabelsOf(node, r) - {Label(r, 4, 0)})
    ensures var view' := view - PagesOf(view, r);
            && Backed(view', r, ram, usable, free) && NoAlias(node', view', r) && Label(r, 4, 0) in node'
            && forall x: nat :: ByteAt(view', r, ram, x).None?
  {
  }

  /** Tearing an address space down moves its tables and pages to the free frames. */
  lemma ClearedPool(mem: Memory, node: Nodes, view: View, r: nat, free: set<nat>, usable: set<nat>)
    requires Tree(mem, node, view) && Label(r, 4, 0) in node
    ensures var node' := node - (LabelsOf(node, r) - {Label(r, 4, 0)});
            free + (TableFrames(node, r) - {r}) + LeafFrames(view, r) * usable + node'.Values
                + LeafFrames(view - PagesOf(view, r), r) * usable
            == free + node.Values + LeafFrames(view, r) * usable
            && Extends(node', node)
  {
    hide Tree;
    var root := Label(r, 4, 0);
    var node' := node - (LabelsOf(node, r) - {root});
    RootFrame(mem, node, view, r);
    assert LeafFrames(view - PagesOf(view, r), r) == {};
    forall f
      ensures f in node.Values <==> f in node'.Values || f in TableFrames(node, r) - {r}
    {
      if f in node.Values && f !in node'.Values {
        var l :| l in node && node[l] == f;
        assert l !in node';
      }
      assert root in node' && node'[root] == r;
    }
  }

  lemma RootFrame(mem: Memory, node: Nodes, view: View, r: nat)
    requires Tree(mem, node, view) && Label(r, 4, 0) in node
    ensures node[Label(r, 4, 0)] == r && forall l | l in node && l.level == 4 && l.root == r :: l == Label(r, 4, 0)
  {
  }

  lemma PagesAreNotFree(view: View, node: Nodes, free: set<nat>, ram: Ram, usable: set<nat>, node': Nodes,
                        free': set<nat>, r: nat)
    requires Backed(view, r, ram, usable, free) && NoAlias(node, view, r) && free + node.Values == free' + node'.Values
    ensures forall q | q in view && q.root == r :: view[q].frame !in free'
  {
    forall q | q in view && q.root == r
      ensures view[q].frame !in free'
    {
      assert FrameOk(view[q].frame, ram, usable, free);
      NotATable(free, node, free', node', view[q].frame);
    }
  }

  lemma ExtendsRoots(a: Nodes, b: Nodes, l: Label)
    requires Extends(a, b) && l.level == 4
    ensures l in b ==> l in a
  {
  }

  lemma NoAliasLess(node: Nodes, view: View, r: nat, p: Page)
    requires forall q | q in view && q.root == r :: view[q].frame !in node.Values
    ensures NoAlias(node, view - {p}, r)
  {
    forall q, l | q in view - {p} && q.root == r && l in node
      ensures node[l] != (view - {p})[q].frame
    {
      assert node[l] in node.Values;
    }
  }

  lemma OwnFrame(view: View, r: nat, ram: Ram, usable: set<nat>, free: set<nat>, p: Page)
    requires Backed(view, r, ram, usable, free) && p in view && p.root == r
    ensures view[p].frame in usable && view[p].frame !in LeafFrames(view - {p}, r)
  {
  }

  lemma BackedAt(view: View, r: nat, ram: Ram, usable: set<nat>, free: set<nat>, p: Page)
    requires Backed(view, r, ram, usable, free) && p in view && p.root == r
    ensures view[p].frame in ram && |ram[view[p].frame]| == PAGE_SIZE && view[p].frame in usable
    ensures view[p].frame !in free
  {
  }

  lemma BackedMore(view: View, r: nat, ram: Ram, usable: set<nat>, free: set<nat>, f: nat)
    requires Backed(view, r, ram, usable, free) && f !in LeafFrames(view, r)
    ensures Backed(view, r, ram, usable, free + {f})
  {
  }

  lemma PagesAreNotTables(view: View, node: Nodes, free: set<nat>, ram: Ram, usable: set<nat>, node': Nodes,
                          free': set<nat>, r: nat)
    requires Backed(view, r, ram, usable, free) && NoAlias(node, view, r) && free + node.Values == free' + node'.Values
    ensures forall q | q in view && q.root == r :: view[q].frame !in node'.Values
  {
    forall q | q in view && q.root == r
      ensures view[q].frame !in node'.Values
    {
      assert FrameOk(view[q].frame, ram, usable, free);
      NotATable(free, node, free', node', view[q].frame);
    }
  }

  lemma FreeShrinks(free: set<nat>, node: Nodes, free': set<nat>, node': Nodes)
    requires free + node.Values == free' + node'.Values && Extends(node, node')
              && forall l | l in node' :: node'[l] !in free'
    ensures free' <= free
  {
    forall x | x in free'
      ensures x in free
    {
      assert x in free + node.Values;
      assert forall l | l in node :: node'[l] == node[l];
    }
  }

  lemma FreeGrows(free: set<nat>, node: Nodes, free': set<nat>, node': Nodes)
    requires free + node.Values == free' + node'.Values && Extends(node', node)
    ensures (forall l | l in node :: node[l] !in free) ==> free <= free'
  {
    forall x | x in free
      ensures x in free' || exists l :: l in node && node[l] in free
    {
      assert x in free + node.Values;
      if x in node'.Values {
        var l :| l in node' && node'[l] == x;
        assert l in node && node[l] == x;
      }
    }
  }

  lemma NotATable(free: set<nat>, node: Nodes, free': set<nat>, node': Nodes, f: nat)
    requires free + node.Values == free' + node'.Values && f !in free && f !in node.Values
    ensures f !in node'.Values && f !in free'
  {
    assert f !in free + node.Values;
  }

  lemma NoAliasAdd(node': Nodes, view: View, r: nat, p: Page, leaf: Leaf)
    requires leaf.frame !in node'.Values
    requires forall q | q in view && q.root == r :: view[q].frame !in node'.Values
    ensures NoAlias(node', view[p := leaf], r)
  {
    forall q, l | q in view[p := leaf] && q.root == r && l in node'
      ensures node'[l] != view[p := leaf][q].frame
    {
      assert node'[l] in node'.Values;
    }
  }

  lemma LeafFramesAdd(view: View, r: nat, p: Page, leaf: Leaf)
    requires p !in view && p.root == r
    ensures LeafFrames(view[p := leaf], r) == LeafFrames(view, r) + {leaf.frame} && view[p := leaf] - {p} == view
  {
    var view' := view[p := leaf];
    assert view' - {p} == view;
    LeafFramesRemove(view', p);
  }

  /** A page reads as something exactly when it is mapped. */
  lemma MappedReads(view: View, r: nat, ram: Ram, usable: set<nat>, free: set<nat>, vpn: nat)
    requires Backed(view, r, ram, usable, free)
    ensures forall va: nat | va / PAGE_SIZE == vpn :: ByteAt(view, r, ram, va).Some? <==> Page(r, vpn) in view
  {
    assert Page(r, vpn) in view ==> FrameOk(view[Page(r, vpn)].frame, ram, usable, free);
  }

  /** The page at `va`, mapped already or newly mapped and zeroed. */
  method EnsurePage(mem: UserMemory, va: nat, flags: Flags) returns (ok: bool, frame: nat, created: bool)
    requires mem.Valid() && va % PAGE_SIZE == 0 && va < LOWER_HALF_END && !flags.other
    modifies mem`ram, mem.spaces`mem, mem.spaces`node, mem.spaces`view, mem.spaces.pmm`freeCount, mem.spaces.pmm`hint,
        mem.spaces.pmm.free
    ensures mem.Valid() && mem.spaces.TeardownPool(mem.Root()) == old(mem.spaces.TeardownPool(mem.Root()))
    ensures var p := Page(mem.Root(), va / PAGE_SIZE);
            if p in old(mem.spaces.view) then ok && mem.spaces.view == old(mem.spaces.view) && mem.ram == old(mem.ram)
                && mem.spaces.node == old(mem.spaces.node)
            else ok ==>
                Rewritten(old(mem.spaces.view), old(mem.ram), mem.spaces.view, mem.ram, mem.Root(), va / PAGE_SIZE,
                ZeroPage())
                        && Added(old(mem.spaces.view), mem.spaces.view, p, LeafFor(frame, flags))
                            && Extends(old(mem.spaces.node), mem.spaces.node)
    ensures created <==> ok && Page(mem.Root(), va / PAGE_SIZE) !in old(mem.spaces.view)
    ensures ok ==>
              Page(mem.Root(), va / PAGE_SIZE) in mem.spaces.view
              && mem.spaces.view[Page(mem.Root(), va / PAGE_SIZE)].frame == frame
    ensures !ok ==>
              mem.spaces.view == old(mem.spaces.view) && mem.spaces.node == old(mem.spaces.node)
              && mem.ram == old(mem.ram) && mem.spaces.pmm.Free() == old(mem.spaces.pmm.Free())
    ensures PaidFor(old(mem.Budget()), old(mem.Pages()), mem.Budget(), mem.Pages(), va, ok)
  {
    hide Cost, Mapped, UserMemory.Valid, AddressSpaces.Valid, Rewritten, Extends, ZeroPage, FrameAllocator.Free;
    hide AddressSpaces.TeardownPool, LeafEntry, PublicFlags;
    mem.Parts();
    mem.PageOfRoot(va);
    MappedIs(mem.spaces.view, mem.Root(), va / PAGE_SIZE);
    mem.BudgetIs();
    var found, pa, _ := mem.spaces.QueryPage(mem.pml4, va);
    if found {
      assert mem.Pages() + {va / PAGE_SIZE} == mem.Pages();
      mem.Multiple(mem.spaces.view[Page(mem.Root(), va / PAGE_SIZE)].frame);
      return true, pa / PAGE_SIZE, false;
    }
    ok, frame := mem.MapZeroed(va, flags);
    created := ok;
  }
}
