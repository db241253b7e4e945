/**
 * Runs of the virtual memory manager as a caller sees them: a partial map from pages to frames, the frames the caller
 * took for itself, and a budget of free frames, out of which each table of the tree is paid for exactly as long as some
 * mapped page needs it.
 */
module PageMaps {
  import opened Bytes
  import opened Options
  import opened PageTree
  import opened Pmm
  import opened Vmm
  import opened FrameBudget
  import opened UserSpace

  /**
   * The address spaces made so far, in order, with 0 for those destroyed; the frames the caller was ever given; all
   * bindings; the frames that are the caller's now; the number of free frames.
   */
  datatype PageMap = PageMap(made: seq<nat>, taken: seq<nat>, view: View, held: set<nat>, free: nat)

  /** What to map: a physical address, or one of the frames taken. */
  datatype Source = At(pa: nat) | Own(i: nat)

  /** Address spaces are named by their position; a position without one stands for a null PML4. */
  datatype Op =
    | Create
    | Map(k: nat, va: nat, source: Source, flags: Flags)
    | Unmap(k: nat, va: nat)
    | Query(k: nat, va: nat)
    | Take
    | Give(i: nat)
    | Clear(k: nat)
    | Destroy(k: nat)

  datatype Reply =
    | Root(pml4: nat)
    | Mapped(ok: bool)
    | Unmapped(pa: nat)
    | Found(page: Option<(nat, Entry)>)
    | Frame(pa: nat)
    | Done

  /** What does not change: the frames the allocator manages, and the kernel's PML4. */
  datatype Machine = Machine(usable: set<nat>, kernelRoot: nat)

  function RootAt(made: seq<nat>, k: nat): nat
  {
    if k < |made| then made[k] else 0
  }

  function AddressOf(taken: seq<nat>, source: Source): nat
  {
    match source
    case At(pa) => pa
    case Own(i) => if i < |taken| then taken[i] * PAGE_SIZE else 0
  }

  /** The pages of the address space map frames of the caller, or memory the allocator does not manage. */
  ghost predicate Owned(m: Machine, s: PageMap, pml4: nat)
  {
    IsRoot(pml4) ==>
      forall p | p in s.view && p.root == pml4 / PAGE_SIZE ::
        s.view[p].frame in s.held || s.view[p].frame !in m.usable
  }

  /**
   * Addresses below the kernel half; a frame is given back by who holds it; teardown frees what the caller put there.
   */
  ghost predicate Allowed(m: Machine, op: Op, s: PageMap)
  {
    match op
    case Map(_, va, _, _) => va < UPPER_HALF_START
    case Unmap(_, va) => va < LOWER_HALF_END
    case Query(_, va) => va < LOWER_HALF_END
    case Give(i) => i < |s.taken| && s.taken[i] in s.held
    case Clear(k) => Owned(m, s, RootAt(s.made, k))
    case Destroy(k) => Owned(m, s, RootAt(s.made, k))
    case _ => true
  }

  ghost predicate Creates(s: PageMap, reply: Reply, s': PageMap)
  {
    if s.free == 0 then reply == Root(0) && s' == s
    else
      && reply.Root? && IsRoot(reply.pml4) && reply.pml4 !in s.made
      && s' == s.(made := s.made + [reply.pml4], free := s.free - 1)
  }

  ghost predicate Maps(s: PageMap, pml4: nat, va: nat, pa: nat, flags: Flags, reply: Reply, s': PageMap)
  {
    var p := PageOf(pml4, va);
    if Acceptable(pml4, va, pa, flags) && p !in s.view && TablesMissing(s.view, p) <= s.free
    then reply == Mapped(true)
        && s' == s.(view := s.view[p := LeafOf(pa, flags)], free := s.free - TablesMissing(s.view, p))
    else reply == Mapped(false) && s' == s
  }

  ghost predicate Unmaps(s: PageMap, pml4: nat, va: nat, reply: Reply, s': PageMap)
  {
    var p := PageOf(pml4, va);
    if va % PAGE_SIZE == 0 && IsRoot(pml4) && p in s.view
    then reply == Unmapped(s.view[p].frame * PAGE_SIZE)
        && s' == s.(view := s.view - {p}, free := s.free + TablesMissing(s.view - {p}, p))
    else reply == Unmapped(0) && s' == s
  }

  ghost function Answer(s: PageMap, pml4: nat, va: nat): Option<(nat, Entry)>
  {
    var p := PageOf(pml4, va);
    if IsRoot(pml4) && p in s.view then
      var leaf := s.view[p];
      Some((leaf.frame * 0x1000 + va % 0x1000,
            Entry(true, leaf.writable, leaf.user, leaf.noExecute, false, false, false, leaf.frame)))
    else None
  }

  ghost predicate Takes(m: Machine, s: PageMap, reply: Reply, s': PageMap)
  {
    if s.free == 0 then reply == Frame(0) && s' == s
    else
      && reply.Frame? && reply.pa > 0 && reply.pa % PAGE_SIZE == 0
      && var f := reply.pa / PAGE_SIZE;
         f in m.usable && f !in s.held && s' == s.(taken := s.taken + [f], held := s.held + {f}, free := s.free - 1)
  }

  ghost predicate Gives(s: PageMap, i: nat, s': PageMap)
  {
    i < |s.taken| && s' == s.(held := s.held - {s.taken[i]}, free := s.free + 1)
  }

  /** The tables below the PML4: one for each prefix the mapped pages have. */
  ghost function Tables(view: View, r: nat): nat
  {
    |Prefixes(view, r, 1)| + |Prefixes(view, r, 2)| + |Prefixes(view, r, 3)|
  }

  /** Everything below the PML4 is gone: pages, tables, and the caller's frames in them, each given back once. */
  ghost function Emptied(s: PageMap, r: nat): PageMap
  {
    s.(view := s.view - PagesOf(s.view, r), held := s.held - LeafFrames(s.view, r),
       free := s.free + Tables(s.view, r) + |LeafFrames(s.view, r) * s.held|)
  }

  ghost function Cleared(m: Machine, s: PageMap, pml4: nat): PageMap
  {
    if IsRoot(pml4) && pml4 / PAGE_SIZE != m.kernelRoot then Emptied(s, pml4 / PAGE_SIZE) else s
  }

  ghost function Destroyed(m: Machine, s: PageMap, k: nat): PageMap
  {
    var pml4 := RootAt(s.made, k);
    if k < |s.made| && IsRoot(pml4) && pml4 / PAGE_SIZE != m.kernelRoot
    then var e := Emptied(s, pml4 / PAGE_SIZE); e.(made := s.made[k := 0], free := e.free + 1)
    else s
  }

  ghost predicate Next(m: Machine, op: Op, s: PageMap, reply: Reply, s': PageMap)
  {
    match op
    case Create => Creates(s, reply, s')
    case Map(k, va, source, flags) => Maps(s, RootAt(s.made, k), va, AddressOf(s.taken, source), flags, reply, s')
    case Unmap(k, va) => Unmaps(s, RootAt(s.made, k), va, reply, s')
    case Query(k, va) => reply == Found(Answer(s, RootAt(s.made, k), va)) && s' == s
    case Take => Takes(m, s, reply, s')
    case Give(i) => reply == Done && Gives(s, i, s')
    case Clear(k) => reply == Done && s' == Cleared(m, s, RootAt(s.made, k))
    case Destroy(k) => reply == Done && s' == Destroyed(m, s, k)
  }

  ghost predicate Trace(m: Machine, ops: seq<Op>, ss: seq<PageMap>, replies: seq<Reply>)
  {
    |ss| == |ops| + 1 == |replies| + 1
        && forall i, j | 0 <= i < |ops| && j == i + 1 :: Next(m, ops[i], ss[i], replies[i], ss[j])
  }

  /** Whatever the replies are, the caller never does what it must not. */
  ghost predicate WellBehaved(m: Machine, ops: seq<Op>, s: PageMap)
  {
    forall n, ss, replies | 0 <= n < |ops| && Trace(m, ops[..n], ss, replies) && ss[0] == s :: Allowed(m, ops[n], ss[n])
  }

  /** Unmapping what was just mapped restores the map and the budget. */
  lemma MapUnmap(s: PageMap, s1: PageMap, s2: PageMap, r1: Reply, r2: Reply, pml4: nat, va: nat, pa: nat, flags: Flags)
    requires Maps(s, pml4, va, pa, flags, r1, s1) && r1 == Mapped(true) && Unmaps(s1, pml4, va, r2, s2)
    ensures s2 == s && r2 == Unmapped(LeafOf(pa, flags).frame * PAGE_SIZE)
  {
    hide TablesMissing, LeafOf;
    var p := PageOf(pml4, va);
    assert s.view[p := LeafOf(pa, flags)] - {p} == s.view;
  }

  /** A query of what was just mapped answers with the address and the permissions asked for. */
  lemma MapQuery(s: PageMap, s': PageMap, reply: Reply, pml4: nat, va: nat, pa: nat, flags: Flags)
    requires Maps(s, pml4, va, pa, flags, reply, s') && reply == Mapped(true)
    ensures var frame := pa / 0x1000 % 0x100_0000_0000;
            Answer(s', pml4, va) ==
            Some((frame * 0x1000, Entry(true, flags.writable, flags.user, flags.noExecute, false, false, false, frame)))
  {
    hide TablesMissing;
  }

  // ------------------------------------------------------------ the code

  /** The PML4s are those there were before, and those in the list; all tables there were before are still in place. */
  ghost predicate Known(made: seq<nat>, node: Nodes, base: Nodes)
  {
    && (forall i | 0 <= i < |made| && made[i] != 0 ::
          IsRoot(made[i]) && RootLabelOf(made[i]) in node && RootLabelOf(made[i]) !in base)
    && (forall i, j | 0 <= i < j < |made| && made[i] != 0 :: made[i] != made[j])
    && (forall l | l in node && l.level == 4 ::
          l in base || exists i :: 0 <= i < |made| && made[i] != 0 && l == RootLabelOf(made[i]))
    && BaseStays(base, node)
  }

  /** Every table belongs to some PML4, and all of them are still there. */
  ghost predicate BaseStays(base: Nodes, node: Nodes)
  {
    forall l | l in base :: l in node && node[l] == base[l] && Label(l.root, 4, 0) in base
  }

  /** The tables of other address spaces are as before. */
  ghost predicate OthersStay(node: Nodes, node': Nodes, r: nat)
  {
    forall l | l in node && l.root != r :: l in node' && node'[l] == node[l]
  }

  function RootLabelOf(pml4: nat): Label
  {
    Label(pml4 / PAGE_SIZE, 4, 0)
  }

  ghost predicate RootsStay(node: Nodes, node': Nodes)
  {
    forall l | l in node && l.level == 4 :: l in node' && node'[l] == node[l]
  }

  lemma KnownStays(made: seq<nat>, node: Nodes, node': Nodes, base: Nodes, r: nat)
    requires Known(made, node, base) && RootsStay(node, node') && RootsStay(node', node)
    requires OthersStay(node, node', r) && Label(r, 4, 0) !in base
    ensures Known(made, node', base)
  {
    hide RootLabelOf, IsRoot, BaseStays;
    LabelLevel(made);
    KeepsBase(node, node', base, r);
  }

  lemma KnownExtends(made: seq<nat>, node: Nodes, node': Nodes, base: Nodes)
    requires Known(made, node, base) && Extends(node, node')
    ensures Known(made, node', base)
  {
    hide RootLabelOf, IsRoot;
    LabelLevel(made);
  }

  lemma KeepsBase(node: Nodes, node': Nodes, base: Nodes, r: nat)
    requires BaseStays(base, node) && OthersStay(node, node', r) && Label(r, 4, 0) !in base
    ensures BaseStays(base, node')
  {
  }

  /** Unmapping a page removes tables of its own address space only. */
  lemma UnmapOthers(m0: Memory, n0: Nodes, v0: View, m1: Memory, n1: Nodes, p: Page)
    requires Tree(m0, n0, v0) && Compact(n0, v0, {}) && Tree(m1, n1, v0 - {p}) && Compact(n1, v0 - {p}, {})
    requires Extends(n1, n0)
    ensures OthersStay(n0, n1, p.root)
  {
    hide Tree, Compact;
    forall l | l in n0 && l.root != p.root
      ensures l in n1 && n1[l] == n0[l]
    {
      LabelLevels(m0, n0, v0, l);
      if l.level != 4 {
        TablesArePrefixes(m0, n0, v0, l.root, l.level);
        TablesArePrefixes(m1, n1, v0 - {p}, l.root, l.level);
        assert l in LabelsAt(n0, l.root, l.level);
        assert Prefixes(v0, l.root, l.level) == Prefixes(v0 - {p}, l.root, l.level);
      }
    }
  }

  lemma LabelLevel(made: seq<nat>)
    ensures forall i | 0 <= i < |made| :: RootLabelOf(made[i]).level == 4
  {
  }

  lemma ExtendsStays(a: Nodes, b: Nodes)
    requires Extends(a, b)
    ensures RootsStay(a, b) && RootsStay(b, a)
  {
  }

  lemma HalvesTrans(m0: Memory, m1: Memory, m2: Memory, n0: Nodes, n1: Nodes)
    requires SameUpperHalves(m0, m1, n0) && SameUpperHalves(m1, m2, n1) && RootsStay(n0, n1)
    ensures SameUpperHalves(m0, m2, n0)
  {
  }

  lemma KnownAt(made: seq<nat>, node: Nodes, base: Nodes, k: nat)
    requires Known(made, node, base)
    ensures IsRoot(RootAt(made, k)) ==>
              RootLabelOf(RootAt(made, k)) in node && Label(RootAt(made, k) / PAGE_SIZE, 4, 0) in node
    ensures IsRoot(RootAt(made, k)) ==> RootLabelOf(RootAt(made, k)) !in base
    ensures RootsStay(base, node)
  {
  }

  /** The state of the code is the abstract one; the caller's frames are neither free nor tables. */
  ghost predicate Is(spaces: AddressSpaces, m: Machine, s: PageMap, base: Nodes)
    reads spaces, spaces.pmm, spaces.pmm.usable, spaces.pmm.free
  {
    && spaces.Valid() && spaces.initialized && m == Machine(spaces.pmm.Usable(), spaces.kernelRoot)
    && s.view == spaces.view && s.free == |spaces.pmm.Free()| && Known(s.made, spaces.node, base)
    && s.held <= m.usable && s.held !! spaces.Pool()
  }

  lemma IsParts(spaces: AddressSpaces, m: Machine, s: PageMap, base: Nodes)
    requires Is(spaces, m, s, base)
    ensures spaces.Valid() && spaces.initialized && m == Machine(spaces.pmm.Usable(), spaces.kernelRoot)
    ensures s.view == spaces.view && s.free == |spaces.pmm.Free()| && Known(s.made, spaces.node, base)
    ensures s.held <= m.usable && s.held !! spaces.Pool()
  {
    hide AddressSpaces.Valid, FrameAllocator.Free, FrameAllocator.Usable, AddressSpaces.Pool, Known;
  }

  lemma IsWhole(spaces: AddressSpaces, m: Machine, s: PageMap, base: Nodes)
    requires spaces.Valid() && spaces.initialized && m == Machine(spaces.pmm.Usable(), spaces.kernelRoot)
    requires s.view == spaces.view && s.free == |spaces.pmm.Free()| && Known(s.made, spaces.node, base)
    requires s.held <= m.usable && s.held !! spaces.Pool()
    ensures Is(spaces, m, s, base)
  {
    hide AddressSpaces.Valid, FrameAllocator.Free, FrameAllocator.Usable, AddressSpaces.Pool, Known;
  }

  /** No frame is lost between the allocator, the tables and the caller. */
  ghost predicate Conserves(pool: set<nat>, held: set<nat>, pool': set<nat>, held': set<nat>)
  {
    pool' + held' == pool + held
  }

  lemma KnownMore(made: seq<nat>, node: Nodes, base: Nodes, pml4: nat)
    requires Known(made, node, base) && IsRoot(pml4) && RootLabelOf(pml4) !in node
    ensures Known(made + [pml4], node[RootLabelOf(pml4) := pml4 / PAGE_SIZE], base) && pml4 !in made
  {
    hide RootLabelOf;
    LabelLevel(made + [pml4]);
    var more, node' := made + [pml4], node[RootLabelOf(pml4) := pml4 / PAGE_SIZE];
    assert more[|made|] == pml4;
    forall l | l in node' && l.level == 4
      ensures l in base || exists i :: 0 <= i < |more| && more[i] != 0 && l == RootLabelOf(more[i])
    {
      if l in node && l !in base {
        var i :| 0 <= i < |made| && made[i] != 0 && l == RootLabelOf(made[i]);
        assert more[i] == made[i];
      }
    }
  }

  /** vmm_create_address_space */
  method DoCreate(spaces: AddressSpaces, made: seq<nat>, ghost m: Machine, ghost s: PageMap, ghost base: Nodes)
    returns (reply: Reply, made': seq<nat>, ghost s': PageMap)
    requires Is(spaces, m, s, base) && s.made == made
    modifies spaces`mem, spaces`node, spaces.pmm`freeCount, spaces.pmm`hint, spaces.pmm.free
    ensures Is(spaces, m, s', base) && s'.made == made' && s'.taken == s.taken && Creates(s, reply, s')
    ensures SameUpperHalves(old(spaces.mem), spaces.mem, old(spaces.node))
    ensures Conserves(old(spaces.Pool()), s.held, spaces.Pool(), s'.held)
  {
    hide *;
    IsParts(spaces, m, s, base);
    SpacesFacts(spaces);
    var pml4 := spaces.CreateAddressSpace();
    reply, made', s' := Root(pml4), made, s;
    if pml4 != 0 {
      made', s' := made + [pml4], s.(made := s.made + [pml4], free := s.free - 1);
      LabelOfRoot(pml4);
      KnownMore(made, old(spaces.node), base, pml4);
    }
    IsWhole(spaces, m, s', base);
    CreatesIs(s, reply, s');
    ConservesIs(old(spaces.Pool()), s.held, spaces.Pool(), s'.held);
  }

  lemma LabelOfRoot(pml4: nat)
    ensures PAGE_SIZE > 0 && RootLabelOf(pml4) == Label(pml4 / PAGE_SIZE, 4, 0)
  {
  }

  lemma CreatesIs(s: PageMap, reply: Reply, s': PageMap)
    ensures Creates(s, reply, s') <==>
            if s.free == 0 then reply == Root(0) && s' == s
            else
              && reply.Root? && IsRoot(reply.pml4) && reply.pml4 !in s.made
              && s' == s.(made := s.made + [reply.pml4], free := s.free - 1)
  {
  }

  lemma ConservesIs(pool: set<nat>, held: set<nat>, pool': set<nat>, held': set<nat>)
    ensures Conserves(pool, held, pool', held') <==> pool' + held' == pool + held
  {
  }

  /** vmm_map_page_in */
  method DoMap(spaces: AddressSpaces, pml4: nat, va: nat, pa: nat, flags: Flags, ghost m: Machine, ghost s: PageMap,
               ghost base: Nodes)
    returns (reply: Reply, ghost s': PageMap)
    requires Is(spaces, m, s, base) && va < UPPER_HALF_START && (IsRoot(pml4) ==> RootLabelOf(pml4) in spaces.node)
    modifies spaces`mem, spaces`node, spaces`view, spaces.pmm`freeCount, spaces.pmm`hint, spaces.pmm.free
    ensures Is(spaces, m, s', base) && s'.made == s.made && s'.taken == s.taken
    ensures Maps(s, pml4, va, pa, flags, reply, s')
    ensures SameUpperHalves(old(spaces.mem), spaces.mem, old(spaces.node))
    ensures Conserves(old(spaces.Pool()), s.held, spaces.Pool(), s'.held)
  {
    hide *;
    IsParts(spaces, m, s, base);
    SpacesFacts(spaces);
    LabelOfRoot(pml4);
    var ok := spaces.MapPage(pml4, va, pa, flags);
    reply, s' := Mapped(ok), s;
    if ok {
      ExtendsStays(old(spaces.node), spaces.node);
      KnownExtends(s.made, old(spaces.node), spaces.node, base);
      s' := s.(view := spaces.view, free := |spaces.pmm.Free()|);
    }
    IsWhole(spaces, m, s', base);
    MapsIs(s, pml4, va, pa, flags, reply, s');
    ConservesIs(old(spaces.Pool()), s.held, spaces.Pool(), s'.held);
  }

  lemma MapsIs(s: PageMap, pml4: nat, va: nat, pa: nat, flags: Flags, reply: Reply, s': PageMap)
    ensures Maps(s, pml4, va, pa, flags, reply, s') <==>
            var p := PageOf(pml4, va);
            if Acceptable(pml4, va, pa, flags) && p !in s.view && TablesMissing(s.view, p) <= s.free
            then reply == Mapped(true)
                && s' == s.(view := s.view[p := LeafOf(pa, flags)], free := s.free - TablesMissing(s.view, p))
            else reply == Mapped(false) && s' == s
  {
    hide TablesMissing, LeafOf, Acceptable;
  }

  /** vmm_unmap_page_in */
  method DoUnmap(spaces: AddressSpaces, pml4: nat, va: nat, ghost m: Machine, ghost s: PageMap, ghost base: Nodes)
    returns (reply: Reply, ghost s': PageMap)
    requires Is(spaces, m, s, base) && va < LOWER_HALF_END
    requires IsRoot(pml4) ==> RootLabelOf(pml4) in spaces.node && RootLabelOf(pml4) !in base
    modifies spaces`mem, spaces`node, spaces`view, spaces.pmm`freeCount, spaces.pmm`hint, spaces.pmm.free
    ensures Is(spaces, m, s', base) && s'.made == s.made && s'.taken == s.taken && Unmaps(s, pml4, va, reply, s')
    ensures SameUpperHalves(old(spaces.mem), spaces.mem, old(spaces.node))
    ensures Conserves(old(spaces.Pool()), s.held, spaces.Pool(), s'.held)
  {
    hide *;
    IsParts(spaces, m, s, base);
    SpacesFacts(spaces);
    PoolFacts(spaces);
    LabelOfRoot(pml4);
    ghost var table := spaces.mem;
    var pa := spaces.UnmapPage(pml4, va);
    PoolFacts(spaces);
    reply, s' := Unmapped(pa), s;
    if va % PAGE_SIZE == 0 && IsRoot(pml4) && PageOf(pml4, va) in old(spaces.view) {
      ExtendsStays(spaces.node, old(spaces.node));
      PageOfIs(pml4, va);
      UnmapOthers(table, old(spaces.node), old(spaces.view), spaces.mem, spaces.node, PageOf(pml4, va));
      KnownStays(s.made, old(spaces.node), spaces.node, base, pml4 / PAGE_SIZE);
      UnmapBudget(table, old(spaces.node), old(spaces.view), old(spaces.pmm.Free()), spaces.mem, spaces.node,
          spaces.pmm.Free(), PageOf(pml4, va));
      s' := s.(view := spaces.view, free := |spaces.pmm.Free()|);
    }
    IsWhole(spaces, m, s', base);
    UnmapsIs(s, pml4, va, reply, s');
    ConservesIs(old(spaces.Pool()), s.held, spaces.Pool(), s'.held);
  }

  lemma PageOfIs(pml4: nat, va: nat)
    ensures PageOf(pml4, va).root == pml4 / PAGE_SIZE
  {
  }

  lemma UnmapsIs(s: PageMap, pml4: nat, va: nat, reply: Reply, s': PageMap)
    ensures Unmaps(s, pml4, va, reply, s') <==>
            var p := PageOf(pml4, va);
            if va % PAGE_SIZE == 0 && IsRoot(pml4) && p in s.view
            then reply == Unmapped(s.view[p].frame * PAGE_SIZE)
                && s' == s.(view := s.view - {p}, free := s.free + TablesMissing(s.view - {p}, p))
            else reply == Unmapped(0) && s' == s
  {
    hide TablesMissing, IsRoot;
  }

  /** vmm_query_page_in */
  method DoQuery(spaces: AddressSpaces, pml4: nat, va: nat, ghost m: Machine, ghost s: PageMap, ghost base: Nodes)
    returns (reply: Reply)
    requires Is(spaces, m, s, base) && va < LOWER_HALF_END && (IsRoot(pml4) ==> RootLabelOf(pml4) in spaces.node)
    ensures reply == Found(Answer(s, pml4, va))
  {
    hide Tree, Compact, AddressSpaces.Valid, FrameAllocator.Free, FrameAllocator.Usable, Is;
    IsParts(spaces, m, s, base);
    var found, pa, flags := spaces.QueryPage(pml4, va);
    reply := Found(if found then Some((pa, flags)) else None);
  }

  /** pmm_allocate_frame, while the tables stay. */
  method TakeFrame(spaces: AddressSpaces) returns (address: nat)
    requires spaces.Valid() && spaces.initialized
    modifies spaces.pmm`freeCount, spaces.pmm`hint, spaces.pmm.free
    ensures spaces.Valid() && spaces.pmm.Usable() == old(spaces.pmm.Usable())
    ensures address == 0 <==> |old(spaces.pmm.Free())| == 0
    ensures address == 0 ==> |spaces.pmm.Free()| == 0 && spaces.Pool() == old(spaces.Pool())
    ensures address != 0 ==>
              var f := address / PAGE_SIZE;
              && address % PAGE_SIZE == 0 && f in spaces.pmm.Usable() && f in old(spaces.Pool())
                  && spaces.Pool() == old(spaces.Pool()) - {f}
              && |spaces.pmm.Free()| + 1 == |old(spaces.pmm.Free())|
  {
    hide Tree, Compact, FrameAllocator.Valid, FrameAllocator.Free, FrameAllocator.Usable;
    spaces.pmm.FreeIsUsable();
    spaces.PoolIsDisjoint({});
    address := spaces.pmm.AllocateFrame();
  }

  /** pmm_free_frame on a frame that is neither free nor a table. */
  method GiveFrame(spaces: AddressSpaces, frame: nat)
    requires spaces.Valid() && frame in spaces.pmm.Usable() && frame !in spaces.Pool()
    modifies spaces.pmm`freeCount, spaces.pmm`hint, spaces.pmm.free
    ensures spaces.Valid() && spaces.pmm.Usable() == old(spaces.pmm.Usable())
    ensures spaces.Pool() == old(spaces.Pool()) + {frame} && |spaces.pmm.Free()| == |old(spaces.pmm.Free())| + 1
  {
    hide *;
    PoolIs(spaces, 0);
    MayGive(spaces, frame);
    var freed := spaces.pmm.FreeFrame(frame * FRAME_SIZE);
    PoolIs(spaces, 0);
    StaysValid(spaces);
  }

  lemma StaysValid(spaces: AddressSpaces)
    requires spaces.pmm.Valid() && spaces.pmm.initialized && |spaces.kernel| == 512
    requires Tree(spaces.mem, spaces.node, spaces.view) && Compact(spaces.node, spaces.view, {})
    requires spaces.node.Values <= spaces.pmm.Usable() && spaces.node.Values !! spaces.pmm.Free()
    ensures spaces.Valid()
  {
    hide Tree, Compact, FrameAllocator.Free, FrameAllocator.Usable, FrameAllocator.Valid;
    assert forall l | l in spaces.node :: spaces.node[l] in spaces.node.Values;
  }

  lemma MayGive(spaces: AddressSpaces, frame: nat)
    requires spaces.Valid() && frame in spaces.pmm.Usable() && frame !in spaces.Pool()
    ensures spaces.pmm.Valid() && spaces.pmm.initialized && |spaces.kernel| == 512
    ensures spaces.pmm.usable != spaces.pmm.free
    ensures Tree(spaces.mem, spaces.node, spaces.view) && Compact(spaces.node, spaces.view, {})
    ensures spaces.node.Values <= spaces.pmm.Usable() && spaces.node.Values !! spaces.pmm.Free()
    ensures frame !in spaces.pmm.Free() && frame !in spaces.node.Values && frame * FRAME_SIZE / FRAME_SIZE == frame
    ensures frame * FRAME_SIZE % FRAME_SIZE == 0
  {
    hide Tree, Compact, FrameAllocator.Free, FrameAllocator.Usable;
  }

  /** pmm_allocate_frame for the caller. */
  method DoTake(spaces: AddressSpaces, taken: seq<nat>, ghost m: Machine, ghost s: PageMap, ghost base: Nodes)
    returns (reply: Reply, taken': seq<nat>, ghost s': PageMap)
    requires Is(spaces, m, s, base) && s.taken == taken
    modifies spaces.pmm`freeCount, spaces.pmm`hint, spaces.pmm.free
    ensures Is(spaces, m, s', base) && s'.taken == taken' && s'.made == s.made && Takes(m, s, reply, s')
    ensures Conserves(old(spaces.Pool()), s.held, spaces.Pool(), s'.held)
  {
    hide *;
    LabelOfRoot(0);
    IsParts(spaces, m, s, base);
    ConservesIs(spaces.Pool(), s.held, spaces.Pool(), s.held);
    var address := TakeFrame(spaces);
    reply, taken', s' := Frame(address), taken, s;
    if address != 0 {
      var f := address / PAGE_SIZE;
      TakenPool(old(spaces.Pool()), s.held, f, m.usable);
      taken', s' := taken + [f], s.(taken := s.taken + [f], held := s.held + {f}, free := s.free - 1);
    }
    IsWhole(spaces, m, s', base);
    TakesIs(m, s, reply, s');
  }

  lemma TakenPool(pool: set<nat>, held: set<nat>, f: nat, usable: set<nat>)
    requires f in pool && held !! pool && held <= usable && f in usable
    ensures f !in held && held + {f} <= usable && (held + {f}) !! pool - {f}
    ensures Conserves(pool, held, pool - {f}, held + {f})
  {
  }

  lemma TakesIs(m: Machine, s: PageMap, reply: Reply, s': PageMap)
    ensures Takes(m, s, reply, s') <==>
            if s.free == 0 then reply == Frame(0) && s' == s
            else
              && reply.Frame? && reply.pa > 0 && reply.pa % PAGE_SIZE == 0
              && var f := reply.pa / PAGE_SIZE;
                 f in m.usable && f !in s.held
                     && s' == s.(taken := s.taken + [f], held := s.held + {f}, free := s.free - 1)
  {
  }

  /** pmm_free_frame by the caller. */
  method DoGive(spaces: AddressSpaces, frame: nat, ghost i: nat, ghost m: Machine, ghost s: PageMap, ghost base: Nodes)
    returns (reply: Reply, ghost s': PageMap)
    requires Is(spaces, m, s, base) && i < |s.taken| && s.taken[i] == frame && frame in s.held
    modifies spaces.pmm`freeCount, spaces.pmm`hint, spaces.pmm.free
    ensures Is(spaces, m, s', base) && s'.taken == s.taken && s'.made == s.made && reply == Done && Gives(s, i, s')
    ensures Conserves(old(spaces.Pool()), s.held, spaces.Pool(), s'.held)
  {
    hide *;
    IsParts(spaces, m, s, base);
    SpacesFacts(spaces);
    GiveFrame(spaces, frame);
    reply, s' := Done, s.(held := s.held - {frame}, free := s.free + 1);
    IsWhole(spaces, m, s', base);
    GivesIs(s, i, s');
    ConservesIs(old(spaces.Pool()), s.held, spaces.Pool(), s'.held);
  }

  lemma GivesIs(s: PageMap, i: nat, s': PageMap)
    ensures Gives(s, i, s') <==> i < |s.taken| && s' == s.(held := s.held - {s.taken[i]}, free := s.free + 1)
  {
  }

  // ------------------------------------------------------------ tearing down

  lemma TablesAreUsable(spaces: AddressSpaces)
    requires spaces.Valid()
    ensures spaces.node.Values <= spaces.pmm.Usable()
  {
    hide Tree, Compact, FrameAllocator.Valid, FrameAllocator.Free, FrameAllocator.Usable;
  }

  lemma OwnedIs(m: Machine, s: PageMap, pml4: nat)
    requires Owned(m, s, pml4) && IsRoot(pml4)
    ensures forall p | p in s.view && p.root == pml4 / PAGE_SIZE :: s.view[p].frame in s.held
              || s.view[p].frame !in m.usable
  {
  }

  /** What the caller owns is no table. */
  lemma OwnedNoAlias(m: Machine, s: PageMap, r: nat, node: Nodes)
    requires forall p | p in s.view && p.root == r :: s.view[p].frame in s.held || s.view[p].frame !in m.usable
    requires s.held !! node.Values && node.Values <= m.usable && s.held <= m.usable
    ensures NoAlias(node, s.view, r) && LeafFrames(s.view, r) * m.usable == LeafFrames(s.view, r) * s.held
  {
    forall p, l | p in s.view && p.root == r && l in node
      ensures node[l] != s.view[p].frame
    {
      assert node[l] in node.Values;
    }
  }

  /** How many frames a teardown frees. */
  lemma TornCount(mem: Memory, node: Nodes, view: View, r: nat, free: set<nat>, leaves: set<nat>)
    requires Tree(mem, node, view) && Compact(node, view, {}) && Label(r, 4, 0) in node && free !! node.Values
    requires leaves !! free && leaves !! node.Values
    ensures |free + (TableFrames(node, r) - {r}) + leaves| == |free| + Tables(view, r) + |leaves|
    ensures |free + TableFrames(node, r) + leaves| == |free| + Tables(view, r) + 1 + |leaves|
  {
    hide Tree, Compact, Prefixes;
    FramesHeld(mem, node, view, r);
    RootFrame(mem, node, view, r);
    var tables := TableFrames(node, r);
    assert tables <= node.Values && r in tables by {
      assert node[Label(r, 4, 0)] == r;
    }
    assert |tables - {r}| == |tables| - 1;
    assert free !! tables && (free + tables) !! leaves && (free + (tables - {r})) !! leaves;
  }

  lemma RootsAreRoots(spaces: AddressSpaces)
    requires spaces.Valid()
    ensures forall l | l in spaces.node && l.level == 4 :: l == Label(l.root, 4, 0)
  {
    hide Tree, Compact, FrameAllocator.Free, FrameAllocator.Usable;
    SpacesFacts(spaces);
    spaces.PoolIsDisjoint({});
  }

  lemma ClearStays(node: Nodes, r: nat)
    requires forall l | l in node && l.level == 4 :: l == Label(l.root, 4, 0)
    ensures var node' := node - (LabelsOf(node, r) - {Label(r, 4, 0)});
            RootsStay(node, node') && RootsStay(node', node) && OthersStay(node, node', r)
  {
  }

  /** What tearing down needs to know of the state before. */
  ghost predicate Teardown(m: Machine, s: PageMap, r: nat, mem: Memory, node: Nodes, free: set<nat>)
  {
    && Tree(mem, node, s.view) && Compact(node, s.view, {}) && Label(r, 4, 0) in node && free !! node.Values
        && node.Values <= m.usable
    && s.free == |free| && s.held <= m.usable && s.held !! free + node.Values
    && (forall l | l in node && l.level == 4 :: l == Label(l.root, 4, 0))
    && (forall p | p in s.view && p.root == r :: s.view[p].frame in s.held || s.view[p].frame !in m.usable)
  }

  lemma TeardownNow(spaces: AddressSpaces, m: Machine, s: PageMap, base: Nodes, pml4: nat)
    requires Is(spaces, m, s, base) && Owned(m, s, pml4) && IsRoot(pml4) && RootLabelOf(pml4) in spaces.node
    ensures Teardown(m, s, pml4 / PAGE_SIZE, spaces.mem, spaces.node, spaces.pmm.Free())
    ensures NoAlias(spaces.node, spaces.view, pml4 / PAGE_SIZE)
  {
    hide Tree, Compact, NoAlias, AddressSpaces.Valid, FrameAllocator.Free, FrameAllocator.Usable, Known, Is, LeafFrames;
    hide AddressSpaces.Pool, Injective;
    IsParts(spaces, m, s, base);
    PoolFacts(spaces);
    RootsAreRoots(spaces);
    TablesAreUsable(spaces);
    OwnedIs(m, s, pml4);
    OwnedNoAlias(m, s, pml4 / PAGE_SIZE, spaces.node);
  }

  lemma ClearResult(m: Machine, s: PageMap, r: nat, mem: Memory, node: Nodes, free: set<nat>, base: Nodes, node': Nodes,
                    free': set<nat>)
    requires Teardown(m, s, r, mem, node, free) && Known(s.made, node, base) && Label(r, 4, 0) !in base
    requires node' == node - (LabelsOf(node, r) - {Label(r, 4, 0)})
    requires free' == free + (TableFrames(node, r) - {r}) + LeafFrames(s.view, r) * m.usable
    ensures Known(s.made, node', base) && Emptied(s, r).free == |free'|
    ensures Emptied(s, r).held !! free' + node'.Values
    ensures Conserves(free + node.Values, s.held, free' + node'.Values, Emptied(s, r).held)
  {
    hide Tree, Compact, Known, LeafFrames, LabelsOf, TableFrames, Tables, PagesOf;
    OwnedNoAlias(m, s, r, node);
    var leaves := LeafFrames(s.view, r) * s.held;
    ClearStays(node, r);
    KnownStays(s.made, node, node', base, r);
    TornCount(mem, node, s.view, r, free, leaves);
    ClearedPool(mem, node, s.view, r, free, m.usable);
    NoLeavesLeft(s.view, r);
    TornPool(free, node, leaves, free', node', s.held, LeafFrames(s.view, r));
  }

  lemma DestroyResult(m: Machine, s: PageMap, k: nat, mem: Memory, node: Nodes, free: set<nat>, base: Nodes,
                      node': Nodes, free': set<nat>)
    requires k < |s.made| && IsRoot(s.made[k]) && Known(s.made, node, base)
    requires var r := s.made[k] / PAGE_SIZE;
             && Teardown(m, s, r, mem, node, free) && node' == node - LabelsOf(node, r)
             && free' == free + TableFrames(node, r) + LeafFrames(s.view, r) * m.usable
             && free' + node'.Values == free + node.Values + LeafFrames(s.view, r) * m.usable
    ensures var e := Emptied(s, s.made[k] / PAGE_SIZE);
            && Known(s.made[k := 0], node', base) && e.free + 1 == |free'|
            && e.held !! free' + node'.Values && Conserves(free + node.Values, s.held, free' + node'.Values, e.held)
  {
    hide Tree, Compact, Known, LeafFrames, LabelsOf, TableFrames, Tables, PagesOf;
    var r := s.made[k] / PAGE_SIZE;
    OwnedNoAlias(m, s, r, node);
    var leaves := LeafFrames(s.view, r) * s.held;
    KnownLess(s.made, node, base, k);
    TornCount(mem, node, s.view, r, free, leaves);
    TornPool(free, node, leaves, free', node', s.held, LeafFrames(s.view, r));
  }

  lemma RootsDiffer(a: nat, b: nat)
    requires IsRoot(a) && IsRoot(b) && a != b
    ensures RootLabelOf(a).root != b / PAGE_SIZE && RootLabelOf(a).level == 4 && RootLabelOf(a) != RootLabelOf(b)
  {
  }

  lemma KnownLess(made: seq<nat>, node: Nodes, base: Nodes, k: nat)
    requires Known(made, node, base) && k < |made| && IsRoot(made[k])
              && forall l | l in node && l.level == 4 :: l == Label(l.root, 4, 0)
    ensures Known(made[k := 0], node - LabelsOf(node, made[k] / PAGE_SIZE), base)
  {
    hide RootLabelOf, IsRoot, BaseStays;
    var less, node' := made[k := 0], node - LabelsOf(node, made[k] / PAGE_SIZE);
    NotNull(made[k]);
    forall i | 0 <= i < |less| && less[i] != 0
      ensures i != k && less[i] == made[i] && RootLabelOf(less[i]) in node'
    {
      assert made[i] != made[k];
      RootsDiffer(made[i], made[k]);
    }
    forall l | l in node' && l.level == 4
      ensures l in base || exists i :: 0 <= i < |less| && less[i] != 0 && l == RootLabelOf(less[i])
    {
      if l !in base {
        var i :| 0 <= i < |made| && made[i] != 0 && l == RootLabelOf(made[i]);
        LabelOfRoot(made[i]);
        assert i != k;
        assert less[i] == made[i];
      }
    }
    BaseOutlives(node, base, made[k]);
  }

  lemma NotNull(pml4: nat)
    requires IsRoot(pml4)
    ensures pml4 != 0
  {
  }

  lemma BaseOutlives(node: Nodes, base: Nodes, pml4: nat)
    requires BaseStays(base, node) && RootLabelOf(pml4) !in base
    ensures BaseStays(base, node - LabelsOf(node, pml4 / PAGE_SIZE))
  {
  }

  lemma NoLeavesLeft(view: View, r: nat)
    ensures LeafFrames(view - PagesOf(view, r), r) == {}
  {
  }

  /** The frames of the torn-down pages move from the caller to the allocator. */
  lemma TornPool(free: set<nat>, node: Nodes, leaves: set<nat>, free': set<nat>, node': Nodes, held: set<nat>,
                 frames: set<nat>)
    requires free' + node'.Values == free + node.Values + leaves && leaves == frames * held
    requires held !! free + node.Values
    ensures (held - frames) !! free' + node'.Values
    ensures Conserves(free + node.Values, held, free' + node'.Values, held - frames)
  {
  }

  /** vmm_clear_user_address_space */
  method DoClear(spaces: AddressSpaces, pml4: nat, ghost m: Machine, ghost s: PageMap, ghost base: Nodes)
    returns (reply: Reply, ghost s': PageMap)
    requires Is(spaces, m, s, base) && Owned(m, s, pml4)
    requires IsRoot(pml4) ==> RootLabelOf(pml4) in spaces.node && RootLabelOf(pml4) !in base
    modifies spaces`mem, spaces`node, spaces`view, spaces.pmm`freeCount, spaces.pmm`hint, spaces.pmm.free
    ensures Is(spaces, m, s', base) && s'.made == s.made && s'.taken == s.taken && reply == Done
    ensures s' == Cleared(m, s, pml4)
    ensures SameUpperHalves(old(spaces.mem), spaces.mem, old(spaces.node))
    ensures Conserves(old(spaces.Pool()), s.held, spaces.Pool(), s'.held)
  {
    hide *;
    IsParts(spaces, m, s, base);
    PoolIs(spaces, 0);
    LabelOfRoot(pml4);
    ClearedIs(m, s, pml4);
    ConservesIs(spaces.Pool(), s.held, spaces.Pool(), s.held);
    ghost var mem, node, free := spaces.mem, spaces.node, spaces.pmm.Free();
    if IsRoot(pml4) {
      TeardownNow(spaces, m, s, base, pml4);
    }
    spaces.ClearUserAddressSpace(pml4);
    PoolIs(spaces, 0);
    reply, s' := Done, Cleared(m, s, pml4);
    if IsRoot(pml4) && pml4 / PAGE_SIZE != m.kernelRoot {
      ClearResult(m, s, pml4 / PAGE_SIZE, mem, node, free, base, spaces.node, spaces.pmm.Free());
      EmptiedIs(m, s, pml4 / PAGE_SIZE);
    }
    IsWhole(spaces, m, s', base);
  }

  lemma ClearedIs(m: Machine, s: PageMap, pml4: nat)
    ensures Cleared(m, s, pml4) ==
              if IsRoot(pml4) && pml4 / PAGE_SIZE != m.kernelRoot then Emptied(s, pml4 / PAGE_SIZE) else s
  {
    hide Emptied;
  }

  lemma EmptiedIs(m: Machine, s: PageMap, r: nat)
    ensures var e := Emptied(s, r);
            e.made == s.made && e.taken == s.taken && e.view == s.view - PagesOf(s.view, r) && e.held <= s.held
  {
    hide Tables, LeafFrames, PagesOf;
  }

  /** vmm_destroy_address_space */
  method DoDestroy(spaces: AddressSpaces, made: seq<nat>, k: nat, ghost m: Machine, ghost s: PageMap, ghost base: Nodes)
    returns (reply: Reply, made': seq<nat>, ghost s': PageMap)
    requires Is(spaces, m, s, base) && s.made == made && Owned(m, s, RootAt(made, k))
    modifies spaces`mem, spaces`node, spaces`view, spaces.pmm`freeCount, spaces.pmm`hint, spaces.pmm.free
    ensures Is(spaces, m, s', base) && s'.made == made' && s'.taken == s.taken && reply == Done
    ensures s' == Destroyed(m, s, k)
    ensures SameUpperHalves(old(spaces.mem), spaces.mem, old(spaces.node))
    ensures Conserves(old(spaces.Pool()), s.held, spaces.Pool(), s'.held)
  {
    hide *;
    IsParts(spaces, m, s, base);
    PoolIs(spaces, 0);
    RootAtIs(made, k);
    var pml4 := RootAt(made, k);
    LabelOfRoot(pml4);
    KnownAt(made, spaces.node, base, k);
    DestroyedIs(m, s, k);
    ConservesIs(spaces.Pool(), s.held, spaces.Pool(), s.held);
    ghost var mem, node, free := spaces.mem, spaces.node, spaces.pmm.Free();
    ghost var r := pml4 / PAGE_SIZE;
    PoolIs(spaces, r);
    if IsRoot(pml4) {
      TeardownNow(spaces, m, s, base, pml4);
    }
    var live := IsRoot(pml4) && pml4 / PAGE_SIZE != spaces.kernelRoot;
    spaces.DestroyAddressSpace(pml4);
    PoolIs(spaces, 0);
    reply, made', s' := Done, if live then made[k := 0] else made, Destroyed(m, s, k);
    if live {
      DestroyResult(m, s, k, mem, node, free, base, spaces.node, spaces.pmm.Free());
      EmptiedIs(m, s, r);
    }
    IsWhole(spaces, m, s', base);
  }

  lemma RootAtIs(made: seq<nat>, k: nat)
    ensures RootAt(made, k) == if k < |made| then made[k] else 0
    ensures IsRoot(RootAt(made, k)) ==> k < |made|
  {
  }

  lemma DestroyedIs(m: Machine, s: PageMap, k: nat)
    ensures Destroyed(m, s, k) ==
            var pml4 := RootAt(s.made, k);
            if k < |s.made| && IsRoot(pml4) && pml4 / PAGE_SIZE != m.kernelRoot
            then var e := Emptied(s, pml4 / PAGE_SIZE); e.(made := s.made[k := 0], free := e.free + 1)
            else s
  {
    hide Emptied, RootAt;
  }

  // ------------------------------------------------------------ runs

  method Perform(spaces: AddressSpaces, made: seq<nat>, taken: seq<nat>, op: Op, ghost m: Machine, ghost s: PageMap,
                 ghost base: Nodes)
    returns (reply: Reply, made': seq<nat>, taken': seq<nat>, ghost s': PageMap)
    requires Is(spaces, m, s, base) && s.made == made && s.taken == taken && Allowed(m, op, s)
    modifies spaces`mem, spaces`node, spaces`view, spaces.pmm`freeCount, spaces.pmm`hint, spaces.pmm.free
    ensures Is(spaces, m, s', base) && s'.made == made' && s'.taken == taken' && Next(m, op, s, reply, s')
    ensures SameUpperHalves(old(spaces.mem), spaces.mem, old(spaces.node))
    ensures Conserves(old(spaces.Pool()), s.held, spaces.Pool(), s'.held)
  {
    hide AddressSpaces.Valid, AddressSpaces.Pool, FrameAllocator.Valid, FrameAllocator.Free, FrameAllocator.Usable;
    hide Tree, Compact, SameUpperHalves, Known, Is, Owned, Conserves, Maps, Unmaps, Creates, Takes, Gives, Cleared;
    hide Destroyed, Answer, IsRoot, RootAt, AddressOf;
    made', taken', s' := made, taken, s;
    IsParts(spaces, m, s, base);
    SpacesFacts(spaces);
    HalvesItself(spaces);
    ConservesIs(spaces.Pool(), s.held, spaces.Pool(), s.held);
    match op {
      case Create =>
        reply, made', s' := DoCreate(spaces, made, m, s, base);
      case Map(k, va, source, flags) =>
        KnownAt(made, spaces.node, base, k);
        reply, s' := DoMap(spaces, RootAt(made, k), va, AddressOf(taken, source), flags, m, s, base);
      case Unmap(k, va) =>
        KnownAt(made, spaces.node, base, k);
        reply, s' := DoUnmap(spaces, RootAt(made, k), va, m, s, base);
      case Query(k, va) =>
        KnownAt(made, spaces.node, base, k);
        reply := DoQuery(spaces, RootAt(made, k), va, m, s, base);
      case Take =>
        reply, taken', s' := DoTake(spaces, taken, m, s, base);
      case Give(i) =>
        reply, s' := DoGive(spaces, taken[i], i, m, s, base);
      case Clear(k) =>
        KnownAt(made, spaces.node, base, k);
        reply, s' := DoClear(spaces, RootAt(made, k), m, s, base);
      case Destroy(k) =>
        reply, made', s' := DoDestroy(spaces, made, k, m, s, base);
    }
  }

  lemma HalvesItself(spaces: AddressSpaces)
    requires spaces.Valid()
    ensures SameUpperHalves(spaces.mem, spaces.mem, spaces.node)
  {
    hide Tree, Compact, SameUpperHalves;
    SpacesFacts(spaces);
    SameUpperHalvesRefl(spaces.mem, spaces.node, spaces.view);
  }

  ghost function Start(spaces: AddressSpaces): PageMap
    reads spaces, spaces.pmm, spaces.pmm.free
  {
    PageMap([], [], spaces.view, {}, |spaces.pmm.Free()|)
  }

  ghost function MachineOf(spaces: AddressSpaces): Machine
    reads spaces, spaces.pmm, spaces.pmm.usable
  {
    Machine(spaces.pmm.Usable(), spaces.kernelRoot)
  }

  lemma StartIs(spaces: AddressSpaces)
    requires spaces.Valid() && spaces.initialized
    ensures Is(spaces, MachineOf(spaces), Start(spaces), spaces.node) && Start(spaces).made == []
    ensures Start(spaces).taken == []
    ensures Start(spaces).view == spaces.view && Start(spaces).free == |spaces.pmm.Free()| && Start(spaces).held == {}
  {
    hide AddressSpaces.Valid, FrameAllocator.Free, FrameAllocator.Usable, AddressSpaces.Pool, BaseStays;
    StartStays(spaces);
  }

  lemma StartStays(spaces: AddressSpaces)
    requires spaces.Valid()
    ensures BaseStays(spaces.node, spaces.node)
  {
    hide Tree, Compact, FrameAllocator.Free, FrameAllocator.Usable;
    PoolFacts(spaces);
    forall l | l in spaces.node
      ensures Label(l.root, 4, 0) in spaces.node
    {
      UnderRoot(spaces.mem, spaces.node, spaces.view, l);
    }
  }

  /** Parents lead to the PML4. */
  lemma {:induction false} UnderRoot(mem: Memory, node: Nodes, view: View, l: Label)
    requires Tree(mem, node, view) && l in node
    ensures Label(l.root, 4, 0) in node
    decreases 4 - l.level
  {
    hide EntryOk, Injective;
    assert WellLabelled(l);
    if l.level < 4 {
      UnderRoot(mem, node, view, Parent(l));
    }
  }

  /** The caller has given everything back: no address space, no frame, and the pages of the others as before. */
  ghost predicate Over(s: PageMap, view: View)
  {
    s.held == {} && s.view == view && forall i | 0 <= i < |s.made| :: s.made[i] == 0
  }

  /** Then exactly the frames that were free in the beginning are free again. */
  lemma LifeRestores(m0: Memory, n0: Nodes, free0: set<nat>, m1: Memory, n1: Nodes, free1: set<nat>, s: PageMap,
                     view: View)
    requires Over(s, view) && Known(s.made, n1, n0)
    requires Tree(m0, n0, view) && Compact(n0, view, {}) && Tree(m1, n1, view) && Compact(n1, view, {})
    requires free0 !! n0.Values && free1 !! n1.Values && Injective(n0) && Injective(n1)
    requires free1 + n1.Values == free0 + n0.Values
    ensures free1 == free0 && n1 == n0
  {
    hide Tree, Compact, Prefixes, Injective, RootLabelOf;
    forall l: Label
      ensures l in n0 <==> l in n1
    {
      LabelLevels(m0, n0, view, l);
      LabelLevels(m1, n1, view, l);
      if 1 <= l.level <= 3 {
        TablesArePrefixes(m0, n0, view, l.root, l.level);
        TablesArePrefixes(m1, n1, view, l.root, l.level);
        assert l in LabelsAt(n0, l.root, l.level) <==> l in n0;
        assert l in LabelsAt(n1, l.root, l.level) <==> l in n1;
      }
    }
    assert n0 == n1;
  }

  /** Every run is a run of the abstract page map, loses no frame, and leaves PML4 slots 256..511 alone. */
  method Run(spaces: AddressSpaces, ops: seq<Op>) returns (replies: seq<Reply>, ghost ss: seq<PageMap>)
    requires spaces.Valid() && spaces.initialized && WellBehaved(MachineOf(spaces), ops, Start(spaces))
    modifies spaces`mem, spaces`node, spaces`view, spaces.pmm`freeCount, spaces.pmm`hint, spaces.pmm.free
    ensures spaces.Valid() && Trace(old(MachineOf(spaces)), ops, ss, replies) && ss[0] == old(Start(spaces))
    ensures ss[|ops|].view == spaces.view && ss[|ops|].free == |spaces.pmm.Free()|
    ensures ss[|ops|].held !! spaces.Pool() && spaces.Pool() + ss[|ops|].held == old(spaces.Pool())
    ensures SameUpperHalves(old(spaces.mem), spaces.mem, old(spaces.node))
    ensures Over(ss[|ops|], old(spaces.view)) ==> spaces.pmm.Free() == old(spaces.pmm.Free())
  {
    hide *;
    var made, taken: seq<nat> := [], [];
    ghost var m, s, base := MachineOf(spaces), Start(spaces), spaces.node;
    replies, ss := [], [s];
    StartIs(spaces);
    HalvesItself(spaces);
    PoolFacts(spaces);
    ConservesIs(spaces.Pool(), {}, spaces.Pool(), {});
    for i := 0 to |ops|
      invariant Is(spaces, m, s, base) && s.made == made && s.taken == taken
      invariant SameUpperHalves(old(spaces.mem), spaces.mem, base)
      invariant Conserves(old(spaces.Pool()), {}, spaces.Pool(), s.held)
      invariant |ss| == i + 1 == |replies| + 1 && ss[0] == old(Start(spaces)) && ss[i] == s
      invariant forall j, k | 0 <= j < i && k == j + 1 :: Next(m, ops[j], ss[j], replies[j], ss[k])
    {
      ghost var mem, node, pool, held := spaces.mem, spaces.node, spaces.Pool(), s.held;
      IsParts(spaces, m, s, base);
      KnownAt(made, spaces.node, base, 0);
      BehavesHere(m, ops, ss, replies, i);
      var reply;
      reply, made, taken, s := Perform(spaces, made, taken, ops[i], m, s, base);
      HalvesTrans(old(spaces.mem), mem, spaces.mem, base, node);
      ConservesTrans(old(spaces.Pool()), {}, pool, held, spaces.Pool(), s.held);
      replies, ss := replies + [reply], ss + [s];
    }
    TraceIs(m, ops, ss, replies);
    IsParts(spaces, m, s, base);
    PoolFacts(spaces);
    ConservesIs(old(spaces.Pool()), {}, spaces.Pool(), s.held);
    AtTheEnd(spaces, s, old(spaces.mem), base, old(spaces.pmm.Free()), old(spaces.view));
  }

  lemma ConservesTrans(p0: set<nat>, h0: set<nat>, p1: set<nat>, h1: set<nat>, p2: set<nat>, h2: set<nat>)
    requires Conserves(p0, h0, p1, h1) && Conserves(p1, h1, p2, h2)
    ensures Conserves(p0, h0, p2, h2)
  {
  }

  lemma TraceIs(m: Machine, ops: seq<Op>, ss: seq<PageMap>, replies: seq<Reply>)
    requires |ss| == |ops| + 1 == |replies| + 1
              && forall j, k | 0 <= j < |ops| && k == j + 1 :: Next(m, ops[j], ss[j], replies[j], ss[k])
    ensures Trace(m, ops, ss, replies)
  {
    hide Next;
  }

  /** The caller's next request is allowed, as the run so far is a trace. */
  lemma BehavesHere(m: Machine, ops: seq<Op>, ss: seq<PageMap>, replies: seq<Reply>, i: nat)
    requires i < |ops| && |ss| == i + 1 == |replies| + 1 && WellBehaved(m, ops, ss[0])
    requires forall j, k | 0 <= j < i && k == j + 1 :: Next(m, ops[j], ss[j], replies[j], ss[k])
    ensures Allowed(m, ops[i], ss[i])
  {
    hide Next, Allowed;
    TraceIs(m, ops[..i], ss, replies);
  }

  lemma AtTheEnd(spaces: AddressSpaces, s: PageMap, mem: Memory, node: Nodes, free: set<nat>, view: View)
    requires spaces.Valid() && s.view == spaces.view && Known(s.made, spaces.node, node)
    requires Tree(mem, node, view) && Compact(node, view, {}) && free !! node.Values && Injective(node)
    requires spaces.Pool() + s.held == free + node.Values
    ensures Over(s, view) ==> spaces.pmm.Free() == free
  {
    hide Tree, Compact, AddressSpaces.Valid, AddressSpaces.Pool, FrameAllocator.Free, Known, Injective;
    if Over(s, view) {
      PoolFacts(spaces);
      LifeRestores(mem, node, free, spaces.mem, spaces.node, spaces.pmm.Free(), s, view);
    }
  }

  // ------------------------------------------------------------ physical address 0

  /**
   * vmm_map_page_in accepts physical address 0; unmapping such a page then answers as for a page that is not mapped.
   */
  method ZeroFrameExample() returns (mapped: bool, found: bool, pa: nat, absent: nat)
    ensures mapped && found && pa == 0 && absent == 0
  {
    hide *;
    var va := 0x40_0000;
    var pmm := new FrameAllocator();
    var memory := [Some(Region(true, 0x10_0000, 0x10_0000))];
    MegabyteFrames(memory);
    var ok := pmm.Initialize(memory);
    var spaces := new AddressSpaces(pmm, EMPTY_TABLE, 0);
    var pml4 := spaces.CreateAddressSpace();
    ZeroAcceptable(pml4, va, spaces.view);
    ghost var node := spaces.node;
    mapped := spaces.MapPage(pml4, va, 0, Flags(true, true, true, false));
    ExtendsKeeps(node, spaces.node, Label(pml4 / PAGE_SIZE, 4, 0));
    node := spaces.node;
    var there, _, _ := spaces.QueryPage(pml4, va);
    found := there;
    pa := spaces.UnmapPage(pml4, va);
    ExtendsRoots(spaces.node, node, Label(pml4 / PAGE_SIZE, 4, 0));
    absent := spaces.UnmapPage(pml4, va);
  }

  lemma MegabyteFrames(memory: seq<Option<Region>>)
    requires memory == [Some(Region(true, 0x10_0000, 0x10_0000))]
    ensures |EMPTY_TABLE| == 512 && |WholeFrames(memory)| >= 4
    ensures forall i | 0 <= i < |memory| ::
              memory[i].Some? && memory[i].value.base < W64 && memory[i].value.length < W64
  {
    assert Covers(memory[0].value, 256) && Covers(memory[0].value, 257) && Covers(memory[0].value, 258)
        && Covers(memory[0].value, 259);
    assert {256, 257, 258, 259} <= WholeFrames(memory);
    SubsetCardinality({256, 257, 258, 259}, WholeFrames(memory));
  }

  lemma ZeroAcceptable(pml4: nat, va: nat, view: View)
    requires IsRoot(pml4) && va == 0x40_0000 && view == map[]
    ensures Acceptable(pml4, va, 0, Flags(true, true, true, false))
    ensures LeafOf(0, Flags(true, true, true, false)).frame * PAGE_SIZE == 0
    ensures PAGE_SIZE > 0 && va < LOWER_HALF_END < UPPER_HALF_START && PageOf(pml4, va) !in view
    ensures TablesMissing(view, PageOf(pml4, va)) <= 3
  {
  }
}
