/**
 * The kernel heap: a doubly linked list of blocks with boundary headers that tiles the mapped part of the heap
 * area, over the frame allocator and a kernel page map.
 */
module HeapCells {
  import opened Bytes

  const PAGE_SIZE: nat := 4096
  const HEAP_BASE: nat := 0xffff_ffff_c000_0000
  const HEAP_MAXIMUM_BYTES: nat := 0x800_0000
  const HEAP_ALIGNMENT: nat := 16
  const HEADER_BYTES: nat := 32

  /** struct heap_block */
  datatype Header = Header(size: nat, previous: nat, next: nat, free: bool)

  /** A block of the list, without its links. */
  datatype Cell = Cell(addr: nat, size: nat, free: bool)

  function End(c: Cell): nat
  {
    c.addr + HEADER_BYTES + c.size
  }

  function Payload(c: Cell): nat
  {
    c.addr + HEADER_BYTES
  }

  ghost predicate Contains(c: Cell, x: nat)
  {
    Payload(c) <= x < End(c)
  }

  ghost predicate WellSized(c: Cell)
  {
    c.addr % HEAP_ALIGNMENT == 0 && c.size % HEAP_ALIGNMENT == 0 && c.size > 0
  }

  /** The blocks cover [lo, hi) in list order, without gaps or overlaps. */
  ghost predicate Tiles(cells: seq<Cell>, lo: nat, hi: nat)
  {
    && (forall i | 0 <= i < |cells| :: WellSized(cells[i]))
    && (cells == [] ==> lo == hi)
    && (cells != [] ==> cells[0].addr == lo && End(cells[|cells| - 1]) == hi)
    && (forall i, j | 0 <= i < j < |cells| && j == i + 1 :: cells[j].addr == End(cells[i]))
  }

  function PrevAddr(cells: seq<Cell>, i: nat): nat
    requires i < |cells|
  {
    if i == 0 then 0 else cells[i - 1].addr
  }

  function NextAddr(cells: seq<Cell>, i: nat): nat
    requires i < |cells|
  {
    if i + 1 < |cells| then cells[i + 1].addr else 0
  }

  function HeaderOf(cells: seq<Cell>, i: nat): Header
    requires i < |cells|
  {
    Header(cells[i].size, PrevAddr(cells, i), NextAddr(cells, i), cells[i].free)
  }

  /** The headers in memory are the list. */
  ghost predicate Linked(headers: map<nat, Header>, cells: seq<Cell>)
  {
    forall i | 0 <= i < |cells| :: cells[i].addr in headers && headers[cells[i].addr] == HeaderOf(cells, i)
  }

  /** Two free blocks may be neighbours only at these positions. */
  ghost predicate FreePairsWithin(cells: seq<Cell>, at: set<int>)
  {
    forall i, j | 0 <= i < j < |cells| && j == i + 1 && cells[i].free && cells[j].free :: i in at
  }

  ghost function Used(cells: seq<Cell>): set<Cell>
  {
    set c | c in cells && !c.free
  }

  /** The bytes of every block in `live` are the same. */
  ghost predicate Kept(live: set<Cell>, bytes: map<nat, byte>, bytes': map<nat, byte>)
  {
    forall c, x: nat | c in live && Contains(c, x) :: x in bytes && x in bytes' && bytes[x] == bytes'[x]
  }

  lemma KeptTrans(live: set<Cell>, b0: map<nat, byte>, b1: map<nat, byte>, b2: map<nat, byte>)
    requires Kept(live, b0, b1) && Kept(live, b1, b2)
    ensures Kept(live, b0, b2)
  {
  }

  /** Blocks come in address order. */
  lemma {:induction false} Ordered(cells: seq<Cell>, lo: nat, hi: nat, i: nat, j: nat)
    requires Tiles(cells, lo, hi) && i < j < |cells|
    ensures End(cells[i]) <= cells[j].addr
    decreases j - i
  {
    if i + 1 < j {
      Ordered(cells, lo, hi, i + 1, j);
    }
  }

  lemma {:induction false} InBounds(cells: seq<Cell>, lo: nat, hi: nat, i: nat)
    requires Tiles(cells, lo, hi) && i < |cells|
    ensures lo <= cells[i].addr && End(cells[i]) <= hi
  {
    if i > 0 {
      Ordered(cells, lo, hi, 0, i);
    }
    if i + 1 < |cells| {
      Ordered(cells, lo, hi, i, |cells| - 1);
    }
  }

  lemma LastFacts(cells: seq<Cell>, lo: nat, hi: nat)
    requires Tiles(cells, lo, hi) && cells != []
    ensures End(cells[|cells| - 1]) == hi && cells[0].addr == lo <= cells[|cells| - 1].addr
  {
    InBounds(cells, lo, hi, |cells| - 1);
  }

  lemma AddrDistinct(cells: seq<Cell>, lo: nat, hi: nat)
    requires Tiles(cells, lo, hi)
    ensures forall i, j | 0 <= i < j < |cells| :: cells[i].addr < cells[j].addr
  {
    forall i, j | 0 <= i < j < |cells|
      ensures cells[i].addr < cells[j].addr
    {
      Ordered(cells, lo, hi, i, j);
    }
  }

  // ------------------------------------------------------------ splitting

  /** The list after block i is cut at `size`. */
  function SplitCells(cells: seq<Cell>, i: nat, size: nat): seq<Cell>
    requires i < |cells| && size + HEADER_BYTES <= cells[i].size
  {
    var c := cells[i];
    cells[..i] + [Cell(c.addr, size, c.free), Cell(c.addr + HEADER_BYTES + size, c.size - size - HEADER_BYTES, true)]
        + cells[i + 1..]
  }

  lemma SplitAt(cells: seq<Cell>, i: nat, size: nat)
    requires i < |cells| && size + HEADER_BYTES <= cells[i].size
    ensures var cells' := SplitCells(cells, i, size);
            var c := cells[i];
            && |cells'| == |cells| + 1
            && (forall j | 0 <= j < i :: cells'[j] == cells[j])
            && cells'[i] == Cell(c.addr, size, c.free)
            && cells'[i + 1] == Cell(c.addr + HEADER_BYTES + size, c.size - size - HEADER_BYTES, true)
            && (forall j, k | i < k < j < |cells'| && j == k + 1 :: cells'[j] == cells[k])
  {
  }

  lemma SplitTiles(cells: seq<Cell>, lo: nat, hi: nat, i: nat, size: nat)
    requires Tiles(cells, lo, hi) && i < |cells| && size % HEAP_ALIGNMENT == 0 && 0 < size
    requires size + HEADER_BYTES + HEAP_ALIGNMENT <= cells[i].size
    ensures Tiles(SplitCells(cells, i, size), lo, hi)
  {
    hide SplitCells;
    SplitAt(cells, i, size);
    var cells' := SplitCells(cells, i, size);
    forall j | 0 <= j < |cells'|
      ensures WellSized(cells'[j])
    {
      assert j > i + 1 ==> cells'[j] == cells[j - 1];
    }
    forall j, k | 0 <= j < k < |cells'| && k == j + 1
      ensures cells'[k].addr == End(cells'[j])
    {
      assert k > i + 1 ==> cells'[k] == cells[j];
      assert j > i + 1 ==> cells'[j] == cells[j - 1];
    }
    assert i + 1 < |cells| ==> cells'[|cells'| - 1] == cells[|cells| - 1];
  }

  /** The four header writes of the split. */
  function SplitHeaders(headers: map<nat, Header>, a: nat, size: nat): map<nat, Header>
    requires a in headers && size + HEADER_BYTES <= headers[a].size
  {
    var h := headers[a];
    var s := a + HEADER_BYTES + size;
    var with := headers[s := Header(h.size - size - HEADER_BYTES, a, h.next, true)];
    var back := if h.next != 0 && h.next in with then with[h.next := with[h.next].(previous := s)] else with;
    back[a := Header(size, h.previous, s, h.free)]
  }

  lemma SplitLinked(headers: map<nat, Header>, cells: seq<Cell>, lo: nat, hi: nat, i: nat, size: nat)
    requires Tiles(cells, lo, hi) && Linked(headers, cells) && i < |cells| && size + HEADER_BYTES <= cells[i].size
    requires lo > 0
    ensures Linked(SplitHeaders(headers, cells[i].addr, size), SplitCells(cells, i, size))
  {
    hide SplitCells, SplitHeaders;
    var headers', cells' := SplitHeaders(headers, cells[i].addr, size), SplitCells(cells, i, size);
    forall j | 0 <= j < |cells'|
      ensures cells'[j].addr in headers' && headers'[cells'[j].addr] == HeaderOf(cells', j)
    {
      SplitLinkedAt(headers, cells, lo, hi, i, size, j);
    }
  }

  lemma SplitLinkedAt(headers: map<nat, Header>, cells: seq<Cell>, lo: nat, hi: nat, i: nat, size: nat, j: nat)
    requires Tiles(cells, lo, hi) && Linked(headers, cells) && i < |cells| && size + HEADER_BYTES <= cells[i].size
    requires lo > 0
    requires j < |SplitCells(cells, i, size)|
    ensures var headers', cells' := SplitHeaders(headers, cells[i].addr, size), SplitCells(cells, i, size);
            cells'[j].addr in headers' && headers'[cells'[j].addr] == HeaderOf(cells', j)
  {
    hide SplitCells, Tiles, Linked;
    AddrDistinct(cells, lo, hi);
    SplitAddrIsNew(cells, lo, hi, i, size);
    SplitAt(cells, i, size);
    AddrPositive(cells, lo, hi);
    LinkedAt(headers, cells, i);
    var k := if j <= i then j else j - 1;
    LinkedAt(headers, cells, k);
  }

  lemma LinkedAt(headers: map<nat, Header>, cells: seq<Cell>, i: nat)
    requires Linked(headers, cells) && i < |cells|
    ensures cells[i].addr in headers && headers[cells[i].addr] == HeaderOf(cells, i)
  {
    hide HeaderOf;
  }

  lemma AddrPositive(cells: seq<Cell>, lo: nat, hi: nat)
    requires Tiles(cells, lo, hi) && lo > 0
    ensures forall i | 0 <= i < |cells| :: cells[i].addr > 0
  {
    forall i | 0 <= i < |cells|
      ensures cells[i].addr > 0
    {
      InBounds(cells, lo, hi, i);
    }
  }

  lemma SplitAddrIsNew(cells: seq<Cell>, lo: nat, hi: nat, i: nat, size: nat)
    requires Tiles(cells, lo, hi) && i < |cells| && size + HEADER_BYTES <= cells[i].size
    ensures forall j | 0 <= j < |cells| :: cells[j].addr != cells[i].addr + HEADER_BYTES + size
  {
    forall j | 0 <= j < |cells|
      ensures cells[j].addr != cells[i].addr + HEADER_BYTES + size
    {
      if j < i {
        Ordered(cells, lo, hi, j, i);
      } else if j > i {
        Ordered(cells, lo, hi, i, j);
      }
    }
  }

  /** A free block handed out: one more used block, and no new pair of free neighbours. */
  lemma SplitUsed(cells: seq<Cell>, i: nat, size: nat)
    requires i < |cells| && size + HEADER_BYTES <= cells[i].size && cells[i].free
    ensures Used(SplitCells(cells, i, size)) == Used(cells)
  {
    var cells' := SplitCells(cells, i, size);
    assert cells == cells[..i] + [cells[i]] + cells[i + 1..];
  }

  // ------------------------------------------------------------ merging

  lemma Adjacent(cells: seq<Cell>, lo: nat, hi: nat, i: nat)
    requires Tiles(cells, lo, hi) && i + 1 < |cells|
    ensures cells[i + 1].addr == End(cells[i])
  {
  }

  /** The list after block i swallows its right neighbour. */
  function MergeCells(cells: seq<Cell>, i: nat): seq<Cell>
    requires i + 1 < |cells|
  {
    var c, d := cells[i], cells[i + 1];
    cells[..i] + [Cell(c.addr, c.size + HEADER_BYTES + d.size, c.free)] + cells[i + 2..]
  }

  lemma MergeAt(cells: seq<Cell>, i: nat)
    requires i + 1 < |cells|
    ensures var cells' := MergeCells(cells, i);
            && |cells'| == |cells| - 1
            && (forall j | 0 <= j < i :: cells'[j] == cells[j])
            && cells'[i] == Cell(cells[i].addr, cells[i].size + HEADER_BYTES + cells[i + 1].size, cells[i].free)
            && (forall j, k | i < j < k < |cells| && k == j + 1 :: cells'[j] == cells[k])
  {
  }

  lemma MergeTiles(cells: seq<Cell>, lo: nat, hi: nat, i: nat)
    requires Tiles(cells, lo, hi) && i + 1 < |cells|
    ensures Tiles(MergeCells(cells, i), lo, hi)
  {
    hide MergeCells;
    MergeAt(cells, i);
    var cells' := MergeCells(cells, i);
    forall j | 0 <= j < |cells'|
      ensures WellSized(cells'[j])
    {
      assert j > i ==> cells'[j] == cells[j + 1];
    }
    forall j, k | 0 <= j < k < |cells'| && k == j + 1
      ensures cells'[k].addr == End(cells'[j])
    {
      assert k > i ==> cells'[k] == cells[k + 1];
      assert j > i ==> cells'[j] == cells[k];
    }
    assert i + 2 < |cells| ==> cells'[|cells'| - 1] == cells[|cells| - 1];
  }

  /** The header writes of merge_with_next. */
  function MergeHeaders(headers: map<nat, Header>, a: nat): map<nat, Header>
    requires a in headers && headers[a].next in headers
  {
    var h := headers[a];
    var n := headers[h.next];
    var with := headers[a := Header(h.size + HEADER_BYTES + n.size, h.previous, n.next, h.free)];
    if n.next != 0 && n.next in with then with[n.next := with[n.next].(previous := a)] else with
  }

  lemma MergeLinked(headers: map<nat, Header>, cells: seq<Cell>, lo: nat, hi: nat, i: nat)
    requires Tiles(cells, lo, hi) && Linked(headers, cells) && i + 1 < |cells| && lo > 0
    ensures cells[i].addr in headers && headers[cells[i].addr].next in headers
    ensures Linked(MergeHeaders(headers, cells[i].addr), MergeCells(cells, i))
  {
    hide MergeCells, MergeHeaders, Linked;
    LinkedAt(headers, cells, i);
    LinkedAt(headers, cells, i + 1);
    var headers', cells' := MergeHeaders(headers, cells[i].addr), MergeCells(cells, i);
    forall j | 0 <= j < |cells'|
      ensures cells'[j].addr in headers' && headers'[cells'[j].addr] == HeaderOf(cells', j)
    {
      MergeLinkedAt(headers, cells, lo, hi, i, j);
    }
    LinkedIntro(headers', cells');
  }

  lemma MergeLinkedAt(headers: map<nat, Header>, cells: seq<Cell>, lo: nat, hi: nat, i: nat, j: nat)
    requires Tiles(cells, lo, hi) && Linked(headers, cells) && i + 1 < |cells| && lo > 0
    requires cells[i].addr in headers && headers[cells[i].addr].next in headers
    requires j < |MergeCells(cells, i)|
    ensures var headers', cells' := MergeHeaders(headers, cells[i].addr), MergeCells(cells, i);
            cells'[j].addr in headers' && headers'[cells'[j].addr] == HeaderOf(cells', j)
  {
    hide MergeCells, Tiles, Linked;
    AddrDistinct(cells, lo, hi);
    MergeAt(cells, i);
    AddrPositive(cells, lo, hi);
    LinkedAt(headers, cells, i);
    LinkedAt(headers, cells, i + 1);
    var k := if j <= i then j else j + 1;
    LinkedAt(headers, cells, k);
  }

  lemma LinkedIntro(headers: map<nat, Header>, cells: seq<Cell>)
    requires forall i | 0 <= i < |cells| :: cells[i].addr in headers && headers[cells[i].addr] == HeaderOf(cells, i)
    ensures Linked(headers, cells)
  {
    hide HeaderOf;
  }

  lemma MergeUsed(cells: seq<Cell>, i: nat)
    requires i + 1 < |cells| && cells[i].free && cells[i + 1].free
    ensures Used(MergeCells(cells, i)) == Used(cells)
  {
    assert cells == cells[..i] + [cells[i]] + [cells[i + 1]] + cells[i + 2..];
  }

  /** Merging removes the pair it merges. */
  lemma MergePairs(cells: seq<Cell>, i: nat, at: set<int>)
    requires i + 1 < |cells| && FreePairsWithin(cells, at) && cells[i].free && cells[i + 1].free
    ensures FreePairsWithin(MergeCells(cells, i), set j | j in at && j != i :: if j < i then j else j - 1)
  {
    hide MergeCells;
    MergeAt(cells, i);
    var cells' := MergeCells(cells, i);
    var at' := set j | j in at && j != i :: if j < i then j else j - 1;
    forall j, k | 0 <= j < k < |cells'| && k == j + 1 && cells'[j].free && cells'[k].free
      ensures j in at'
    {
      if j >= i {
        assert cells'[k] == cells[k + 1];
        assert cells[k].free;
        assert k in at;
      } else {
        assert j in at;
      }
    }
  }

  // ------------------------------------------------------------ the ends of the list and the flags

  lemma AppendTiles(cells: seq<Cell>, lo: nat, hi: nat, c: Cell)
    requires Tiles(cells, lo, hi) && WellSized(c) && c.addr == hi
    ensures Tiles(cells + [c], lo, End(c))
  {
    var cells' := cells + [c];
    forall i, j | 0 <= i < j < |cells'| && j == i + 1
      ensures cells'[j].addr == End(cells'[i])
    {
      assert j < |cells| ==> cells[j].addr == End(cells[i]);
    }
  }

  lemma DropLastTiles(cells: seq<Cell>, lo: nat, hi: nat)
    requires Tiles(cells, lo, hi) && cells != []
    ensures Tiles(cells[..|cells| - 1], lo, cells[|cells| - 1].addr)
  {
  }

  /** The header writes at the end of grow_heap. */
  function AppendHeaders(headers: map<nat, Header>, cells: seq<Cell>, c: Cell): map<nat, Header>
  {
    var last := if cells == [] then 0 else cells[|cells| - 1].addr;
    var with := headers[c.addr := Header(c.size, last, 0, c.free)];
    if cells == [] || last !in with then with else with[last := with[last].(next := c.addr)]
  }

  lemma AppendLinked(headers: map<nat, Header>, cells: seq<Cell>, lo: nat, hi: nat, c: Cell)
    requires Tiles(cells, lo, hi) && Linked(headers, cells) && c.addr == hi
    ensures Linked(AppendHeaders(headers, cells, c), cells + [c])
  {
    hide Linked, AppendHeaders, Tiles;
    var headers', cells' := AppendHeaders(headers, cells, c), cells + [c];
    forall i | 0 <= i < |cells'|
      ensures cells'[i].addr in headers' && headers'[cells'[i].addr] == HeaderOf(cells', i)
    {
      AppendLinkedAt(headers, cells, lo, hi, c, i);
    }
    LinkedIntro(headers', cells');
  }

  lemma AppendLinkedAt(headers: map<nat, Header>, cells: seq<Cell>, lo: nat, hi: nat, c: Cell, i: nat)
    requires Tiles(cells, lo, hi) && Linked(headers, cells) && c.addr == hi && i <= |cells|
    ensures var headers', cells' := AppendHeaders(headers, cells, c), cells + [c];
            cells'[i].addr in headers' && headers'[cells'[i].addr] == HeaderOf(cells', i)
  {
    hide Linked, Tiles;
    var n := |cells|;
    AddrDistinct(cells, lo, hi);
    if i < n {
      LinkedAt(headers, cells, i);
      InBounds(cells, lo, hi, i);
    }
    if n > 0 {
      LinkedAt(headers, cells, n - 1);
      InBounds(cells, lo, hi, n - 1);
    }
  }

  lemma DropLastLinked(headers: map<nat, Header>, cells: seq<Cell>, lo: nat, hi: nat)
    requires Tiles(cells, lo, hi) && Linked(headers, cells) && cells != []
    ensures var n := |cells| - 1;
            n > 0 ==> cells[n - 1].addr in headers
    ensures var n := |cells| - 1;
            Linked(if n == 0 then headers else headers[cells[n - 1].addr := headers[cells[n - 1].addr].(next := 0)],
                cells[..n])
  {
    hide Linked;
    var n := |cells| - 1;
    var cells' := cells[..n];
    AddrDistinct(cells, lo, hi);
    if n > 0 {
      LinkedAt(headers, cells, n - 1);
      var headers' := headers[cells[n - 1].addr := headers[cells[n - 1].addr].(next := 0)];
      forall i | 0 <= i < |cells'|
        ensures cells'[i].addr in headers' && headers'[cells'[i].addr] == HeaderOf(cells', i)
      {
        LinkedAt(headers, cells, i);
      }
      LinkedIntro(headers', cells');
    } else {
      LinkedIntro(headers, cells');
    }
  }

  lemma FlagLinked(headers: map<nat, Header>, cells: seq<Cell>, lo: nat, hi: nat, i: nat, free: bool)
    requires Tiles(cells, lo, hi) && Linked(headers, cells) && i < |cells|
    ensures var cells' := cells[i := cells[i].(free := free)];
            && Tiles(cells', lo, hi) && cells[i].addr in headers
            && Linked(headers[cells[i].addr := headers[cells[i].addr].(free := free)], cells')
  {
    hide Linked;
    var cells' := cells[i := cells[i].(free := free)];
    AddrDistinct(cells, lo, hi);
    LinkedAt(headers, cells, i);
    var headers' := headers[cells[i].addr := headers[cells[i].addr].(free := free)];
    forall j | 0 <= j < |cells'|
      ensures cells'[j].addr in headers' && headers'[cells'[j].addr] == HeaderOf(cells', j)
    {
      LinkedAt(headers, cells, j);
    }
    LinkedIntro(headers', cells');
    FlagTiles(cells, lo, hi, i, free);
  }

  lemma FlagTiles(cells: seq<Cell>, lo: nat, hi: nat, i: nat, free: bool)
    requires Tiles(cells, lo, hi) && i < |cells|
    ensures Tiles(cells[i := cells[i].(free := free)], lo, hi)
  {
    var cells' := cells[i := cells[i].(free := free)];
    forall j, k | 0 <= j < k < |cells'| && k == j + 1
      ensures cells'[k].addr == End(cells'[j])
    {
      assert cells[k].addr == End(cells[j]);
    }
  }

  lemma FlagUsed(cells: seq<Cell>, lo: nat, hi: nat, i: nat)
    requires Tiles(cells, lo, hi) && i < |cells|
    ensures var c := cells[i];
            && Used(cells[i := c.(free := true)]) == Used(cells) - {c.(free := false)}
            && Used(cells[i := c.(free := false)]) == Used(cells) + {c.(free := false)}
  {
    AddrDistinct(cells, lo, hi);
    var c := cells[i];
    var off, on := cells[i := c.(free := true)], cells[i := c.(free := false)];
    forall d
      ensures d in Used(off) <==> d in Used(cells) && d != c.(free := false)
      ensures d in Used(on) <==> d in Used(cells) || d == c.(free := false)
    {
      if d in cells {
        var j :| 0 <= j < |cells| && cells[j] == d;
        assert j != i ==> off[j] == d && on[j] == d;
      }
      assert on[i] == c.(free := false);
    }
  }
}

module Heap {
  import opened Bytes
  import opened HeapCells
  import opened KernelPages
  import opened PageCost
  import opened Pmm
  import Modular

  ghost predicate Ends(first: nat, last: nat, cells: seq<Cell>)
  {
    if cells == [] then first == 0 && last == 0 else first == cells[0].addr && last == cells[|cells| - 1].addr
  }

  /** Memory exists exactly on the mapped part of the heap area. */
  ghost predicate Mapped(bytes: map<nat, byte>, mapped: nat)
  {
    forall x: nat :: x in bytes <==> HEAP_BASE <= x < HEAP_BASE + mapped
  }

  /** The list, its headers and the mapped area; two free blocks may be neighbours only at `at`. */
  ghost predicate Shape(first: nat, last: nat, mapped: nat, headers: map<nat, Header>, cells: seq<Cell>, at: set<int>)
  {
    && Tiles(cells, HEAP_BASE, HEAP_BASE + mapped) && Linked(headers, cells) && Ends(first, last, cells)
    && mapped % PAGE_SIZE == 0 && mapped <= HEAP_MAXIMUM_BYTES && FreePairsWithin(cells, at)
  }

  /** align_up to the heap alignment. */
  function AlignUp(size: nat): nat
  {
    (size + HEAP_ALIGNMENT - 1) / HEAP_ALIGNMENT * HEAP_ALIGNMENT
  }

  /** Some free block is large enough. */
  ghost predicate Fits(cells: seq<Cell>, size: nat)
  {
    exists i :: 0 <= i < |cells| && cells[i].free && size <= cells[i].size
  }

  function PagesFor(size: nat): nat
  {
    (size + HEADER_BYTES + PAGE_SIZE - 1) / PAGE_SIZE
  }

  /** The heap area has room for the pages, and with them the heap and its page tables fit into all frames there are. */
  ghost predicate CanGrow(size: nat, mapped: nat, pool: nat, boot: set<TableId>)
  {
    && PagesFor(size) * PAGE_SIZE <= HEAP_MAXIMUM_BYTES - mapped
    && Cost(PageSet(HEAP_BASE, mapped / PAGE_SIZE + PagesFor(size)), boot, Addresses) <= pool
  }

  /** What an allocation of `size` bytes needs to succeed. */
  ghost predicate CanAllocate(cells: seq<Cell>, mapped: nat, pool: nat, size: nat, boot: set<TableId>)
  {
    size > 0 && (Fits(cells, AlignUp(size)) || CanGrow(AlignUp(size), mapped, pool, boot))
  }

  lemma CanAllocateNothing(cells: seq<Cell>, mapped: nat, pool: nat, size: nat, boot: set<TableId>)
    ensures CanAllocate(cells, mapped, pool, size, boot) ==> size > 0
  {
  }

  lemma FitsBound(cells: seq<Cell>, mapped: nat, size: nat)
    requires Tiles(cells, HEAP_BASE, HEAP_BASE + mapped) && Fits(cells, size)
    ensures size <= mapped
  {
    var i :| 0 <= i < |cells| && cells[i].free && size <= cells[i].size;
    InBounds(cells, HEAP_BASE, HEAP_BASE + mapped, i);
  }

  lemma AlignUpBounds(size: nat)
    ensures size <= AlignUp(size) < size + HEAP_ALIGNMENT && AlignUp(size) % HEAP_ALIGNMENT == 0
  {
  }

  /** A block at p is new among the live ones; it holds `size` bytes and wastes less than a header and two units. */
  ghost predicate Gained(live: set<Cell>, live': set<Cell>, p: nat, size: nat)
  {
    exists c :: c !in live && live' == live + {c} && Payload(c) == p && size <= c.size < AlignUp(size) + 48 && !c.free
  }

  // ------------------------------------------------------------ which block is handed out

  /**
   * What becomes of a free block from which `size` bytes are taken: the block handed out, and the rest if it is worth
   * it.
   */
  ghost function Parts(c: Cell, size: nat): seq<Cell>
    requires size <= c.size
  {
    if c.size >= size + 48
    then [Cell(c.addr, size, false), Cell(c.addr + 32 + size, c.size - size - 32, true)]
    else [Cell(c.addr, c.size, false)]
  }

  ghost function TakenCells(cells: seq<Cell>, i: nat, size: nat): seq<Cell>
    requires i < |cells| && size <= cells[i].size
  {
    cells[..i] + Parts(cells[i], size) + cells[i + 1..]
  }

  /** Block i is free and large enough, and none before it is. */
  ghost predicate FirstFit(cells: seq<Cell>, size: nat, i: nat)
  {
    && i < |cells| && cells[i].free && size <= cells[i].size
    && forall j | 0 <= j < i :: !(cells[j].free && size <= cells[j].size)
  }

  /** The free block that new pages make. */
  function GrownBlock(mapped: nat, mapped': nat): Cell
    requires mapped + 32 <= mapped'
  {
    Cell(0xffff_ffff_c000_0000 + mapped, mapped' - mapped - 32, true)
  }

  /**
   * The allocation at p: it lies in the first block that fits, or at the start of just the new pages that it needs, and
   * what it does not need stays one free block right behind it.
   */
  ghost predicate Placed(cells: seq<Cell>, mapped: nat, cells': seq<Cell>, mapped': nat, p: nat, size: nat)
  {
    var n := AlignUp(size);
    if Fits(cells, n) then mapped' == mapped && PlacedIn(cells, cells', p, n)
    else
      && mapped + n + 32 <= mapped' < mapped + n + 32 + 0x1000 && (mapped' - mapped) % 0x1000 == 0
      && cells' == TakenCells(cells + [GrownBlock(mapped, mapped')], |cells|, n)
      && p == 0xffff_ffff_c000_0000 + mapped + 32
  }

  ghost predicate PlacedIn(cells: seq<Cell>, cells': seq<Cell>, p: nat, n: nat)
  {
    exists i: nat :: FirstFit(cells, n, i) && cells' == TakenCells(cells, i, n) && p == cells[i].addr + 32
  }

  /** The bytes in free blocks. */
  ghost function FreeBytes(cells: seq<Cell>): nat
  {
    if cells == [] then 0
    else FreeBytes(cells[..|cells| - 1]) + if cells[|cells| - 1].free then cells[|cells| - 1].size else 0
  }

  lemma {:induction false} FreeBytesSplit(a: seq<Cell>, b: seq<Cell>)
    ensures FreeBytes(a + b) == FreeBytes(a) + FreeBytes(b)
  {
    if b == [] {
      assert a + b == a;
    } else {
      assert (a + b)[..|a + b| - 1] == a + b[..|b| - 1];
      FreeBytesSplit(a, b[..|b| - 1]);
    }
  }

  /**
   * Free bytes are conserved: what an allocation takes is its block, and a header if a free block remains behind it.
   */
  lemma TakenBalance(cells: seq<Cell>, i: nat, size: nat)
    requires i < |cells| && cells[i].free && size <= cells[i].size
    ensures var c, after := Parts(cells[i], size)[0], TakenCells(cells, i, size);
            && FreeBytes(cells) == FreeBytes(after) + c.size + (if |Parts(cells[i], size)| == 2 then 32 else 0)
            && size <= c.size < size + 48
  {
    var before, behind, parts := cells[..i], cells[i + 1..], Parts(cells[i], size);
    assert cells == before + [cells[i]] + behind;
    FreeBytesSplit(before, [cells[i]]);
    FreeBytesSplit(before + [cells[i]], behind);
    FreeBytesSplit(before, parts);
    FreeBytesSplit(before + parts, behind);
    OneCell(cells[i]);
    OneCell(parts[0]);
    if |parts| == 2 {
      assert parts == [parts[0]] + [parts[1]];
      FreeBytesSplit([parts[0]], [parts[1]]);
      OneCell(parts[1]);
    } else {
      assert parts == [parts[0]];
    }
  }

  lemma OneCell(c: Cell)
    ensures FreeBytes([c]) == if c.free then c.size else 0
  {
    assert [c][..0] == [];
  }

  lemma TakenIs(cells: seq<Cell>, i: nat, size: nat)
    requires i < |cells| && size <= cells[i].size
    ensures cells[i].size >= size + HEADER_BYTES + HEAP_ALIGNMENT ==>
              var split := SplitCells(cells, i, size);
              i < |split| && TakenCells(cells, i, size) == split[i := split[i].(free := false)]
    ensures cells[i].size < size + HEADER_BYTES + HEAP_ALIGNMENT ==>
              TakenCells(cells, i, size) == cells[i := cells[i].(free := false)]
  {
  }

  lemma GainedMore(live: set<Cell>, live': set<Cell>, p: nat, size: nat, aligned: nat)
    requires Gained(live, live', p, aligned) && aligned == AlignUp(size) == AlignUp(aligned) && size <= aligned
    ensures Gained(live, live', p, size)
  {
    hide AlignUp;
    var c :| c !in live && live' == live + {c} && Payload(c) == p && aligned <= c.size < AlignUp(aligned) + 48
        && !c.free;
  }

  /** A page with a block of `a` bytes at its start and the rest free. */
  ghost function OnePage(a: nat): seq<Cell>
    requires AlignUp(a) + 64 <= 0x1000
  {
    [Cell(HEAP_BASE, AlignUp(a), false), Cell(HEAP_BASE + 32 + AlignUp(a), 0x1000 - 64 - AlignUp(a), true)]
  }

  lemma FirstInPage(cells: seq<Cell>, mapped: nat, p: nat, a: nat, b: nat)
    requires Placed([], 0, cells, mapped, p, a) && 0 < b && AlignUp(a) + AlignUp(b) + 64 <= 0x1000
    ensures cells == OnePage(a) && mapped == 0x1000 && p == HEAP_BASE + 32 && Fits(cells, AlignUp(b))
  {
    hide AlignUp;
    AlignUpBounds(b);
    assert [] + [GrownBlock(0, mapped)] == [GrownBlock(0, mapped)];
    assert cells == OnePage(a);
    assert cells[1].free && AlignUp(b) <= cells[1].size;
  }

  lemma SecondInPage(cells: seq<Cell>, cells': seq<Cell>, mapped': nat, q: nat, a: nat, b: nat)
    requires AlignUp(a) + AlignUp(b) + 64 <= 0x1000 && cells == OnePage(a) && Fits(cells, AlignUp(b))
    requires Placed(cells, 0x1000, cells', mapped', q, b)
    ensures mapped' == 0x1000 && q == HEAP_BASE + 32 + AlignUp(a) + 32
  {
    hide AlignUp;
    var i: nat :| FirstFit(cells, AlignUp(b), i) && cells' == TakenCells(cells, i, AlignUp(b))
        && q == cells[i].addr + 32;
    assert i == 1;
  }

  lemma RoomyLive(live: set<Cell>, p: nat, size: nat)
    ensures Roomy(live, p, size) ==> LiveAt(live, p)
  {
  }

  lemma PagesForBounds(size: nat)
    ensures size + 32 <= PagesFor(size) * 0x1000 < size + 32 + 0x1000
  {
  }

  lemma AlignedAlready(size: nat)
    requires size % 16 == 0
    ensures AlignUp(size) == size
  {
  }

  // ------------------------------------------------------------ the live blocks determine the list

  /**
   * What the live blocks leave is covered by free blocks that do not touch each other, so there is only one such list.
   */
  lemma {:induction false} SameList(a: seq<Cell>, b: seq<Cell>, lo: nat, hi: nat)
    requires Tiles(a, lo, hi) && Tiles(b, lo, hi) && FreePairsWithin(a, {}) && FreePairsWithin(b, {})
    requires Used(a) == Used(b)
    ensures a == b
    decreases |a|
  {
    hide Used, FreePairsWithin, Tiles;
    EmptyList(a, lo, hi);
    EmptyList(b, lo, hi);
    if a != [] {
      FirstCell(a, b, lo, hi);
      FirstCell(b, a, lo, hi);
      TailList(a, lo, hi);
      TailList(b, lo, hi);
      SameList(a[1..], b[1..], End(a[0]), hi);
      assert a == [a[0]] + a[1..] && b == [b[0]] + b[1..];
    }
  }

  lemma EmptyList(a: seq<Cell>, lo: nat, hi: nat)
    requires Tiles(a, lo, hi)
    ensures a == [] <==> lo == hi
    ensures a != [] ==> a[0].addr == lo && (|a| == 1 ==> End(a[0]) == hi) && (|a| > 1 ==> a[1].addr == End(a[0]))
    ensures a != [] ==> End(a[0]) <= hi
  {
    if a != [] {
      InBounds(a, lo, hi, 0);
    }
  }

  lemma TailList(a: seq<Cell>, lo: nat, hi: nat)
    requires Tiles(a, lo, hi) && a != [] && FreePairsWithin(a, {})
    ensures Tiles(a[1..], End(a[0]), hi) && FreePairsWithin(a[1..], {})
    ensures Used(a[1..]) == Used(a) - {a[0]}
  {
    hide Used, Tiles;
    TailTiles(a, lo, hi);
    TailUsed(a, lo, hi);
    forall i, j | 0 <= i < j < |a[1..]| && j == i + 1
      ensures !(a[1..][i].free && a[1..][j].free)
    {
      assert a[1..][i] == a[i + 1] && a[1..][j] == a[j + 1];
    }
  }

  lemma TailTiles(a: seq<Cell>, lo: nat, hi: nat)
    requires Tiles(a, lo, hi) && a != []
    ensures Tiles(a[1..], End(a[0]), hi)
  {
    var tail := a[1..];
    assert forall i | 0 <= i < |tail| :: tail[i] == a[i + 1];
    assert |a| > 1 ==> a[1].addr == End(a[0]);
  }

  lemma TailUsed(a: seq<Cell>, lo: nat, hi: nat)
    requires Tiles(a, lo, hi) && a != []
    ensures Used(a[1..]) == Used(a) - {a[0]}
  {
    hide Tiles;
    assert a == [a[0]] + a[1..];
    AddrDistinct(a, lo, hi);
  }

  /**
   * The first block of a list is that of another with the same live blocks, or both are free and this one is no longer.
   */
  lemma FirstCell(a: seq<Cell>, b: seq<Cell>, lo: nat, hi: nat)
    requires Tiles(a, lo, hi) && Tiles(b, lo, hi) && FreePairsWithin(a, {}) && FreePairsWithin(b, {})
    requires Used(a) == Used(b)
    requires a != [] && b != []
    ensures !a[0].free ==> a[0] == b[0]
    ensures a[0].free && b[0].free ==> End(b[0]) <= End(a[0])
    ensures a[0].addr == b[0].addr == lo
  {
    hide Used, FreePairsWithin, Tiles;
    EmptyList(a, lo, hi);
    EmptyList(b, lo, hi);
    FreeOrUsed(a, 0);
    if !a[0].free {
      var k := Position(b, a[0]);
      if k > 0 {
        Ordered(b, lo, hi, 0, k);
      }
    } else if b[0].free && |a| > 1 {
      PairOf(a);
      FreeOrUsed(a, 1);
      var k := Position(b, a[1]);
      if k > 0 {
        Ordered(b, lo, hi, 0, k);
      }
    }
  }

  lemma PairOf(a: seq<Cell>)
    requires |a| > 1 && FreePairsWithin(a, {}) && a[0].free
    ensures !a[1].free
  {
  }

  // ------------------------------------------------------------ giving pages back

  /** The end of the last live block, or the start of the area. */
  ghost predicate IsTop(live: set<Cell>, lo: nat, t: nat)
  {
    && (forall c | c in live :: c.addr + 32 + c.size <= t)
    && (if live == {} then t == lo else exists c :: c in live && c.addr + 32 + c.size == t)
  }

  /** A free last block that starts on a page goes. */
  ghost function Trimmed(cells: seq<Cell>): seq<Cell>
  {
    if cells != [] && cells[|cells| - 1].free && cells[|cells| - 1].addr % 0x1000 == 0 then cells[..|cells| - 1]
        else cells
  }

  /** Behind the last live block there is one free block or none. */
  lemma TopIs(cells: seq<Cell>, lo: nat, hi: nat, t: nat)
    requires Tiles(cells, lo, hi) && FreePairsWithin(cells, {}) && IsTop(Used(cells), lo, t)
    ensures t == if cells != [] && cells[|cells| - 1].free then cells[|cells| - 1].addr else hi
  {
    hide Used, FreePairsWithin, Tiles;
    EmptyList(cells, lo, hi);
    if cells == [] {
      if Used(cells) != {} {
        var c :| c in Used(cells);
        var i := Position(cells, c);
      }
    } else {
      var n := |cells| - 1;
      LastFacts(cells, lo, hi);
      var m := if cells[n].free then n - 1 else n;
      if m < 0 {
        NoneUsed(cells);
      } else {
        LastPair(cells);
        FreeOrUsed(cells, m);
        assert End(cells[m]) <= t;
        if cells[n].free {
          Adjacent(cells, lo, hi, m);
        }
        var c :| c in Used(cells) && c.addr + 32 + c.size == t;
        var i := Position(cells, c);
        FreeOrUsed(cells, i);
        if i < m {
          Ordered(cells, lo, hi, i, m);
        }
      }
    }
  }

  /** Pages are given back exactly down to the end of the last live block, and only if a page ends there. */
  ghost predicate PagesKept(live: set<Cell>, mapped: nat, mapped': nat)
  {
    forall t: nat | IsTop(live, 0xffff_ffff_c000_0000, t) ::
      mapped' == if t % 0x1000 == 0 then t - 0xffff_ffff_c000_0000 else mapped
  }

  lemma TrimmedPages(merged: seq<Cell>, cells: seq<Cell>, mapped: nat, mapped': nat)
    requires Tiles(merged, HEAP_BASE, HEAP_BASE + mapped) && FreePairsWithin(merged, {}) && mapped % PAGE_SIZE == 0
    requires cells == Trimmed(merged) && Tiles(cells, HEAP_BASE, HEAP_BASE + mapped') && Used(cells) == Used(merged)
    ensures PagesKept(Used(cells), mapped, mapped')
  {
    hide Tiles, FreePairsWithin, Used, Trimmed, IsTop;
    forall t: nat | IsTop(Used(cells), 0xffff_ffff_c000_0000, t)
      ensures mapped' == if t % 0x1000 == 0 then t - 0xffff_ffff_c000_0000 else mapped
    {
      TrimmedTop(merged, HEAP_BASE, HEAP_BASE + mapped, HEAP_BASE + mapped', t);
    }
  }

  lemma NoneUsed(cells: seq<Cell>)
    requires |cells| == 1 && cells[0].free
    ensures Used(cells) == {}
  {
  }

  lemma LastPair(cells: seq<Cell>)
    requires cells != [] && FreePairsWithin(cells, {})
    ensures |cells| > 1 && cells[|cells| - 1].free ==> !cells[|cells| - 2].free
  {
  }

  /** How much stays mapped after the last free block has gone, if it has. */
  lemma TrimmedTop(cells: seq<Cell>, lo: nat, hi: nat, hi': nat, t: nat)
    requires Tiles(cells, lo, hi) && FreePairsWithin(cells, {}) && Tiles(Trimmed(cells), lo, hi')
    requires IsTop(Used(cells), lo, t) && hi % 0x1000 == 0
    ensures hi' == if t % 0x1000 == 0 then t else hi
  {
    hide Used, FreePairsWithin, Tiles;
    TopIs(cells, lo, hi, t);
    EmptyList(cells, lo, hi);
    EmptyList(Trimmed(cells), lo, hi');
    if cells != [] {
      LastFacts(cells, lo, hi);
      var n := |cells| - 1;
      if n > 0 {
        Adjacent(cells, lo, hi, n - 1);
      }
      if Trimmed(cells) != [] {
        LastFacts(Trimmed(cells), lo, hi');
      }
    }
  }

  /** The live block at p already has this size. */
  ghost predicate Roomy(live: set<Cell>, p: nat, size: nat)
  {
    exists c :: c in live && Payload(c) == p && size <= c.size
  }

  ghost predicate LiveAt(live: set<Cell>, p: nat)
  {
    exists c :: c in live && Payload(c) == p
  }

  /** The live block at p is gone, and no other. */
  ghost predicate Lost(live: set<Cell>, live': set<Cell>, p: nat)
  {
    exists c :: c in live && live' == live - {c} && Payload(c) == p
  }

  /** A pointer is live exactly when it follows the header of a used block. */
  lemma LiveAtIff(cells: seq<Cell>, lo: nat, hi: nat, p: nat)
    requires Tiles(cells, lo, hi)
    ensures LiveAt(Used(cells), p) ==> lo + HEADER_BYTES <= p < hi
    ensures LiveAt(Used(cells), p) <==> exists i :: 0 <= i < |cells| && Payload(cells[i]) == p && !cells[i].free
  {
    if LiveAt(Used(cells), p) {
      var c :| c in Used(cells) && Payload(c) == p;
      var i :| 0 <= i < |cells| && cells[i] == c;
      InBounds(cells, lo, hi, i);
    }
    if i :| 0 <= i < |cells| && Payload(cells[i]) == p && !cells[i].free {
      assert cells[i] in Used(cells);
    }
  }

  lemma LiveAtBounds(cells: seq<Cell>, lo: nat, hi: nat, p: nat)
    requires Tiles(cells, lo, hi)
    ensures LiveAt(Used(cells), p) ==> lo + HEADER_BYTES <= p < hi
  {
    hide Used;
    LiveAtIff(cells, lo, hi, p);
  }

  lemma IsLive(cells: seq<Cell>, i: nat)
    requires i < |cells| && !cells[i].free
    ensures LiveAt(Used(cells), Payload(cells[i]))
  {
    assert cells[i] in Used(cells);
  }

  lemma IsLost(live: set<Cell>, c: Cell)
    requires c in live
    ensures Lost(live, live - {c}, Payload(c))
  {
  }

  lemma NotLive(cells: seq<Cell>, lo: nat, hi: nat, p: nat)
    requires Tiles(cells, lo, hi) && forall i | 0 <= i < |cells| && Payload(cells[i]) == p :: cells[i].free
    ensures !LiveAt(Used(cells), p)
  {
    LiveAtIff(cells, lo, hi, p);
  }

  lemma OnlyBlockAt(cells: seq<Cell>, lo: nat, hi: nat, i: nat)
    requires Tiles(cells, lo, hi) && i < |cells|
    ensures forall j | 0 <= j < |cells| && cells[j].addr == cells[i].addr :: j == i
  {
    AddrDistinct(cells, lo, hi);
  }

  /** The n bytes at `to` are those that were at `from`. */
  ghost predicate Copied(b0: map<nat, byte>, from: nat, b1: map<nat, byte>, to: nat, n: nat)
  {
    forall y: nat | to <= y < to + n :: y in b1 && from + (y - to) in b0 && b1[y] == b0[from + (y - to)]
  }

  /** The allocation at p became the one at q, with the old contents up to the smaller size. */
  ghost predicate Moved(live: set<Cell>, live': set<Cell>, p: nat, q: nat, newSize: nat, b0: map<nat, byte>,
                        b1: map<nat, byte>)
  {
    exists c, d :: MovedTo(live, live', p, q, newSize, b0, b1, c, d)
  }

  ghost predicate MovedTo(live: set<Cell>, live': set<Cell>, p: nat, q: nat, newSize: nat, b0: map<nat, byte>,
                          b1: map<nat, byte>,
                          c: Cell, d: Cell)
  {
    && c in live && Payload(c) == p && Payload(d) == q && newSize <= d.size
    && (c.size < newSize ==> d.size < AlignUp(newSize) + 48) && (newSize <= c.size ==> d == c)
    && live' == live - {c} + {d} && (d == c || d !in live)
    && Copied(b0, p, b1, q, if c.size < newSize then c.size else newSize)
  }

  lemma KeptSubset(live: set<Cell>, less: set<Cell>, b0: map<nat, byte>, b1: map<nat, byte>)
    requires Kept(live, b0, b1) && less <= live
    ensures Kept(less, b0, b1)
  {
  }

  /** Writing inside one live block keeps the others. */
  lemma CopyKeeps(cells: seq<Cell>, mapped: nat, d: Cell, n: nat, b0: map<nat, byte>, b1: map<nat, byte>)
    requires Tiles(cells, HEAP_BASE, HEAP_BASE + mapped) && Mapped(b0, mapped) && b1.Keys == b0.Keys && d in Used(cells)
    requires n <= d.size
    requires forall x | x in b1 && !(Payload(d) <= x < Payload(d) + n) :: b1[x] == b0[x]
    ensures Kept(Used(cells) - {d}, b0, b1)
  {
    hide Tiles, Used;
    forall e, x: nat | e in Used(cells) - {d} && Contains(e, x)
      ensures x in b0 && x in b1 && b0[x] == b1[x]
    {
      LiveBlocks(cells, HEAP_BASE, HEAP_BASE + mapped, e, d);
      assert x in b1.Keys;
    }
  }

  /** A copy between live blocks survives steps that keep the source before and the target after. */
  lemma CopyThenKept(c: Cell, d: Cell, n: nat, b0: map<nat, byte>, b1: map<nat, byte>, b2: map<nat, byte>,
                     b3: map<nat, byte>)
    requires Kept({c}, b0, b1) && Copied(b1, Payload(c), b2, Payload(d), n) && Kept({d}, b2, b3) && n <= c.size
    requires n <= d.size
    ensures Copied(b0, Payload(c), b3, Payload(d), n)
  {
    forall y: nat | Payload(d) <= y < Payload(d) + n
      ensures y in b3 && Payload(c) + (y - Payload(d)) in b0 && b3[y] == b0[Payload(c) + (y - Payload(d))]
    {
      assert Contains(d, y) && Contains(c, Payload(c) + (y - Payload(d)));
      assert y in b2;
    }
  }

  lemma KeptBoth(kept: set<Cell>, other: set<Cell>, b0: map<nat, byte>, b1: map<nat, byte>)
    ensures Kept(kept, b0, b1) ==> Kept(kept * other, b0, b1) && Kept(other * kept, b0, b1)
  {
  }

  /** Allocate, copy and free together. */
  lemma MoveSummary(live: set<Cell>, c: Cell, d: Cell, newSize: nat, b0: map<nat, byte>, b1: map<nat, byte>,
                    b2: map<nat, byte>, b3: map<nat, byte>)
    requires c in live && d !in live && c.size < newSize <= d.size < AlignUp(newSize) + 48
    requires Kept(live, b0, b1) && Kept(live + {d} - {d}, b1, b2) && Kept(live + {d} - {c}, b2, b3)
    requires Copied(b1, Payload(c), b2, Payload(d), c.size)
    ensures Moved(live, live + {d} - {c}, Payload(c), Payload(d), newSize, b0, b3)
    ensures Kept((live + {d} - {c}) * live, b0, b3)
  {
    hide Kept, Copied;
    var after := live + {d} - {c};
    KeptSubset(live, {c}, b0, b1);
    KeptSubset(after, {d}, b2, b3);
    CopyThenKept(c, d, c.size, b0, b1, b2, b3);
    assert after == live - {c} + {d};
    assert MovedTo(live, after, Payload(c), Payload(d), newSize, b0, b3, c, d);
    var both := after * live;
    KeptSubset(live, both, b0, b1);
    KeptSubset(live + {d} - {d}, both, b1, b2);
    KeptSubset(after, both, b2, b3);
    KeptTrans(both, b0, b1, b2);
    KeptTrans(both, b0, b2, b3);
  }

  lemma CopiedInPlace(c: Cell, n: nat, b: map<nat, byte>)
    requires Kept({c}, b, b) && n <= c.size
    ensures Copied(b, Payload(c), b, Payload(c), n)
  {
    forall y: nat | Payload(c) <= y < Payload(c) + n
      ensures y in b
    {
      assert Contains(c, y);
    }
  }

  /** Taking block i, whole or split, leaves no free pair. */
  lemma TakePairs(cells: seq<Cell>, i: nat)
    requires i < |cells| && cells[i].free && FreePairsWithin(cells, {i - 1})
    ensures FreePairsWithin(cells[i := cells[i].(free := false)], {})
  {
  }

  lemma SplitPairs(cells: seq<Cell>, i: nat, size: nat)
    requires i < |cells| && cells[i].free && FreePairsWithin(cells, {i - 1}) && size + HEADER_BYTES <= cells[i].size
    ensures var cells' := SplitCells(cells, i, size);
            i < |cells'| && FreePairsWithin(cells'[i := cells'[i].(free := false)], {})
  {
    hide SplitCells;
    SplitAt(cells, i, size);
    var cells' := SplitCells(cells, i, size);
    var taken := cells'[i := cells'[i].(free := false)];
    forall j, k | 0 <= j < k < |taken| && k == j + 1
      ensures !(taken[j].free && taken[k].free)
    {
      assert k > i + 1 ==> cells'[k] == cells[j];
      assert j > i + 1 ==> cells'[j] == cells[j - 1];
    }
  }

  /** A header inside a free block, or at the start of any block, overlaps no live payload. */
  lemma HeaderClear(cells: seq<Cell>, lo: nat, hi: nat, i: nat, a: nat, c: Cell, x: nat)
    requires Tiles(cells, lo, hi) && i < |cells| && cells[i].addr <= a && a + HEADER_BYTES <= End(cells[i])
    requires cells[i].free || a == cells[i].addr
    requires c in Used(cells) && Contains(c, x)
    ensures !(a <= x < a + HEADER_BYTES)
  {
    var j :| 0 <= j < |cells| && cells[j] == c;
    if j < i {
      Ordered(cells, lo, hi, j, i);
    } else if i < j {
      Ordered(cells, lo, hi, i, j);
    }
  }

  lemma AppendUsed(cells: seq<Cell>, cells': seq<Cell>)
    requires |cells'| == |cells| + 1 && cells'[..|cells|] == cells && cells'[|cells|].free
    ensures Used(cells') == Used(cells)
  {
    assert cells' == cells + [cells'[|cells|]];
  }

  lemma DropLastUsed(cells: seq<Cell>)
    requires cells != [] && cells[|cells| - 1].free
    ensures Used(cells[..|cells| - 1]) == Used(cells)
    ensures FreePairsWithin(cells, {}) ==> FreePairsWithin(cells[..|cells| - 1], {})
  {
    assert cells == cells[..|cells| - 1] + [cells[|cells| - 1]];
  }

  /** Live bytes survive when memory above the blocks goes away. */
  lemma KeptShrunk(cells: seq<Cell>, bytes: map<nat, byte>, bytes': map<nat, byte>, mapped: nat)
    requires Tiles(cells, HEAP_BASE, HEAP_BASE + mapped) && Mapped(bytes', mapped)
    requires forall x | x in bytes' :: x in bytes && bytes'[x] == bytes[x]
    ensures Kept(Used(cells), bytes, bytes')
  {
    hide Tiles, Used;
    forall c, x: nat | c in Used(cells) && Contains(c, x)
      ensures x in bytes && x in bytes' && bytes[x] == bytes'[x]
    {
      LiveBlocks(cells, HEAP_BASE, HEAP_BASE + mapped, c, c);
    }
  }

  /** Where free pairs may be once the pair at i is gone. */
  lemma MergePairsBelow(cells: seq<Cell>, i: nat, low: set<int>)
    requires i + 1 < |cells| && FreePairsWithin(cells, low + {i}) && cells[i].free && cells[i + 1].free
    requires forall j | j in low :: j < i
    ensures FreePairsWithin(MergeCells(cells, i), low)
  {
    MergePairs(cells, i, low + {i});
    assert (set j | j in low + {i} && j != i :: if j < i then j else j - 1) <= low;
  }

  lemma NoPairAt(cells: seq<Cell>, i: nat, low: set<int>)
    requires i < |cells| && FreePairsWithin(cells, low + {i}) && (i + 1 < |cells| ==> !cells[i + 1].free)
    ensures FreePairsWithin(cells, low)
  {
  }

  lemma NoPairBefore(cells: seq<Cell>, i: nat)
    requires i < |cells| && FreePairsWithin(cells, {i - 1}) && (i > 0 ==> !cells[i - 1].free)
    ensures FreePairsWithin(cells, {})
  {
  }

  /** Freeing a block can only make pairs with its neighbours. */
  lemma ReleasePairs(cells: seq<Cell>, i: nat)
    requires i < |cells| && FreePairsWithin(cells, {})
    ensures FreePairsWithin(cells[i := cells[i].(free := true)], {i - 1} + {i})
  {
  }

  lemma PairsWiden(cells: seq<Cell>, at: set<int>)
    requires FreePairsWithin(cells, {})
    ensures FreePairsWithin(cells, at)
  {
  }

  lemma FreeIsNotUsed(cells: seq<Cell>, lo: nat, hi: nat, i: nat, c: Cell)
    requires Tiles(cells, lo, hi) && i < |cells| && cells[i].free && c.addr == cells[i].addr
    ensures c !in Used(cells)
  {
    AddrDistinct(cells, lo, hi);
  }

  lemma Position(cells: seq<Cell>, c: Cell) returns (i: nat)
    requires c in Used(cells)
    ensures i < |cells| && cells[i] == c
  {
    i :| 0 <= i < |cells| && cells[i] == c;
  }

  lemma AlignedAt(cells: seq<Cell>, lo: nat, hi: nat, i: nat)
    requires Tiles(cells, lo, hi) && i < |cells|
    ensures Payload(cells[i]) % HEAP_ALIGNMENT == 0
  {
  }

  /** Live blocks lie inside the mapped area, aligned, and do not overlap each other. */
  lemma LiveBlocks(cells: seq<Cell>, lo: nat, hi: nat, c: Cell, d: Cell)
    requires Tiles(cells, lo, hi) && c in Used(cells) && d in Used(cells)
    ensures lo + HEADER_BYTES <= Payload(c) && End(c) <= hi && Payload(c) % HEAP_ALIGNMENT == 0
    ensures c != d ==> End(c) <= d.addr || End(d) <= c.addr
  {
    hide Used, Tiles;
    var i := Position(cells, c);
    var j := Position(cells, d);
    AlignedAt(cells, lo, hi, i);
    InBounds(cells, lo, hi, i);
    if i < j {
      Ordered(cells, lo, hi, i, j);
    } else if j < i {
      Ordered(cells, lo, hi, j, i);
    }
  }

  lemma FreeOrUsed(cells: seq<Cell>, i: nat)
    requires i < |cells|
    ensures cells[i].free <==> cells[i] !in Used(cells)
  {
  }

  lemma FirstPair(cells: seq<Cell>)
    requires |cells| > 1 && forall i | 0 <= i < |cells| :: cells[i].free
    ensures !FreePairsWithin(cells, {})
  {
    assert cells[0].free && cells[1].free;
  }

  /** Without live blocks and free pairs there is at most one block, the whole area. */
  lemma NothingLive(cells: seq<Cell>)
    requires Used(cells) == {} && FreePairsWithin(cells, {})
    ensures |cells| <= 1 && (cells != [] ==> cells[0].free)
  {
    forall i | 0 <= i < |cells|
      ensures cells[i].free
    {
      FreeOrUsed(cells, i);
    }
    if |cells| > 1 {
      FirstPair(cells);
    }
  }

  function Extended(bytes: map<nat, byte>, junk: nat -> byte, x: nat): byte
  {
    if x in bytes then bytes[x] else junk(x)
  }

  lemma PageSized(mapped: nat, size: nat)
    requires mapped % PAGE_SIZE == 0 && (size + HEADER_BYTES) % PAGE_SIZE == 0
    ensures WellSized(Cell(HEAP_BASE + mapped, size, true))
    ensures (mapped + size + HEADER_BYTES) % PAGE_SIZE == 0
  {
    var q, r := mapped / PAGE_SIZE, (size + HEADER_BYTES) / PAGE_SIZE;
    assert mapped == PAGE_SIZE * q && size + HEADER_BYTES == PAGE_SIZE * r;
    Modular.ModUnique(HEAP_BASE + mapped, HEAP_ALIGNMENT, HEAP_BASE / HEAP_ALIGNMENT + 256 * q, 0);
    Modular.ModUnique(size, HEAP_ALIGNMENT, 256 * r - 2, 0);
    Modular.ModUnique(mapped + size + HEADER_BYTES, PAGE_SIZE, q + r, 0);
  }

  lemma TrailingPages(last: nat, size: nat, mapped: nat)
    requires HEAP_BASE <= last && last + HEADER_BYTES + size == HEAP_BASE + mapped && mapped % PAGE_SIZE == 0
    ensures last % PAGE_SIZE == 0 <==> (HEADER_BYTES + size) % PAGE_SIZE == 0
    ensures last % PAGE_SIZE == 0 ==>
              var before, count := (last - HEAP_BASE) / PAGE_SIZE, (HEADER_BYTES + size) / PAGE_SIZE;
              && last == HEAP_BASE + before * PAGE_SIZE && mapped / PAGE_SIZE == before + count
              && (last - HEAP_BASE) % PAGE_SIZE == 0
  {
  }

  /** Growing appends a free block; only the pair it forms with the old last block may be free. */
  lemma GrowPairs(cells: seq<Cell>, c: Cell)
    requires FreePairsWithin(cells, {})
    ensures FreePairsWithin(cells + [c], {|cells| - 1}) && (c.free ==> Used(cells + [c]) == Used(cells))
  {
  }

  /** What the header writes of grow_heap rely on. */
  lemma AppendReady(first: nat, last: nat, mapped: nat, headers: map<nat, Header>, cells: seq<Cell>, c: Cell)
    requires Shape(first, last, mapped, headers, cells, {})
    requires c == Cell(HEAP_BASE + mapped, c.size, true) && (c.size + HEADER_BYTES) % PAGE_SIZE == 0
    ensures Tiles(cells, HEAP_BASE, HEAP_BASE + mapped)
    ensures Tiles(cells + [c], HEAP_BASE, HEAP_BASE + mapped + c.size + HEADER_BYTES)
    ensures Ends(first, last, cells) && (last != 0 ==> last in headers) && (cells != [] ==> last != 0 && last != c.addr)
    ensures Used(cells + [c]) == Used(cells)
  {
    hide Tiles, Linked, FreePairsWithin, Used;
    PageSized(mapped, c.size);
    AppendTiles(cells, HEAP_BASE, HEAP_BASE + mapped, c);
    GrowPairs(cells, c);
    AddrPositive(cells, HEAP_BASE, HEAP_BASE + mapped);
    if cells != [] {
      LinkedAt(headers, cells, |cells| - 1);
      InBounds(cells, HEAP_BASE, HEAP_BASE + mapped, |cells| - 1);
    }
  }

  lemma AppendShape(first: nat, last: nat, mapped: nat, headers: map<nat, Header>, cells: seq<Cell>, c: Cell,
                    first': nat, last': nat)
    requires Shape(first, last, mapped, headers, cells, {}) && Ends(first', last', cells + [c])
    requires c == Cell(HEAP_BASE + mapped, c.size, true) && (c.size + HEADER_BYTES) % PAGE_SIZE == 0
    requires mapped + c.size + HEADER_BYTES <= HEAP_MAXIMUM_BYTES
    ensures Shape(first', last', mapped + c.size + HEADER_BYTES, AppendHeaders(headers, cells, c), cells + [c],
              {|cells| - 1})
  {
    hide Tiles, Linked, FreePairsWithin, Used, AppendHeaders, Ends;
    PageSized(mapped, c.size);
    AppendTiles(cells, HEAP_BASE, HEAP_BASE + mapped, c);
    AppendLinked(headers, cells, HEAP_BASE, HEAP_BASE + mapped, c);
    GrowPairs(cells, c);
  }

  /** Live bytes survive when memory is added. */
  lemma KeptExtended(cells: seq<Cell>, bytes: map<nat, byte>, bytes': map<nat, byte>, mapped: nat)
    requires Tiles(cells, HEAP_BASE, HEAP_BASE + mapped) && Mapped(bytes, mapped)
    requires forall x | x in bytes :: x in bytes' && bytes'[x] == bytes[x]
    ensures Kept(Used(cells), bytes, bytes')
  {
    hide Tiles, Used;
    forall c, x: nat | c in Used(cells) && Contains(c, x)
      ensures x in bytes && x in bytes' && bytes[x] == bytes'[x]
    {
      LiveBlocks(cells, HEAP_BASE, HEAP_BASE + mapped, c, c);
    }
  }

  function Clobbered(bytes: map<nat, byte>, junk: nat -> byte, a: nat, x: nat): byte
    requires x in bytes
  {
    if a <= x < a + HEADER_BYTES then junk(x) else bytes[x]
  }

  class KernelHeap {
    const kernel: KernelMap
    var first: nat
    var last: nat
    var mappedBytes: nat
    var activeAllocations: nat
    var initialized: bool
    var headers: map<nat, Header>
    var bytes: map<nat, byte>
    ghost var cells: seq<Cell>

    /** Everything but the count of live blocks. */
    ghost predicate Inv(at: set<int>)
      reads this, kernel, kernel.pmm, kernel.pmm.usable, kernel.pmm.free
    {
      && kernel.Valid()
      && Shape(first, last, mappedBytes, headers, cells, at)
      && Mapped(bytes, mappedBytes)
      && kernel.pages.Keys == PageSet(HEAP_BASE, mappedBytes / PAGE_SIZE)
    }

    ghost predicate Valid()
      reads this, kernel, kernel.pmm, kernel.pmm.usable, kernel.pmm.free
    {
      && Inv({})
      && activeAllocations == |Used(cells)|
      && (activeAllocations == 0 ==> cells == [])
    }

    /** The live allocations. */
    ghost function Live(): set<Cell>
      reads this`cells
    {
      Used(cells)
    }

    constructor (kernel: KernelMap)
      requires kernel.Valid() && kernel.pages == map[]
      ensures Valid() && !initialized && Live() == {} && this.kernel == kernel
    {
      this.kernel := kernel;
      first, last, mappedBytes, activeAllocations := 0, 0, 0, 0;
      initialized := false;
      headers, bytes := map[], map[];
      cells := [];
    }

    /** heap_initialize */
    method Initialize()
      requires Valid() && Live() == {}
      modifies this
      ensures Valid() && initialized && Live() == {} && kernel.Pool() == old(kernel.Pool())
    {
      hide Tiles, Linked, FreePairsWithin, Mapped, KernelMap.Valid, KernelMap.Pool, PageSet;
      Quiescent();
      first, last, mappedBytes, activeAllocations := 0, 0, 0, 0;
      initialized := true;
    }

    /** Whenever no allocation is live the list is empty and every page has been given back. */
    lemma Quiescent()
      requires Valid() && activeAllocations == 0
      ensures first == 0 && mappedBytes == 0 && kernel.pages == map[] && kernel.tables == map[]
      ensures kernel.Pool() == kernel.pmm.Free()
    {
      assert PageSet(HEAP_BASE, 0) == {};
    }

    /** A header write; it clobbers the bytes the header occupies. */
    method Store(a: nat, h: Header)
      modifies this`headers, this`bytes
      ensures headers == old(headers)[a := h] && bytes.Keys == old(bytes).Keys
      ensures forall x | x in bytes && !(a <= x < a + HEADER_BYTES) :: bytes[x] == old(bytes)[x]
    {
      headers := headers[a := h];
      var junk: nat -> byte := *;
      bytes := map x: nat | x in bytes :: Clobbered(bytes, junk, a, x);
    }

    /** A header write inside a free block or over the header of any block: live bytes are untouched. */
    method StoreHeader(a: nat, h: Header, ghost i: nat)
      requires Tiles(cells, HEAP_BASE, HEAP_BASE + mappedBytes) && Mapped(bytes, mappedBytes)
      requires i < |cells| && cells[i].addr <= a && a + HEADER_BYTES <= End(cells[i])
      requires cells[i].free || a == cells[i].addr
      modifies this`headers, this`bytes
      ensures headers == old(headers)[a := h] && Mapped(bytes, mappedBytes) && Kept(Used(cells), old(bytes), bytes)
    {
      hide Tiles, Used;
      Store(a, h);
      forall c, x: nat | c in Used(cells) && Contains(c, x)
        ensures x in bytes && x in old(bytes) && bytes[x] == old(bytes)[x]
      {
        HeaderClear(cells, HEAP_BASE, HEAP_BASE + mappedBytes, i, a, c, x);
        LiveBlocks(cells, HEAP_BASE, HEAP_BASE + mappedBytes, c, c);
      }
    }

    /** The first free block of at least `size` bytes. */
    method FindFree(size: nat) returns (block: nat, ghost i: nat)
      requires Inv({})
      ensures block == 0 ==> forall j | 0 <= j < |cells| :: !(cells[j].free && cells[j].size >= size)
      ensures block != 0 ==> i < |cells| && cells[i].addr == block && cells[i].free && cells[i].size >= size
      ensures block != 0 ==> forall j | 0 <= j < i :: !(cells[j].free && cells[j].size >= size)
    {
      hide Tiles, Linked, Mapped, FreePairsWithin;
      AddrPositive(cells, HEAP_BASE, HEAP_BASE + mappedBytes);
      block, i := first, 0;
      while block != 0
        invariant i <= |cells| && block == (if i < |cells| then cells[i].addr else 0)
        invariant forall j | 0 <= j < i :: !(cells[j].free && cells[j].size >= size)
        decreases |cells| - i
      {
        LinkedAt(headers, cells, i);
        if headers[block].free && headers[block].size >= size {
          return;
        }
        block, i := headers[block].next, i + 1;
      }
    }

    /** The walk to a given block in kfree and krealloc. */
    method FindBlock(candidate: nat) returns (block: nat, ghost i: nat)
      requires Inv({})
      ensures block == 0 ==> forall j | 0 <= j < |cells| :: cells[j].addr != candidate
      ensures block != 0 ==> block == candidate && i < |cells| && cells[i].addr == block
    {
      hide Tiles, Linked, Mapped, FreePairsWithin;
      AddrPositive(cells, HEAP_BASE, HEAP_BASE + mappedBytes);
      block, i := first, 0;
      while block != 0 && block != candidate
        invariant i <= |cells| && block == (if i < |cells| then cells[i].addr else 0)
        invariant forall j | 0 <= j < i :: cells[j].addr != candidate
        decreases |cells| - i
      {
        LinkedAt(headers, cells, i);
        block, i := headers[block].next, i + 1;
      }
    }

    /** The split in kmalloc: block i is cut at `size`; live bytes are untouched. */
    method Split(block: nat, size: nat, ghost i: nat)
      requires Inv({i - 1}) && i < |cells| && cells[i].addr == block && cells[i].free
      requires size % HEAP_ALIGNMENT == 0 && 0 < size && size + HEADER_BYTES + HEAP_ALIGNMENT <= cells[i].size
      modifies this`last, this`headers, this`bytes, this`cells
      ensures Tiles(cells, HEAP_BASE, HEAP_BASE + mappedBytes) && Linked(headers, cells) && Ends(first, last, cells)
      ensures cells == SplitCells(old(cells), i, size) && Mapped(bytes, mappedBytes)
      ensures Kept(Used(old(cells)), old(bytes), bytes)
    {
      hide Tiles, Linked, FreePairsWithin, SplitCells, Used, Kept, Mapped;
      ghost var hi := HEAP_BASE + mappedBytes;
      SplitTiles(cells, HEAP_BASE, hi, i, size);
      SplitLinked(headers, cells, HEAP_BASE, hi, i, size);
      SplitAt(cells, i, size);
      AddrPositive(cells, HEAP_BASE, hi);
      LinkedAt(headers, cells, i);
      var h := headers[block];
      var split := block + HEADER_BYTES + size;
      StoreHeader(split, Header(h.size - size - HEADER_BYTES, block, h.next, true), i);
      ghost var b1 := bytes;
      if h.next != 0 {
        LinkedAt(old(headers), cells, i + 1);
        StoreHeader(h.next, headers[h.next].(previous := split), i + 1);
        KeptTrans(Used(cells), old(bytes), b1, bytes);
      } else {
        last := split;
      }
      ghost var b2 := bytes;
      StoreHeader(block, Header(size, h.previous, split, h.free), i);
      KeptTrans(Used(cells), old(bytes), b2, bytes);
      assert headers == SplitHeaders(old(headers), block, size);
      cells := SplitCells(cells, i, size);
    }

    /** New pages come with arbitrary contents. */
    method Extend(more: nat)
      requires Tiles(cells, HEAP_BASE, HEAP_BASE + mappedBytes) && Mapped(bytes, mappedBytes)
      modifies this`mappedBytes, this`bytes
      ensures mappedBytes == old(mappedBytes) + more && Mapped(bytes, mappedBytes)
      ensures Kept(Used(cells), old(bytes), bytes)
    {
      hide Tiles, Used, Kept;
      var junk: nat -> byte := *;
      bytes := map x: nat | HEAP_BASE <= x < HEAP_BASE + mappedBytes + more :: Extended(bytes, junk, x);
      KeptExtended(cells, old(bytes), bytes, mappedBytes);
      mappedBytes := mappedBytes + more;
    }

    /** The end of grow_heap: the new pages become one free block at the end of the list. */
    method Append(size: nat)
      requires Shape(first, last, mappedBytes, headers, cells, {}) && Mapped(bytes, mappedBytes)
      requires (size + HEADER_BYTES) % PAGE_SIZE == 0 && mappedBytes + size + HEADER_BYTES <= HEAP_MAXIMUM_BYTES
      modifies this`first, this`last, this`mappedBytes, this`headers, this`bytes, this`cells
      ensures Shape(first, last, mappedBytes, headers, cells, {|old(cells)| - 1}) && Mapped(bytes, mappedBytes)
      ensures mappedBytes == old(mappedBytes) + size + HEADER_BYTES
      ensures cells == old(cells) + [Cell(HEAP_BASE + old(mappedBytes), size, true)]
      ensures Kept(Used(old(cells)), old(bytes), bytes)
    {
      hide Tiles, Linked, FreePairsWithin, Used, Kept, Mapped, Shape, AppendHeaders;
      var block := HEAP_BASE + mappedBytes;
      ghost var c, n := Cell(block, size, true), |cells|;
      AppendReady(first, last, mappedBytes, headers, cells, c);
      Extend(size + HEADER_BYTES);
      ghost var b1 := bytes;
      cells := cells + [c];
      assert cells[..n] == old(cells);
      LinkLast(block, size);
      KeptTrans(Used(cells), old(bytes), b1, bytes);
      AppendShape(old(first), old(last), old(mappedBytes), old(headers), old(cells), c, first, last);
    }

    /** The header writes at the end of grow_heap. */
    method LinkLast(block: nat, size: nat)
      requires Tiles(cells, HEAP_BASE, HEAP_BASE + mappedBytes) && Mapped(bytes, mappedBytes)
      requires cells != [] && cells[|cells| - 1] == Cell(block, size, true) && block != 0
      requires Ends(first, last, cells[..|cells| - 1]) && (last != 0 ==> last in headers)
      requires cells[..|cells| - 1] != [] ==> last != 0 && last != block
      modifies this`first, this`last, this`headers, this`bytes
      ensures Ends(first, last, cells) && Mapped(bytes, mappedBytes) && Kept(Used(cells), old(bytes), bytes)
      ensures headers == AppendHeaders(old(headers), cells[..|cells| - 1], cells[|cells| - 1])
    {
      hide Tiles, Used, Kept, Mapped;
      ghost var n := |cells| - 1;
      StoreHeader(block, Header(size, last, 0, true), n);
      ghost var b2 := bytes;
      if last != 0 {
        StoreHeader(last, headers[last].(next := block), n - 1);
        KeptTrans(Used(cells), old(bytes), b2, bytes);
      } else {
        first := block;
      }
      last := block;
    }

    /** grow_heap: enough whole pages for the request, or nothing changes. */
    method Grow(size: nat) returns (block: nat)
      requires Inv({}) && size > 0 && size % HEAP_ALIGNMENT == 0
      modifies this`first, this`last, this`mappedBytes, this`headers, this`bytes, this`cells
      modifies kernel`pages, kernel`tables, kernel.pmm`freeCount, kernel.pmm`hint, kernel.pmm.free
      ensures kernel.Pool() == old(kernel.Pool())
      ensures block != 0 <==> CanGrow(size, old(mappedBytes), |old(kernel.Pool())|, kernel.boot)
      ensures block == 0 ==>
                Inv({}) && cells == old(cells) && bytes == old(bytes) && kernel.pmm.Free() == old(kernel.pmm.Free())
      ensures block != 0 ==>
                Inv({|old(cells)| - 1}) && |cells| == |old(cells)| + 1 && cells[..|cells| - 1] == old(cells)
      ensures block != 0 ==> var c := cells[|cells| - 1]; c.free && c.addr == block && c.size >= size
      ensures block == 0 ==> mappedBytes == old(mappedBytes)
      ensures block != 0 ==> old(mappedBytes) + size + 32 <= mappedBytes < old(mappedBytes) + size + 32 + 0x1000
      ensures block != 0 ==> (mappedBytes - old(mappedBytes)) % 0x1000 == 0
      ensures block != 0 ==> cells == old(cells) + [GrownBlock(old(mappedBytes), mappedBytes)]
      ensures Kept(Used(old(cells)), old(bytes), bytes)
    {
      hide Tiles, Linked, FreePairsWithin, Used, Kept, KernelMap.Valid, KernelMap.Pool, FrameAllocator.Free, PageSet;
      hide Cost, Mapped;
      KeptExtended(cells, bytes, bytes, mappedBytes);
      PagesForBounds(size);
      if size > HEAP_MAXIMUM_BYTES - HEADER_BYTES {
        return 0;
      }
      var required := size + HEADER_BYTES;
      var pageCount := (required + PAGE_SIZE - 1) / PAGE_SIZE;
      var newBytes := pageCount * PAGE_SIZE;
      if newBytes > HEAP_MAXIMUM_BYTES - mappedBytes {
        return 0;
      }
      var address := HEAP_BASE + mappedBytes;
      PageSetSplit(HEAP_BASE, mappedBytes / PAGE_SIZE, pageCount);
      var ok := kernel.MapRun(address, pageCount);
      if !ok {
        return 0;
      }
      Append(newBytes - HEADER_BYTES);
      block := address;
    }

    /** The end of kmalloc: block i is cut if it is large enough and handed out. */
    method Take(block: nat, size: nat, ghost i: nat)
      requires Inv({i - 1}) && i < |cells| && cells[i].addr == block && cells[i].free
      requires size % HEAP_ALIGNMENT == 0 && 0 < size <= cells[i].size && activeAllocations == |Used(cells)|
      modifies this`last, this`headers, this`bytes, this`cells, this`activeAllocations
      ensures Valid() && Gained(old(Live()), Live(), block + HEADER_BYTES, size)
      ensures Kept(old(Live()), old(bytes), bytes) && cells == TakenCells(old(cells), i, size)
    {
      hide Tiles, Linked, FreePairsWithin, SplitCells, Used, Kept, Mapped, KernelMap.Valid, PageSet, AlignUp;
      hide TakenCells;
      AlignedAlready(size);
      TakenIs(cells, i, size);
      ghost var hi := HEAP_BASE + mappedBytes;
      LinkedAt(headers, cells, i);
      KeptExtended(cells, bytes, bytes, mappedBytes);
      TakePairs(cells, i);
      if headers[block].size >= size + HEADER_BYTES + HEAP_ALIGNMENT {
        SplitPairs(cells, i, size);
        SplitUsed(cells, i, size);
        SplitAt(cells, i, size);
        Split(block, size, i);
        LinkedAt(headers, cells, i);
      }
      ghost var b1 := bytes;
      FlagLinked(headers, cells, HEAP_BASE, hi, i, false);
      FlagUsed(cells, HEAP_BASE, hi, i);
      ghost var c := cells[i].(free := false);
      FreeIsNotUsed(cells, HEAP_BASE, hi, i, c);
      StoreHeader(block, headers[block].(free := false), i);
      KeptTrans(Used(cells), old(bytes), b1, bytes);
      cells := cells[i := c];
      activeAllocations := activeAllocations + 1;
      assert Payload(c) == block + HEADER_BYTES;
    }

    /** Whatever the heap holds, it has no block for more than the heap area. */
    lemma TooLarge(size: nat)
      requires Valid() && size > HEAP_MAXIMUM_BYTES
      ensures !CanAllocate(cells, mappedBytes, |kernel.Pool()|, size, kernel.boot)
    {
      hide Tiles, Linked, FreePairsWithin, Used, Mapped, KernelMap.Valid, KernelMap.Pool, PageSet, Cost;
      AlignUpBounds(size);
      if Fits(cells, AlignUp(size)) {
        FitsBound(cells, mappedBytes, AlignUp(size));
      }
    }

    /** kmalloc */
    method Allocate(size: nat) returns (p: nat)
      requires Valid() && size < W64
      modifies this, kernel`pages, kernel`tables, kernel.pmm`freeCount, kernel.pmm`hint, kernel.pmm.free
      ensures Valid() && initialized == old(initialized) && kernel.Pool() == old(kernel.Pool())
      ensures p == 0 ==> Live() == old(Live()) && bytes == old(bytes) && kernel.pmm.Free() == old(kernel.pmm.Free())
      ensures p == 0 ==> cells == old(cells) && mappedBytes == old(mappedBytes)
      ensures p != 0 ==> Gained(old(Live()), Live(), p, size) && Kept(old(Live()), old(bytes), bytes)
      ensures p != 0 ==> Placed(old(cells), old(mappedBytes), cells, mappedBytes, p, size)
      ensures p != 0 <==>
                initialized && CanAllocate(old(cells), old(mappedBytes), |old(kernel.Pool())|, size, kernel.boot)
    {
      hide Tiles, Linked, FreePairsWithin, Used, Kept, Mapped, KernelMap.Valid, KernelMap.Pool, PageSet;
      hide FrameAllocator.Free;
      hide AlignUp, Cost, Gained, TakenCells;
      AlignUpBounds(size);
      AlignedAlready(AlignUp(size));
      KeptExtended(cells, bytes, bytes, mappedBytes);
      if Fits(cells, AlignUp(size)) {
        FitsBound(cells, mappedBytes, AlignUp(size));
      }
      if !initialized || size == 0 || size > W64 - 1 - (HEAP_ALIGNMENT - 1) {
        return 0;
      }
      var aligned := AlignUp(size);
      var block, i := FindFree(aligned);
      PairsWiden(cells, {i - 1});
      if block == 0 {
        block := Grow(aligned);
        if block == 0 {
          return 0;
        }
        i := |cells| - 1;
        AppendUsed(old(cells), cells);
      }
      ghost var b1 := bytes;
      Take(block, aligned, i);
      KeptTrans(old(Live()), old(bytes), b1, bytes);
      p := block + HEADER_BYTES;
      GainedMore(old(Live()), Live(), p, size, aligned);
    }

    /** Two requests that fit into one page share it, one right behind the other. */
    method TwoInOnePage(a: nat, b: nat) returns (p: nat, q: nat)
      requires Valid() && initialized && Live() == {} && 0 < a && 0 < b && AlignUp(a) + AlignUp(b) + 64 <= 0x1000
      modifies this, kernel`pages, kernel`tables, kernel.pmm`freeCount, kernel.pmm`hint, kernel.pmm.free
      ensures Valid() && (p != 0 ==> p == HEAP_BASE + 32 && q == HEAP_BASE + 32 + AlignUp(a) + 32)
      ensures p != 0 ==> mappedBytes == 0x1000
    {
      hide Tiles, Linked, FreePairsWithin, Kept, Mapped, KernelMap.Valid, KernelMap.Pool, PageSet, Gained, CanGrow;
      hide FrameAllocator.Free, AlignUp, Placed, Fits;
      AlignUpBounds(a);
      AlignUpBounds(b);
      q := 0;
      Quiescent();
      p := Allocate(a);
      if p == 0 {
        return;
      }
      FirstInPage(cells, mappedBytes, p, a, b);
      ghost var before := cells;
      q := Allocate(b);
      if q != 0 {
        SecondInPage(before, cells, mappedBytes, q, a, b);
      }
    }

    /** merge_with_next on a free block. */
    method MergeWithNext(block: nat, ghost i: nat, ghost low: set<int>)
      requires Shape(first, last, mappedBytes, headers, cells, low + {i}) && Mapped(bytes, mappedBytes)
      requires i < |cells| && cells[i].addr == block && cells[i].free && forall j | j in low :: j < i
      modifies this`last, this`headers, this`bytes, this`cells
      ensures Shape(first, last, mappedBytes, headers, cells, low) && Mapped(bytes, mappedBytes)
      ensures i < |cells| && cells[..i] == old(cells)[..i] && cells[i].addr == block && cells[i].free
      ensures Used(cells) == Used(old(cells)) && Kept(Used(cells), old(bytes), bytes)
    {
      hide Tiles, Linked, FreePairsWithin, MergeCells, MergeHeaders, Used, Kept, Mapped;
      ghost var hi := HEAP_BASE + mappedBytes;
      AddrPositive(cells, HEAP_BASE, hi);
      KeptExtended(cells, bytes, bytes, mappedBytes);
      LinkedAt(headers, cells, i);
      if i + 1 < |cells| {
        LinkedAt(headers, cells, i + 1);
        Adjacent(cells, HEAP_BASE, hi, i);
      }
      var next := headers[block].next;
      if next == 0 || !headers[next].free || block + HEADER_BYTES + headers[block].size != next {
        NoPairAt(cells, i, low);
        return;
      }
      MergePairsBelow(cells, i, low);
      Merge(block, next, i);
    }

    /** The writes of merge_with_next. */
    method Merge(block: nat, next: nat, ghost i: nat)
      requires Tiles(cells, HEAP_BASE, HEAP_BASE + mappedBytes) && Linked(headers, cells) && Ends(first, last, cells)
      requires Mapped(bytes, mappedBytes) && i + 1 < |cells| && cells[i].addr == block && cells[i + 1].addr == next
      requires cells[i].free && cells[i + 1].free
      modifies this`last, this`headers, this`bytes, this`cells
      ensures Tiles(cells, HEAP_BASE, HEAP_BASE + mappedBytes) && Linked(headers, cells) && Ends(first, last, cells)
      ensures Mapped(bytes, mappedBytes) && cells == MergeCells(old(cells), i)
      ensures i < |cells| && cells[..i] == old(cells)[..i] && cells[i].addr == block && cells[i].free
      ensures Used(cells) == Used(old(cells)) && Kept(Used(cells), old(bytes), bytes)
    {
      hide Tiles, Linked, FreePairsWithin, MergeCells, Used, Kept, Mapped;
      ghost var hi := HEAP_BASE + mappedBytes;
      AddrPositive(cells, HEAP_BASE, hi);
      AddrDistinct(cells, HEAP_BASE, hi);
      MergeTiles(cells, HEAP_BASE, hi, i);
      MergeLinked(headers, cells, HEAP_BASE, hi, i);
      MergeAt(cells, i);
      MergeUsed(cells, i);
      LinkedAt(headers, cells, i);
      LinkedAt(headers, cells, i + 1);
      var n := headers[next];
      StoreHeader(block,
          Header(headers[block].size + HEADER_BYTES + n.size, headers[block].previous, n.next, headers[block].free), i);
      ghost var b1 := bytes;
      if n.next != 0 {
        LinkedAt(old(headers), cells, i + 2);
        StoreHeader(n.next, headers[n.next].(previous := block), i + 2);
        KeptTrans(Used(cells), old(bytes), b1, bytes);
      } else {
        last := block;
      }
      assert headers == MergeHeaders(old(headers), block);
      cells := MergeCells(cells, i);
      assert cells[..i] == old(cells)[..i];
    }

    /** The list half of reclaim_trailing_block. */
    method DropLast()
      requires Shape(first, last, mappedBytes, headers, cells, {}) && Mapped(bytes, mappedBytes)
      requires cells != [] && cells[|cells| - 1].free && last % PAGE_SIZE == 0
      modifies this`first, this`last, this`mappedBytes, this`headers, this`bytes, this`cells
      ensures Shape(first, last, mappedBytes, headers, cells, {}) && Mapped(bytes, mappedBytes)
      ensures cells == old(cells)[..|old(cells)| - 1] && mappedBytes == old(last) - HEAP_BASE
      ensures Used(cells) == Used(old(cells)) && Kept(Used(cells), old(bytes), bytes)
    {
      hide Tiles, Linked, FreePairsWithin, Used, Kept, Mapped;
      ghost var n, hi := |cells| - 1, HEAP_BASE + mappedBytes;
      InBounds(cells, HEAP_BASE, hi, n);
      DropLastTiles(cells, HEAP_BASE, hi);
      DropLastLinked(headers, cells, HEAP_BASE, hi);
      DropLastUsed(cells);
      AddrPositive(cells, HEAP_BASE, hi);
      LinkedAt(headers, cells, n);
      var gone := last;
      var previous := headers[last].previous;
      cells := cells[..n];
      Discard(gone - HEAP_BASE);
      ghost var b1 := bytes;
      last := previous;
      if last != 0 {
        StoreHeader(last, headers[last].(next := 0), n - 1);
        KeptTrans(Used(cells), old(bytes), b1, bytes);
      } else {
        first := 0;
      }
    }

    /** Unmapped memory is gone. */
    method Discard(left: nat)
      requires Tiles(cells, HEAP_BASE, HEAP_BASE + left) && Mapped(bytes, mappedBytes) && left <= mappedBytes
      modifies this`mappedBytes, this`bytes
      ensures mappedBytes == left && Mapped(bytes, mappedBytes) && Kept(Used(cells), old(bytes), bytes)
    {
      hide Tiles, Used, Kept;
      bytes := map x: nat | x in bytes && x < HEAP_BASE + left :: bytes[x];
      mappedBytes := left;
      KeptShrunk(cells, old(bytes), bytes, left);
    }

    /** reclaim_trailing_block: a free, page-aligned last block is unmapped. */
    method ReclaimTrailing()
      requires Inv({})
      modifies this`first, this`last, this`mappedBytes, this`headers, this`bytes, this`cells
      modifies kernel`pages, kernel`tables, kernel.pmm`freeCount, kernel.pmm`hint, kernel.pmm.free
      ensures Inv({}) && kernel.Pool() == old(kernel.Pool())
      ensures Used(cells) == Used(old(cells)) && Kept(Used(cells), old(bytes), bytes)
      ensures |old(cells)| <= 1 && (old(cells) != [] ==> old(cells)[0].free) ==> cells == []
      ensures cells == Trimmed(old(cells))
    {
      hide Tiles, Linked, FreePairsWithin, Used, Kept, Mapped, KernelMap.Valid, KernelMap.Pool, PageSet;
      ghost var n, hi := |cells| - 1, HEAP_BASE + mappedBytes;
      KeptExtended(cells, bytes, bytes, mappedBytes);
      AddrPositive(cells, HEAP_BASE, hi);
      if cells != [] {
        LastFacts(cells, HEAP_BASE, hi);
        LinkedAt(headers, cells, n);
        TrailingPages(last, headers[last].size, mappedBytes);
      }
      if last == 0 || !headers[last].free || last % PAGE_SIZE != 0
          || (HEADER_BYTES + headers[last].size) % PAGE_SIZE != 0
        || last + HEADER_BYTES + headers[last].size != HEAP_BASE + mappedBytes
      {
        return;
      }
      var count := (HEADER_BYTES + headers[last].size) / PAGE_SIZE;
      PageSetSplit(HEAP_BASE, (last - HEAP_BASE) / PAGE_SIZE, count);
      kernel.UnmapRun(last, count);
      DropLast();
    }

    /** The body of kfree once the block is found. */
    method Release(block: nat, ghost i: nat)
      requires Valid() && i < |cells| && cells[i].addr == block && !cells[i].free
      modifies this`first, this`last, this`mappedBytes, this`headers, this`bytes, this`cells, this`activeAllocations
      modifies kernel`pages, kernel`tables, kernel.pmm`freeCount, kernel.pmm`hint, kernel.pmm.free
      ensures Valid() && kernel.Pool() == old(kernel.Pool())
      ensures Live() == old(Live()) - {old(cells)[i]} && Kept(Live(), old(bytes), bytes)
      ensures PagesKept(Live(), old(mappedBytes), mappedBytes)
    {
      hide Tiles, Linked, FreePairsWithin, Used, Kept, Mapped, KernelMap.Valid, KernelMap.Pool, PageSet, Trimmed;
      hide PagesKept;
      ghost var c := cells[i];
      FreeOrUsed(cells, i);
      activeAllocations := activeAllocations - 1;
      MarkFree(block, i);
      ghost var b1, live := bytes, Used(cells);
      MergeWithNext(block, i, {i - 1});
      KeptTrans(live, old(bytes), b1, bytes);
      ghost var b2 := bytes;
      LinkedAt(headers, cells, i);
      MergeIntoPrevious(block, i);
      KeptTrans(live, old(bytes), b2, bytes);
      ghost var b3 := bytes;
      if |live| == 0 {
        NothingLive(cells);
      }
      ghost var merged, before := cells, mappedBytes;
      ReclaimTrailing();
      KeptTrans(live, old(bytes), b3, bytes);
      TrimmedPages(merged, cells, before, mappedBytes);
    }

    /** block->free = true. */
    method MarkFree(block: nat, ghost i: nat)
      requires Shape(first, last, mappedBytes, headers, cells, {}) && Mapped(bytes, mappedBytes)
      requires i < |cells| && cells[i].addr == block && !cells[i].free
      modifies this`headers, this`bytes, this`cells
      ensures Shape(first, last, mappedBytes, headers, cells, {i - 1} + {i}) && Mapped(bytes, mappedBytes)
      ensures i < |cells| && cells[i].addr == block && cells[i].free
      ensures Used(cells) == Used(old(cells)) - {old(cells)[i]} && Kept(Used(cells), old(bytes), bytes)
    {
      hide Tiles, Linked, FreePairsWithin, Used, Mapped;
      ghost var hi := HEAP_BASE + mappedBytes;
      ReleasePairs(cells, i);
      FlagLinked(headers, cells, HEAP_BASE, hi, i, true);
      FlagUsed(cells, HEAP_BASE, hi, i);
      LinkedAt(headers, cells, i);
      StoreHeader(block, headers[block].(free := true), i);
      cells := cells[i := cells[i].(free := true)];
    }

    /** The second merge of kfree. */
    method MergeIntoPrevious(block: nat, ghost i: nat)
      requires Shape(first, last, mappedBytes, headers, cells, {i - 1}) && Mapped(bytes, mappedBytes)
      requires i < |cells| && cells[i].addr == block && cells[i].free
      modifies this`last, this`headers, this`bytes, this`cells
      ensures Shape(first, last, mappedBytes, headers, cells, {}) && Mapped(bytes, mappedBytes)
      ensures Used(cells) == Used(old(cells)) && Kept(Used(cells), old(bytes), bytes)
    {
      hide Tiles, Linked, FreePairsWithin, Used, Kept, Mapped;
      KeptExtended(cells, bytes, bytes, mappedBytes);
      AddrPositive(cells, HEAP_BASE, HEAP_BASE + mappedBytes);
      LinkedAt(headers, cells, i);
      if i > 0 {
        LinkedAt(headers, cells, i - 1);
      }
      var previous := headers[block].previous;
      if previous != 0 && headers[previous].free {
        assert {} + {i - 1} == {i - 1};
        MergeWithNext(previous, i - 1, {});
      } else {
        NoPairBefore(cells, i);
      }
    }

    /** The checks with which kfree and krealloc recognise a live pointer. */
    method FindLive(p: nat) returns (block: nat, ghost i: nat)
      requires Valid()
      ensures block != 0 <==> initialized && LiveAt(Live(), p)
      ensures block != 0 ==>
                i < |cells| && cells[i].addr == block && !cells[i].free && cells[i] in Live() && Payload(cells[i]) == p
      ensures block != 0 ==> block in headers && headers[block].size == cells[i].size
    {
      hide Tiles, Linked, FreePairsWithin, Used, Mapped, KernelMap.Valid, PageSet, LiveAt;
      ghost var hi := HEAP_BASE + mappedBytes;
      LiveAtBounds(cells, HEAP_BASE, hi, p);
      i := 0;
      if !initialized || p == 0 || mappedBytes == 0 || p < HEAP_BASE + HEADER_BYTES || p >= HEAP_BASE + mappedBytes {
        return 0, i;
      }
      block, i := FindBlock(p - HEADER_BYTES);
      if block == 0 {
        NotLive(cells, HEAP_BASE, hi, p);
        return;
      }
      LinkedAt(headers, cells, i);
      OnlyBlockAt(cells, HEAP_BASE, hi, i);
      FreeOrUsed(cells, i);
      if headers[block].free {
        NotLive(cells, HEAP_BASE, hi, p);
        return 0, i;
      }
      IsLive(cells, i);
    }

    /** kfree: succeeds exactly on live pointers. */
    method Free(p: nat) returns (ok: bool)
      requires Valid()
      modifies this`first, this`last, this`mappedBytes, this`headers, this`bytes, this`cells, this`activeAllocations
      modifies kernel`pages, kernel`tables, kernel.pmm`freeCount, kernel.pmm`hint, kernel.pmm.free
      ensures Valid() && kernel.Pool() == old(kernel.Pool())
      ensures ok <==> initialized && LiveAt(old(Live()), p)
      ensures ok ==> Lost(old(Live()), Live(), p) && Kept(Live(), old(bytes), bytes)
      ensures ok ==> PagesKept(Live(), old(mappedBytes), mappedBytes)
      ensures !ok ==>
                Live() == old(Live()) && bytes == old(bytes) && cells == old(cells) && mappedBytes == old(mappedBytes)
    {
      hide KernelHeap.Inv, Used, Kept, LiveAt, Lost, KernelMap.Pool, PagesKept;
      var block, i := FindLive(p);
      if block == 0 || activeAllocations == 0 {
        return false;
      }
      Release(block, i);
      IsLost(old(Live()), old(cells)[i]);
      return true;
    }

    /** The copy loop of krealloc, between ranges that do not overlap. */
    method CopyBytes(from: nat, to: nat, count: nat)
      requires forall x: nat | from <= x < from + count || to <= x < to + count :: x in bytes
      requires from + count <= to || to + count <= from
      modifies this`bytes
      ensures bytes.Keys == old(bytes).Keys
                && forall x | x in bytes && !(to <= x < to + count) :: bytes[x] == old(bytes)[x]
      ensures Copied(old(bytes), from, bytes, to, count)
    {
      for k := 0 to count
        invariant bytes.Keys == old(bytes).Keys
        invariant forall x | x in bytes && !(to <= x < to + k) :: bytes[x] == old(bytes)[x]
        invariant Copied(old(bytes), from, bytes, to, k)
      {
        bytes := bytes[to + k := bytes[from + k]];
      }
    }

    /** Copying between live blocks touches no third one. */
    method Copy(from: nat, to: nat, count: nat, ghost c: Cell, ghost d: Cell)
      requires Valid() && c in Live() && d in Live() && c != d && Payload(c) == from && Payload(d) == to
      requires count <= c.size && count <= d.size
      modifies this`bytes
      ensures Valid() && Kept(Live() - {d}, old(bytes), bytes)
      ensures Copied(old(bytes), from, bytes, to, count)
    {
      hide Tiles, Linked, FreePairsWithin, Used, KernelMap.Valid, PageSet, Copied;
      LiveBlocks(cells, HEAP_BASE, HEAP_BASE + mappedBytes, c, d);
      LiveBlocks(cells, HEAP_BASE, HEAP_BASE + mappedBytes, d, c);
      CopyBytes(from, to, count);
      CopyKeeps(cells, mappedBytes, d, count, old(bytes), bytes);
    }

    lemma Tiled()
      requires Valid()
      ensures Tiles(cells, HEAP_BASE, HEAP_BASE + mappedBytes) && Mapped(bytes, mappedBytes)
    {
      hide Tiles, Mapped, Linked, FreePairsWithin;
    }

    /** The growing case of krealloc: allocate, copy, free. */
    method Move(p: nat, newSize: nat, oldSize: nat, ghost c: Cell) returns (q: nat)
      requires Valid() && initialized && oldSize < newSize < W64 && c in Live() && Payload(c) == p && c.size == oldSize
      modifies this, kernel`pages, kernel`tables, kernel.pmm`freeCount, kernel.pmm`hint, kernel.pmm.free
      ensures Valid() && kernel.Pool() == old(kernel.Pool())
      ensures q != 0 <==> CanAllocate(old(cells), old(mappedBytes), |old(kernel.Pool())|, newSize, kernel.boot)
      ensures q == 0 ==> Live() == old(Live()) && bytes == old(bytes)
      ensures q != 0 ==> Moved(old(Live()), Live(), p, q, newSize, old(bytes), bytes)
      ensures q != 0 ==> Kept(Live() * old(Live()), old(bytes), bytes)
    {
      hide KernelHeap.Valid, KernelHeap.Live, Kept, Tiles, Copied, KernelMap.Pool, Lost, MovedTo, LiveAt, AlignUp;
      hide Placed, PagesKept;
      q := Allocate(newSize);
      if q == 0 {
        return;
      }
      ghost var before, b1 := old(Live()), bytes;
      ghost var d :| d !in before && Live() == before + {d} && Payload(d) == q
                     && newSize <= d.size < AlignUp(newSize) + 48 && !d.free;
      Copy(p, q, oldSize, c, d);
      ghost var b2 := bytes;
      LiveHere(c);
      UniqueHere(c);
      var freed := Free(p);
      assert Live() == before + {d} - {c};
      MoveSummary(before, c, d, newSize, old(bytes), b1, b2, bytes);
    }

    lemma LiveHere(c: Cell)
      requires c in Live()
      ensures LiveAt(Live(), Payload(c))
    {
    }

    lemma UniqueHere(c: Cell)
      requires Valid() && c in Live()
      ensures forall live' | Lost(Live(), live', Payload(c)) :: live' == Live() - {c}
    {
      hide Used, Tiles;
      Tiled();
      forall live' | Lost(Live(), live', Payload(c))
        ensures live' == Live() - {c}
      {
        var e :| e in Live() && live' == Live() - {e} && Payload(e) == Payload(c);
        LiveBlocks(cells, HEAP_BASE, HEAP_BASE + mappedBytes, c, e);
      }
    }

    lemma RoomyIs(c: Cell, size: nat)
      requires Valid() && c in Live()
      ensures Roomy(Live(), Payload(c), size) <==> size <= c.size
    {
      hide Used, Tiles;
      Tiled();
      if e :| e in Live() && Payload(e) == Payload(c) && size <= e.size {
        LiveBlocks(cells, HEAP_BASE, HEAP_BASE + mappedBytes, c, e);
      }
    }

    lemma NothingAtZero(size: nat)
      ensures !Roomy(Live(), 0, size)
    {
    }

    /** krealloc */
    method Reallocate(p: nat, newSize: nat) returns (q: nat)
      requires Valid() && newSize < W64
      modifies this, kernel`pages, kernel`tables, kernel.pmm`freeCount, kernel.pmm`hint, kernel.pmm.free
      ensures Valid() && kernel.Pool() == old(kernel.Pool())
      ensures p == 0 && q != 0 ==> Gained(old(Live()), Live(), q, newSize)
      ensures q != 0 <==> old(initialized) && newSize > 0
                          && (p != 0 ==> LiveAt(old(Live()), p))
                          && (Roomy(old(Live()), p, newSize)
                              || CanAllocate(old(cells), old(mappedBytes), |old(kernel.Pool())|, newSize, kernel.boot))
      ensures p != 0 && newSize == 0 ==> q == 0
      ensures p != 0 && newSize == 0 && old(initialized) && LiveAt(old(Live()), p) ==> Lost(old(Live()), Live(), p)
      ensures q == 0 && !(p != 0 && newSize == 0 && LiveAt(old(Live()), p)) ==>
                Live() == old(Live()) && bytes == old(bytes)
      ensures p != 0 && q != 0 ==> Moved(old(Live()), Live(), p, q, newSize, old(bytes), bytes)
      ensures p != 0 && !LiveAt(old(Live()), p) ==> q == 0
      ensures p != 0 && newSize > 0 && old(initialized) && Roomy(old(Live()), p, newSize) ==>
                q == p && Live() == old(Live()) && bytes == old(bytes) && mappedBytes == old(mappedBytes)
      ensures Kept(Live() * old(Live()), old(bytes), bytes)
    {
      hide KernelHeap.Valid, KernelHeap.Live, Kept, Tiles, Copied, KernelMap.Pool, Lost, MovedTo, LiveAt, Gained;
      hide Mapped, Moved, Roomy, CanAllocate, Placed, PagesKept;
      CanAllocateNothing(cells, mappedBytes, |kernel.Pool()|, newSize, kernel.boot);
      Unchanged();
      NothingAtZero(newSize);
      RoomyLive(Live(), p, newSize);
      if p == 0 {
        q := Allocate(newSize);
        KeptBoth(old(Live()), Live(), old(bytes), bytes);
        return;
      }
      if newSize == 0 {
        var freed := Free(p);
        KeptBoth(Live(), old(Live()), old(bytes), bytes);
        return 0;
      }
      var block, i := FindLive(p);
      if block == 0 {
        return 0;
      }
      var oldSize := headers[block].size;
      RoomyIs(cells[i], newSize);
      if newSize <= oldSize {
        InPlace(cells[i], newSize);
        return p;
      }
      q := Move(p, newSize, oldSize, cells[i]);
    }

    lemma Unchanged()
      requires Valid()
      ensures Kept(Live(), bytes, bytes) && Live() * Live() == Live()
    {
      hide Used, Kept, Tiles, Mapped;
      Tiled();
      KeptExtended(cells, bytes, bytes, mappedBytes);
    }

    lemma InPlace(c: Cell, newSize: nat)
      requires Valid() && c in Live() && newSize <= c.size
      ensures Moved(Live(), Live(), Payload(c), Payload(c), newSize, bytes, bytes)
    {
      hide KernelHeap.Valid, KernelHeap.Live, Kept, Copied;
      Unchanged();
      KeptSubset(Live(), {c}, bytes, bytes);
      CopiedInPlace(c, newSize, bytes);
      assert MovedTo(Live(), Live(), Payload(c), Payload(c), newSize, bytes, bytes, c, c);
    }
  }
}
