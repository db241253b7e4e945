/**
 * The loader of static ELF64 binaries: which files it accepts, and the memory image it builds.
 */
module Elf {
  import opened Bytes
  import opened Options
  import opened PageTree
  import opened Pmm
  import opened Vmm
  import opened FrameBudget
  import opened UserSpace
  import opened UserStack
  import Words
  import Modular

  const PT_LOAD: nat := 1
  const PT_INTERP: nat := 3
  const USER_START: nat := 0x20_0000
  const USER_END: nat := 0x8000_0000_0000

  /** A program header; flags are split into the bits the loader looks at. */
  datatype Segment = Segment(kind: nat, writable: bool, executable: bool, offset: nat, vaddr: nat, filesz: nat,
      memsz: nat, align: nat)

  /** A little-endian field; fields outside the file read as zero. */
  function Field(data: seq<byte>, at: nat, n: nat): nat
  {
    if at + n <= |data| then LittleEndian(data[at..at + n]) else 0
  }

  function HeaderAt(data: seq<byte>, at: nat): Segment
  {
    var flags := Field(data, at + 4, 4);
    Segment(Field(data, at, 4), Words.Bit(flags, 1), Words.Bit(flags, 0), Field(data, at + 8, 8),
        Field(data, at + 16, 8),
            Field(data, at + 32, 8), Field(data, at + 40, 8), Field(data, at + 48, 8))
  }

  function Entry(data: seq<byte>): nat
  {
    Field(data, 24, 8)
  }

  predicate RangeIsValid(offset: nat, length: nat, size: nat)
  {
    offset <= size && length <= size - offset
  }

  /** The fixed fields of the file header. */
  predicate HeaderOk(data: seq<byte>)
  {
    && |data| >= 64 && data[..7] == [0x7f, 0x45, 0x4c, 0x46, 2, 1, 1]
    && Field(data, 16, 2) == 2 && Field(data, 18, 2) == 62 && Field(data, 20, 4) == 1
    && Field(data, 52, 2) == 64 && Field(data, 54, 2) == 56 && 0 < Field(data, 56, 2) <= 64
    && RangeIsValid(Field(data, 32, 8), 56 * Field(data, 56, 2), |data|)
    && USER_START <= Entry(data) < USER_END
  }

  /** The program headers, in order. */
  function Headers(data: seq<byte>, n: nat): (hs: seq<Segment>)
    ensures |hs| == n
  {
    seq(n, i requires 0 <= i => HeaderAt(data, Field(data, 32, 8) + 56 * i))
  }

  function Loadable(hs: seq<Segment>): seq<Segment>
  {
    if hs == [] then []
    else if hs[|hs| - 1].kind == PT_LOAD then Loadable(hs[..|hs| - 1]) + [hs[|hs| - 1]]
    else Loadable(hs[..|hs| - 1])
  }

  predicate IsPowerOfTwo(n: nat)
  {
    n != 0 && Words.And(n, n - 1) == 0
  }

  lemma PowerOfTwoIff(n: nat)
    ensures IsPowerOfTwo(n) <==> exists k: nat :: n == Words.Pow2(k)
  {
    hide Words.And;
    if n > 0 {
      Words.AndPredecessor(n);
    }
  }

  /** The checks on one loadable segment. */
  predicate SegmentOk(s: Segment, size: nat)
  {
    && s.filesz <= s.memsz && RangeIsValid(s.offset, s.filesz, size) && USER_START <= s.vaddr
    && (s.memsz > 0 ==> s.vaddr + s.memsz < USER_END)
    && (s.align > 1 ==> IsPowerOfTwo(s.align) && s.vaddr % s.align == s.offset % s.align)
  }

  /** What they come to: the file's bytes are there, the addresses are a user's, and both agree modulo the alignment. */
  lemma SegmentChecks(s: Segment, size: nat)
    ensures SegmentOk(s, size) <==>
              && s.filesz <= s.memsz && s.offset + s.filesz <= size && 0x20_0000 <= s.vaddr
              && (s.memsz > 0 ==> s.vaddr + s.memsz < 0x8000_0000_0000)
              && (s.align > 1 ==> (exists k: nat :: s.align == Words.Pow2(k)) && (s.vaddr - s.offset) % s.align == 0)
  {
    hide IsPowerOfTwo;
    PowerOfTwoIff(s.align);
    if s.align > 1 {
      SameRemainder(s.vaddr, s.offset, s.align);
    }
  }

  lemma SameRemainder(x: nat, y: nat, m: nat)
    requires m > 0
    ensures x % m == y % m <==> (x - y) % m == 0
  {
    var q, r := x / m - y / m, x % m - y % m;
    assert x - y == m * q + r by { Modular.Distribute(x / m, -(y / m), m); }
    if r >= 0 {
      Modular.ModUnique(x - y, m, q, r);
    } else {
      assert m * (q - 1) == m * q - m by { Modular.Distribute(q, -1, m); }
      Modular.ModUnique(x - y, m, q - 1, r + m);
    }
  }

  predicate Overlap(s: Segment, t: Segment)
  {
    var start := if s.vaddr > t.vaddr then s.vaddr else t.vaddr;
    var end := if s.vaddr + s.memsz < t.vaddr + t.memsz then s.vaddr + s.memsz else t.vaddr + t.memsz;
    start < end
  }

  predicate Covers(s: Segment, va: nat)
  {
    s.vaddr <= va < s.vaddr + s.memsz
  }

  /** Two segments overlap exactly if an address lies in both. */
  lemma OverlapIff(s: Segment, t: Segment)
    ensures Overlap(s, t) <==> exists va: nat :: Covers(s, va) && Covers(t, va)
  {
    if Overlap(s, t) {
      var va := if s.vaddr > t.vaddr then s.vaddr else t.vaddr;
      assert Covers(s, va) && Covers(t, va);
    }
  }

  predicate Disjoint(segs: seq<Segment>)
  {
    forall i, j | 0 <= i < j < |segs| :: !Overlap(segs[i], segs[j])
  }

  predicate EntryInside(segs: seq<Segment>, entry: nat)
  {
    exists i :: 0 <= i < |segs| && segs[i].executable && segs[i].vaddr <= entry < segs[i].vaddr + segs[i].memsz
  }

  function Segments(data: seq<byte>): seq<Segment>
  {
    Loadable(Headers(data, Field(data, 56, 2)))
  }

  /** Everything elf_load_binary checks before it maps a page. */
  predicate Accepts(data: seq<byte>)
  {
    && HeaderOk(data)
    && (forall i | 0 <= i < Field(data, 56, 2) :: Headers(data, Field(data, 56, 2))[i].kind != PT_INTERP)
    && (forall i | 0 <= i < |Segments(data)| :: SegmentOk(Segments(data)[i], |data|))
    && Segments(data) != [] && Disjoint(Segments(data)) && EntryInside(Segments(data), Entry(data))
  }

  // ------------------------------------------------------------ the image a file prescribes

  /** An address that gets a byte of the file. */
  predicate InFile(s: Segment, va: nat)
  {
    s.vaddr <= va < s.vaddr + s.filesz
  }

  function FileByte(s: Segment, data: seq<byte>, va: nat): byte
  {
    if InFile(s, va) && s.offset + (va - s.vaddr) < |data| then data[s.offset + (va - s.vaddr)] else 0
  }

  /** What memory holds once these segments are loaded: file bytes, and zeros elsewhere. */
  function ImageByte(segs: seq<Segment>, data: seq<byte>, va: nat): byte
  {
    if segs == [] then 0
    else
      var s := segs[|segs| - 1];
      if InFile(s, va) then FileByte(s, data, va) else ImageByte(segs[..|segs| - 1], data, va)
  }

  function FirstPage(s: Segment): nat
  {
    s.vaddr / PAGE_SIZE
  }

  function EndPage(s: Segment): nat
  {
    (s.vaddr + s.memsz + PAGE_SIZE - 1) / PAGE_SIZE
  }

  predicate Touches(s: Segment, vpn: nat)
  {
    s.memsz > 0 && FirstPage(s) <= vpn < EndPage(s)
  }

  predicate Touched(segs: seq<Segment>, vpn: nat)
  {
    exists i :: 0 <= i < |segs| && Touches(segs[i], vpn)
  }

  ghost function SegmentPages(s: Segment): set<nat>
  {
    if s.memsz > 0 then Range(FirstPage(s), EndPage(s)) else {}
  }

  /** All pages of a list of segments; a page that several of them touch counts once. */
  ghost function TouchedPages(segs: seq<Segment>): set<nat>
  {
    if segs == [] then {} else TouchedPages(segs[..|segs| - 1]) + SegmentPages(segs[|segs| - 1])
  }

  lemma {:induction false} TouchedPagesIs(segs: seq<Segment>, vpn: nat)
    ensures vpn in TouchedPages(segs) <==> Touched(segs, vpn)
  {
    hide Touches;
    if segs != [] {
      var init, s := segs[..|segs| - 1], segs[|segs| - 1];
      TouchedPagesIs(init, vpn);
      TouchedSnoc(init, s, vpn);
      assert init + [s] == segs;
      assert vpn in SegmentPages(s) <==> Touches(s, vpn) by {
        InSegmentPages(s, vpn);
      }
    }
  }

  lemma InSegmentPages(s: Segment, vpn: nat)
    ensures vpn in SegmentPages(s) <==> Touches(s, vpn)
  {
  }

  lemma {:induction false} TouchedPagesGrow(segs: seq<Segment>, i: nat)
    requires i <= |segs|
    ensures TouchedPages(segs[..i]) <= TouchedPages(segs)
    decreases |segs|
  {
    hide SegmentPages;
    if i < |segs| {
      assert segs[..|segs| - 1][..i] == segs[..i];
      TouchedPagesGrow(segs[..|segs| - 1], i);
    } else {
      assert segs[..i] == segs;
    }
  }

  lemma TouchedPagesNext(segs: seq<Segment>, i: nat)
    requires i < |segs|
    ensures TouchedPages(segs[..i + 1]) == TouchedPages(segs[..i]) + SegmentPages(segs[i])
    ensures TouchedPages(segs[..i + 1]) <= TouchedPages(segs)
    ensures TouchedPages([]) == {}
  {
    hide SegmentPages;
    assert segs[..i + 1][..i] == segs[..i];
    TouchedPagesGrow(segs, i + 1);
  }

  // ------------------------------------------------------------ permissions

  /** The permissions a segment asks for. */
  function FlagsOf(s: Segment): Flags
  {
    Flags(s.writable, true, !s.executable, false)
  }

  /** The first segment, in file order, that touches a page. */
  function FirstTouching(segs: seq<Segment>, vpn: nat): (k: nat)
    requires Touched(segs, vpn)
    ensures k < |segs| && Touches(segs[k], vpn) && forall j | 0 <= j < k :: !Touches(segs[j], vpn)
  {
    var init := segs[..|segs| - 1];
    if Touched(init, vpn) then FirstTouching(init, vpn) else |segs| - 1
  }

  /** Every mapped page has the permissions of the first segment that touches it. */
  ghost predicate Permitted(view: View, r: nat, segs: seq<Segment>)
  {
    forall p | p in view && p.root == r :: HasFlags(view[p], segs, p.vpn)
  }

  ghost predicate HasFlags(leaf: Leaf, segs: seq<Segment>, vpn: nat)
  {
    Touched(segs, vpn) && leaf == LeafFor(leaf.frame, FlagsOf(segs[FirstTouching(segs, vpn)]))
  }

  lemma {:induction false} FirstTouchingSnoc(segs: seq<Segment>, s: Segment, vpn: nat)
    requires Touched(segs + [s], vpn)
    ensures (segs + [s])[FirstTouching(segs + [s], vpn)] ==
              if Touched(segs, vpn) then segs[FirstTouching(segs, vpn)] else s
  {
    hide Touches;
    assert (segs + [s])[..|segs|] == segs;
  }

  /** Segments that come later do not change what a page has. */
  lemma {:induction false} PermittedMore(view: View, r: nat, segs: seq<Segment>, s: Segment)
    requires Permitted(view, r, segs)
    ensures Permitted(view, r, segs + [s])
  {
    hide Touches, Touched, FirstTouching;
    forall p | p in view && p.root == r
      ensures HasFlags(view[p], segs + [s], p.vpn)
    {
      assert HasFlags(view[p], segs, p.vpn);
      TouchedSnoc(segs, s, p.vpn);
      FirstTouchingSnoc(segs, s, p.vpn);
    }
  }

  /** A page mapped for s has what s asks for, as no earlier segment touches it. */
  lemma {:induction false} PermittedAdd(view: View, view': View, r: nat, segs: seq<Segment>, s: Segment, vpn: nat,
                                        frame: nat)
    requires Permitted(view, r, segs + [s]) && !Touched(segs, vpn) && Touches(s, vpn)
    requires Added(view, view', Page(r, vpn), LeafFor(frame, FlagsOf(s)))
    ensures Permitted(view', r, segs + [s])
  {
    hide Touches, Touched, FirstTouching;
    TouchedSnoc(segs, s, vpn);
    FirstTouchingSnoc(segs, s, vpn);
    forall p | p in view' && p.root == r
      ensures HasFlags(view'[p], segs + [s], p.vpn)
    {
      if p != Page(r, vpn) {
        assert HasFlags(view[p], segs + [s], p.vpn);
      }
    }
  }

  /** On every page of every segment the first segment there asks for the same permissions. */
  ghost predicate AsAsked(segs: seq<Segment>)
  {
    forall i, vpn: nat | 0 <= i < |segs| && Touches(segs[i], vpn) :: Touched(segs, vpn)
        && FlagsOf(segs[FirstTouching(segs, vpn)]) == FlagsOf(segs[i])
  }

  /** Segments that share a page ask for the same permissions. */
  ghost predicate Agree(segs: seq<Segment>)
  {
    forall i, j, vpn: nat | 0 <= i < j < |segs| && Touches(segs[i], vpn) && Touches(segs[j], vpn) ::
        FlagsOf(segs[i]) == FlagsOf(segs[j])
  }

  lemma {:induction false} AsAskedIff(segs: seq<Segment>)
    ensures AsAsked(segs) <==> Agree(segs)
  {
    hide Touches, FlagsOf;
    if Agree(segs) {
      forall i, vpn: nat | 0 <= i < |segs| && Touches(segs[i], vpn)
        ensures Touched(segs, vpn) && FlagsOf(segs[FirstTouching(segs, vpn)]) == FlagsOf(segs[i])
      {
        assert FirstTouching(segs, vpn) <= i;
      }
    }
    if AsAsked(segs) {
      forall i, j, vpn: nat | 0 <= i < j < |segs| && Touches(segs[i], vpn) && Touches(segs[j], vpn)
        ensures FlagsOf(segs[i]) == FlagsOf(segs[j])
      {
        assert FlagsOf(segs[FirstTouching(segs, vpn)]) == FlagsOf(segs[i])
            && FlagsOf(segs[FirstTouching(segs, vpn)]) == FlagsOf(segs[j]);
      }
    }
  }

  lemma FileIsTouched(s: Segment, va: nat)
    requires InFile(s, va) && s.filesz <= s.memsz
    ensures Touches(s, va / PAGE_SIZE)
  {
  }

  /** Pages no segment touches are zero in the image. */
  lemma {:induction false} UntouchedIsZero(segs: seq<Segment>, data: seq<byte>, va: nat)
    requires forall i | 0 <= i < |segs| :: segs[i].filesz <= segs[i].memsz
    ensures !Touched(segs, va / PAGE_SIZE) ==> ImageByte(segs, data, va) == 0
  {
    hide Touches;
    if segs != [] {
      var init, s := segs[..|segs| - 1], segs[|segs| - 1];
      UntouchedIsZero(init, data, va);
      if InFile(s, va) {
        FileIsTouched(s, va);
      }
      assert Touched(init, va / PAGE_SIZE) ==> Touched(segs, va / PAGE_SIZE);
    }
  }

  /** Within a segment of an accepted file: the file's bytes, then zeros, whatever pages it shares with others. */
  lemma {:induction false} ImageOfSegment(segs: seq<Segment>, data: seq<byte>, i: nat, va: nat)
    requires i < |segs| && Disjoint(segs) && (forall j | 0 <= j < |segs| :: SegmentOk(segs[j], |data|))
    requires segs[i].vaddr <= va < segs[i].vaddr + segs[i].memsz
    ensures ImageByte(segs, data, va) == if va < segs[i].vaddr + segs[i].filesz then FileByte(segs[i], data, va) else 0
  {
    hide IsPowerOfTwo;
    var init, s := segs[..|segs| - 1], segs[|segs| - 1];
    if i < |segs| - 1 {
      assert !Overlap(segs[i], s);
      ImageOfSegment(init, data, i, va);
    } else {
      NothingElse(init, data, s, va);
    }
  }

  lemma {:induction false} NothingElse(segs: seq<Segment>, data: seq<byte>, s: Segment, va: nat)
    requires (forall j | 0 <= j < |segs| :: !Overlap(segs[j], s) && segs[j].filesz <= segs[j].memsz)
    requires s.vaddr <= va < s.vaddr + s.memsz
    ensures ImageByte(segs, data, va) == 0
  {
    if segs != [] {
      NothingElse(segs[..|segs| - 1], data, s, va);
      assert !Overlap(segs[|segs| - 1], s);
    }
  }

  // ------------------------------------------------------------ loading

  /** Memory is the image of these segments, on exactly the pages they touch. */
  ghost predicate Loaded(view: View, r: nat, ram: Ram, segs: seq<Segment>, data: seq<byte>)
  {
    forall va: nat :: ByteAt(view, r, ram, va) ==
        if Touched(segs, va / PAGE_SIZE) then Some(ImageByte(segs, data, va)) else None
  }

  /** The same with the pages of a further segment loaded up to page `next`. */
  ghost predicate Loading(view: View, r: nat, ram: Ram, segs: seq<Segment>, s: Segment, data: seq<byte>, next: nat)
  {
    forall va: nat :: ByteAt(view, r, ram, va) ==
      if FirstPage(s) <= va / PAGE_SIZE < next then Some(ImageByte(segs + [s], data, va))
      else if Touched(segs, va / PAGE_SIZE) then Some(ImageByte(segs, data, va))
      else None
  }

  lemma StartLoading(view: View, r: nat, ram: Ram, segs: seq<Segment>, s: Segment, data: seq<byte>)
    requires Loaded(view, r, ram, segs, data)
    ensures Loading(view, r, ram, segs, s, data, FirstPage(s))
  {
    hide Touched, ImageByte, ByteAt;
  }

  lemma EndLoading(view: View, r: nat, ram: Ram, segs: seq<Segment>, s: Segment, data: seq<byte>)
    requires Loading(view, r, ram, segs, s, data, EndPage(s)) && s.filesz <= s.memsz && s.memsz > 0
    ensures Loaded(view, r, ram, segs + [s], data)
  {
    hide ByteAt, Touched, ImageByte;
    forall va: nat
      ensures ByteAt(view, r, ram, va) ==
                if Touched(segs + [s], va / PAGE_SIZE) then Some(ImageByte(segs + [s], data, va)) else None
    {
      TouchedSnoc(segs, s, va / PAGE_SIZE);
      ImageSnoc(segs, s, data, va);
      if InFile(s, va) {
        FileIsTouched(s, va);
      }
    }
  }

  lemma TouchedSnoc(segs: seq<Segment>, s: Segment, vpn: nat)
    ensures Touched(segs + [s], vpn) <==> Touched(segs, vpn) || Touches(s, vpn)
  {
    var longer := segs + [s];
    assert longer[|segs|] == s;
    if i :| 0 <= i < |segs| && Touches(segs[i], vpn) {
      assert longer[i] == segs[i];
    }
  }

  lemma ImageSnoc(segs: seq<Segment>, s: Segment, data: seq<byte>, va: nat)
    ensures ImageByte(segs + [s], data, va) ==
              if InFile(s, va) then FileByte(s, data, va) else ImageByte(segs, data, va)
  {
    var longer := segs + [s];
    assert longer[..|longer| - 1] == segs;
  }

  /** A segment without memory changes nothing. */
  lemma EmptySegment(view: View, r: nat, ram: Ram, segs: seq<Segment>, s: Segment, data: seq<byte>)
    requires Loaded(view, r, ram, segs, data) && s.filesz <= s.memsz == 0
    ensures Loaded(view, r, ram, segs + [s], data)
  {
    hide ByteAt, Touched, ImageByte;
    forall va: nat
      ensures ByteAt(view, r, ram, va) ==
                if Touched(segs + [s], va / PAGE_SIZE) then Some(ImageByte(segs + [s], data, va)) else None
    {
      TouchedSnoc(segs, s, va / PAGE_SIZE);
      ImageSnoc(segs, s, data, va);
    }
  }

  /** The part of the file that falls on the page at `page`. */
  function CopyStart(s: Segment, page: nat): nat
  {
    if s.vaddr > page then s.vaddr else page
  }

  function CopyEnd(s: Segment, page: nat): nat
  {
    if s.vaddr + s.filesz < page + PAGE_SIZE then s.vaddr + s.filesz else page + PAGE_SIZE
  }

  /** Loading one page: mapped already or zeroed, then overlaid with the file. */
  lemma PageStep(view: View, ram: Ram, view1: View, ram1: Ram, ram2: Ram, r: nat, segs: seq<Segment>, s: Segment,
                 data: seq<byte>, vpn: nat, bytes: seq<byte>)
    requires Loading(view, r, ram, segs, s, data, vpn) && FirstPage(s) <= vpn && SegmentOk(s, |data|)
    requires forall i | 0 <= i < |segs| :: segs[i].filesz <= segs[i].memsz
    requires if Page(r, vpn) in view then view1 == view
              && ram1 == ram else Rewritten(view, ram, view1, ram1, r, vpn, ZeroPage())
    requires forall va: nat | va / PAGE_SIZE == vpn :: ByteAt(view, r, ram, va).Some? <==> Page(r, vpn) in view
    requires var start, end := CopyStart(s, vpn * PAGE_SIZE), CopyEnd(s, vpn * PAGE_SIZE);
             if start < end then Stored(view1, ram1, ram2, r, start, bytes)
                 && bytes == FileBytes(s, data, start, end) else ram2 == ram1
    ensures Loading(view1, r, ram2, segs, s, data, vpn + 1)
  {
    hide ImageByte, Touched, IsPowerOfTwo, ByteAt;
    forall va: nat
      ensures ByteAt(view1, r, ram2, va) ==
              if FirstPage(s) <= va / PAGE_SIZE < vpn + 1 then Some(ImageByte(segs + [s], data, va))
              else if Touched(segs, va / PAGE_SIZE) then Some(ImageByte(segs, data, va))
              else None
    {
      PageByte(view, ram, view1, ram1, ram2, r, segs, s, data, vpn, bytes, va);
    }
  }

  /** The bytes of the file for the addresses from start to end. */
  function FileBytes(s: Segment, data: seq<byte>, start: nat, end: nat): (bytes: seq<byte>)
    requires s.vaddr <= start <= end <= s.vaddr + s.filesz && s.offset + s.filesz <= |data|
    ensures |bytes| == end - start
  {
    data[s.offset + (start - s.vaddr)..s.offset + (end - s.vaddr)]
  }

  lemma PageByte(view: View, ram: Ram, view1: View, ram1: Ram, ram2: Ram, r: nat, segs: seq<Segment>, s: Segment,
                 data: seq<byte>, vpn: nat, bytes: seq<byte>, va: nat)
    requires Loading(view, r, ram, segs, s, data, vpn) && FirstPage(s) <= vpn && SegmentOk(s, |data|)
    requires forall i | 0 <= i < |segs| :: segs[i].filesz <= segs[i].memsz
    requires if Page(r, vpn) in view then view1 == view
              && ram1 == ram else Rewritten(view, ram, view1, ram1, r, vpn, ZeroPage())
    requires va / PAGE_SIZE == vpn ==> (ByteAt(view, r, ram, va).Some? <==> Page(r, vpn) in view)
    requires var start, end := CopyStart(s, vpn * PAGE_SIZE), CopyEnd(s, vpn * PAGE_SIZE);
             if start < end then Stored(view1, ram1, ram2, r, start, bytes)
                 && bytes == FileBytes(s, data, start, end) else ram2 == ram1
    ensures ByteAt(view1, r, ram2, va) ==
            if FirstPage(s) <= va / PAGE_SIZE < vpn + 1 then Some(ImageByte(segs + [s], data, va))
            else if Touched(segs, va / PAGE_SIZE) then Some(ImageByte(segs, data, va))
            else None
  {
    hide ImageByte, Touched, IsPowerOfTwo, ByteAt, Loading, Rewritten, Stored;
    hide CopyStart, CopyEnd, FileBytes;
    ImageSnoc(segs, s, data, va);
    UntouchedIsZero(segs, data, va);
    CopyRange(s, vpn, va);
    LoadingAt(view, r, ram, segs, s, data, vpn, va);
    if Page(r, vpn) !in view {
      ZeroedAt(view, ram, view1, ram1, r, vpn, va);
    }
    var start, end := CopyStart(s, vpn * PAGE_SIZE), CopyEnd(s, vpn * PAGE_SIZE);
    if start < end {
      StoredAt(view1, ram1, ram2, r, start, bytes, va);
      CopiedAt(s, data, start, end, va);
    }
  }

  lemma LoadingAt(view: View, r: nat, ram: Ram, segs: seq<Segment>, s: Segment, data: seq<byte>, next: nat, va: nat)
    requires Loading(view, r, ram, segs, s, data, next)
    ensures ByteAt(view, r, ram, va) ==
            if FirstPage(s) <= va / PAGE_SIZE < next then Some(ImageByte(segs + [s], data, va))
            else if Touched(segs, va / PAGE_SIZE) then Some(ImageByte(segs, data, va))
            else None
  {
    hide ImageByte, Touched, ByteAt;
  }

  lemma ZeroedAt(view: View, ram: Ram, view': View, ram': Ram, r: nat, vpn: nat, va: nat)
    requires Rewritten(view, ram, view', ram', r, vpn, ZeroPage())
    ensures ByteAt(view', r, ram', va) == if va / PAGE_SIZE == vpn then Some(0) else ByteAt(view, r, ram, va)
  {
    hide ByteAt;
  }

  lemma StoredAt(view: View, ram: Ram, ram': Ram, r: nat, at: nat, bytes: seq<byte>, va: nat)
    requires Stored(view, ram, ram', r, at, bytes)
    ensures ByteAt(view, r, ram', va) ==
              if at <= va < at + |bytes| then Some(bytes[va - at]) else ByteAt(view, r, ram, va)
  {
    hide ByteAt;
  }

  lemma CopiedAt(s: Segment, data: seq<byte>, start: nat, end: nat, va: nat)
    requires s.vaddr <= start <= end <= s.vaddr + s.filesz && s.offset + s.filesz <= |data|
    ensures start <= va < end ==> FileBytes(s, data, start, end)[va - start] == FileByte(s, data, va)
  {
  }

  /** On its page, the copied range is exactly where the file goes. */
  lemma CopyRange(s: Segment, vpn: nat, va: nat)
    ensures var start, end := CopyStart(s, vpn * PAGE_SIZE), CopyEnd(s, vpn * PAGE_SIZE);
            && (va / PAGE_SIZE == vpn ==> (start <= va < end <==> InFile(s, va)))
            && (va / PAGE_SIZE != vpn ==> !(start <= va < end))
            && (start < end ==> start / PAGE_SIZE == vpn && start % PAGE_SIZE + (end - start) <= PAGE_SIZE)
            && (start < end ==> s.vaddr <= start && end <= s.vaddr + s.filesz)
  {
  }

  lemma PageInRange(s: Segment, size: nat, vpn: nat)
    requires SegmentOk(s, size) && s.memsz > 0 && vpn < EndPage(s)
    ensures vpn * PAGE_SIZE < LOWER_HALF_END && vpn * PAGE_SIZE / PAGE_SIZE == vpn && vpn * PAGE_SIZE % PAGE_SIZE == 0
    ensures s.offset + s.filesz <= size
  {
    hide IsPowerOfTwo;
  }

  /** Pages and tables were only added, and only pages of address space r. */
  ghost predicate GrewIn(view: View, node: Nodes, view': View, node': Nodes, r: nat)
  {
    Extends(node, node') && view' - PagesOf(view', r) == view - PagesOf(view, r)
  }

  lemma GrewTrans(view: View, node: Nodes, view1: View, node1: Nodes, view2: View, node2: Nodes, r: nat)
    requires GrewIn(view, node, view1, node1, r) && GrewIn(view1, node1, view2, node2, r)
    ensures GrewIn(view, node, view2, node2, r)
  {
    hide Extends, PagesOf;
    ExtendsTrans(node, node1, node2);
  }

  lemma GrewOne(view: View, node: Nodes, view': View, node': Nodes, p: Page, leaf: Leaf)
    requires (view' == view && node' == node) || (Added(view, view', p, leaf) && Extends(node, node'))
    ensures GrewIn(view, node, view', node', p.root)
  {
    hide Extends;
    ExtendsRefl(node);
  }

  /** One turn of the page loop of elf_load_binary. */
  method LoadPage(mem: UserMemory, s: Segment, data: seq<byte>, vpn: nat, ghost segs: seq<Segment>) returns (ok: bool)
    requires mem.Valid() && SegmentOk(s, |data|) && s.memsz > 0 && FirstPage(s) <= vpn < EndPage(s)
    requires Loading(mem.spaces.view, mem.Root(), mem.ram, segs, s, data, vpn)
    requires Permitted(mem.spaces.view, mem.Root(), segs + [s])
    requires forall i | 0 <= i < |segs| :: segs[i].filesz <= segs[i].memsz
    modifies mem`ram, mem.spaces`mem, mem.spaces`node, mem.spaces`view, mem.spaces.pmm`freeCount, mem.spaces.pmm`hint,
        mem.spaces.pmm.free
    ensures mem.Valid() && mem.spaces.TeardownPool(mem.Root()) == old(mem.spaces.TeardownPool(mem.Root()))
    ensures GrewIn(old(mem.spaces.view), old(mem.spaces.node), mem.spaces.view, mem.spaces.node, mem.Root())
    ensures ok ==> Loading(mem.spaces.view, mem.Root(), mem.ram, segs, s, data, vpn + 1)
    ensures Permitted(mem.spaces.view, mem.Root(), segs + [s])
    ensures PaidFor(old(mem.Budget()), old(mem.Pages()), mem.Budget(), mem.Pages(), vpn * PAGE_SIZE, ok)
  {
    hide *;
    PageInRange(s, |data|, vpn);
    CopyRange(s, vpn, 0);
    mem.Parts();
    MappedReads(mem.spaces.view, mem.Root(), mem.ram, mem.spaces.pmm.Usable(), mem.spaces.pmm.Free(), vpn);
    ghost var view, ram := mem.spaces.view, mem.ram;
    var va := vpn * PAGE_SIZE;
    var frame, created;
    FlagsAre(s);
    ok, frame, created := EnsurePage(mem, va, FlagsOf(s));
    GrewOne(view, old(mem.spaces.node), mem.spaces.view, mem.spaces.node, Page(mem.Root(), vpn),
        LeafFor(frame, FlagsOf(s)));
    if !ok {
      return;
    }
    if created {
      NewPageIsUntouched(view, mem.Root(), ram, segs, s, data, vpn);
      PermittedAdd(view, mem.spaces.view, mem.Root(), segs, s, vpn, frame);
    }

    ghost var ram1 := mem.ram;
    var start, end := CopyStart(s, va), CopyEnd(s, va);
    var bytes := [];
    if start < end {
      bytes := FileBytes(s, data, start, end);
      mem.WriteInPage(start, frame, bytes);
    }
    PageStep(view, ram, mem.spaces.view, ram1, mem.ram, mem.Root(), segs, s, data, vpn, bytes);
  }

  lemma FlagsAre(s: Segment)
    ensures !FlagsOf(s).other
  {
  }

  lemma NewPageIsUntouched(view: View, r: nat, ram: Ram, segs: seq<Segment>, s: Segment, data: seq<byte>, vpn: nat)
    requires Loading(view, r, ram, segs, s, data, vpn) && s.memsz > 0 && FirstPage(s) <= vpn < EndPage(s)
    requires forall va: nat | va / PAGE_SIZE == vpn :: ByteAt(view, r, ram, va).Some? <==> Page(r, vpn) in view
    ensures Page(r, vpn) !in view ==> !Touched(segs, vpn)
    ensures Touches(s, vpn)
  {
    hide ByteAt, Touched, ImageByte, Loading;
    assert vpn * PAGE_SIZE / PAGE_SIZE == vpn;
    LoadingAt(view, r, ram, segs, s, data, vpn, vpn * PAGE_SIZE);
  }

  /** The segments are mapped exactly if the budget covers their pages and the tables; the budget itself stays. */
  ghost predicate PaidForPages(budget: nat, pages: set<nat>, budget': nat, pages': set<nat>, more: set<nat>, ok: bool)
  {
    budget' == budget && (ok <==> Cost(pages + more) <= budget) && (ok ==> pages' == pages + more)
  }

  /** One more page, and what its failure says about all of them. */
  lemma NextPaid(budget: nat, pages0: set<nat>, budget': nat, pages': set<nat>, s: Segment, vpn: nat, ok: bool)
    requires PaidFor(budget, pages0 + Range(FirstPage(s), vpn), budget', pages', vpn * PAGE_SIZE, ok)
    requires FirstPage(s) <= vpn < EndPage(s) && s.memsz > 0
    ensures budget' == budget && (ok ==> pages' == pages0 + Range(FirstPage(s), vpn + 1))
    ensures !ok ==> PaidForPages(budget, pages0, budget', pages', SegmentPages(s), false)
  {
    hide Cost, FirstPage, EndPage;
    assert vpn * PAGE_SIZE / PAGE_SIZE == vpn;
    assert pages0 + Range(FirstPage(s), vpn) + {vpn} == pages0 + Range(FirstPage(s), vpn + 1);
    assert Range(FirstPage(s), vpn + 1) <= SegmentPages(s);
    CostGrows(pages0 + Range(FirstPage(s), vpn + 1), pages0 + SegmentPages(s));
  }

  lemma SegmentPaid(mem: UserMemory, pages0: set<nat>, s: Segment)
    requires mem.Pages() == pages0 + (if s.memsz > 0 then Range(FirstPage(s), EndPage(s)) else {})
    ensures PaidForPages(mem.Budget(), pages0, mem.Budget(), mem.Pages(), SegmentPages(s), true)
  {
    hide Cost, FirstPage, EndPage;
  }

  lemma NoRange(v: nat)
    ensures Range(v, v) == {}
  {
  }

  /** The page loop for one segment. */
  method LoadSegment(mem: UserMemory, s: Segment, data: seq<byte>, ghost segs: seq<Segment>) returns (ok: bool)
    requires mem.Valid() && SegmentOk(s, |data|)
    requires Loaded(mem.spaces.view, mem.Root(), mem.ram, segs, data) && Permitted(mem.spaces.view, mem.Root(), segs)
    requires forall i | 0 <= i < |segs| :: segs[i].filesz <= segs[i].memsz
    modifies mem`ram, mem.spaces`mem, mem.spaces`node, mem.spaces`view, mem.spaces.pmm`freeCount, mem.spaces.pmm`hint,
        mem.spaces.pmm.free
    ensures mem.Valid() && mem.spaces.TeardownPool(mem.Root()) == old(mem.spaces.TeardownPool(mem.Root()))
    ensures GrewIn(old(mem.spaces.view), old(mem.spaces.node), mem.spaces.view, mem.spaces.node, mem.Root())
    ensures ok ==> Loaded(mem.spaces.view, mem.Root(), mem.ram, segs + [s], data)
    ensures Permitted(mem.spaces.view, mem.Root(), segs + [s])
    ensures PaidForPages(old(mem.Budget()), old(mem.Pages()), mem.Budget(), mem.Pages(), SegmentPages(s), ok)
  {
    hide *;
    FileWithinMemory(s, |data|);
    GrewOne(mem.spaces.view, mem.spaces.node, mem.spaces.view, mem.spaces.node, Page(mem.Root(), 0),
        Leaf(0, false, false, false));
    PermittedMore(mem.spaces.view, mem.Root(), segs, s);
    if s.memsz == 0 {
      EmptySegment(mem.spaces.view, mem.Root(), mem.ram, segs, s, data);
      SegmentPaid(mem, mem.Pages(), s);
      return true;
    }
    StartLoading(mem.spaces.view, mem.Root(), mem.ram, segs, s, data);
    var vpn := FirstPage(s);
    NoRange(vpn);
    while vpn < EndPage(s)
      invariant FirstPage(s) <= vpn <= EndPage(s) && mem.Valid()
      invariant mem.spaces.TeardownPool(mem.Root()) == old(mem.spaces.TeardownPool(mem.Root()))
      invariant GrewIn(old(mem.spaces.view), old(mem.spaces.node), mem.spaces.view, mem.spaces.node, mem.Root())
      invariant Loading(mem.spaces.view, mem.Root(), mem.ram, segs, s, data, vpn)
      invariant Permitted(mem.spaces.view, mem.Root(), segs + [s])
      invariant mem.Budget() == old(mem.Budget()) && mem.Pages() == old(mem.Pages()) + Range(FirstPage(s), vpn)
    {
      ghost var view, node := mem.spaces.view, mem.spaces.node;
      ok := LoadPage(mem, s, data, vpn, segs);
      NextPaid(old(mem.Budget()), old(mem.Pages()), mem.Budget(), mem.Pages(), s, vpn, ok);
      GrewTrans(old(mem.spaces.view), old(mem.spaces.node), view, node, mem.spaces.view, mem.spaces.node, mem.Root());
      if !ok {
        return;
      }
      vpn := vpn + 1;
    }
    EndLoading(mem.spaces.view, mem.Root(), mem.ram, segs, s, data);
    SegmentPaid(mem, old(mem.Pages()), s);
    ok := true;
  }

  lemma FileWithinMemory(s: Segment, size: nat)
    requires SegmentOk(s, size)
    ensures s.filesz <= s.memsz && FirstPage(s) <= EndPage(s)
  {
    hide IsPowerOfTwo;
  }

  /** The segment loop of elf_load_binary into an address space without pages. */
  method LoadSegments(mem: UserMemory, data: seq<byte>) returns (ok: bool)
    requires mem.Valid() && Accepts(data) && forall va: nat :: mem.Byte(va).None?
    modifies mem`ram, mem.spaces`mem, mem.spaces`node, mem.spaces`view, mem.spaces.pmm`freeCount, mem.spaces.pmm`hint,
        mem.spaces.pmm.free
    ensures mem.Valid() && mem.spaces.TeardownPool(mem.Root()) == old(mem.spaces.TeardownPool(mem.Root()))
    ensures GrewIn(old(mem.spaces.view), old(mem.spaces.node), mem.spaces.view, mem.spaces.node, mem.Root())
    ensures ok ==>
              Loaded(mem.spaces.view, mem.Root(), mem.ram, Segments(data), data)
              && Permitted(mem.spaces.view, mem.Root(), Segments(data))
    ensures PaidForPages(|old(mem.spaces.pmm.Free())|, {}, mem.Budget(), mem.Pages(), TouchedPages(Segments(data)), ok)
  {
    hide *;
    var segs := Segments(data);
    AcceptedSegments(data);
    mem.ByteIs();
    mem.Parts();
    NothingLoaded(mem.spaces.view, mem.Root(), mem.ram, data);
    NoPages(mem.spaces.view, mem.Root(), mem.ram, mem.spaces.pmm.Usable(), mem.spaces.pmm.Free());
    NothingPermitted(mem);
    GrewOne(mem.spaces.view, mem.spaces.node, mem.spaces.view, mem.spaces.node, Page(mem.Root(), 0),
        Leaf(0, false, false, false));
    assert segs[..0] == [];
    for i := 0 to |segs|
      invariant mem.Valid() && mem.spaces.TeardownPool(mem.Root()) == old(mem.spaces.TeardownPool(mem.Root()))
      invariant GrewIn(old(mem.spaces.view), old(mem.spaces.node), mem.spaces.view, mem.spaces.node, mem.Root())
      invariant Loaded(mem.spaces.view, mem.Root(), mem.ram, segs[..i], data)
      invariant Permitted(mem.spaces.view, mem.Root(), segs[..i])
      invariant mem.Budget() == |old(mem.spaces.pmm.Free())| && mem.Pages() == TouchedPages(segs[..i])
    {
      assert segs[..i + 1] == segs[..i] + [segs[i]];
      ghost var view, node, budget, pages := mem.spaces.view, mem.spaces.node, mem.Budget(), mem.Pages();
      ok := LoadSegment(mem, segs[i], data, segs[..i]);
      NextSegmentPaid(budget, segs, i, mem.Budget(), mem.Pages(), ok);
      GrewTrans(old(mem.spaces.view), old(mem.spaces.node), view, node, mem.spaces.view, mem.spaces.node, mem.Root());
      if !ok {
        return;
      }
    }
    assert segs[..|segs|] == segs;
    SegmentsPaid(mem, segs);
    ok := true;
  }

  lemma NothingPermitted(mem: UserMemory)
    requires PagesOf(mem.spaces.view, mem.Root()) == {}
    ensures Permitted(mem.spaces.view, mem.Root(), []) && mem.Budget() == |mem.spaces.pmm.Free()|
    ensures mem.Pages() == {} == TouchedPages([])
  {
    hide Cost, FrameAllocator.Free;
    assert forall p | p in mem.spaces.view :: p.root == mem.Root() ==> p in PagesOf(mem.spaces.view, mem.Root());
    assert mem.Pages() == {};
    CostNone();
  }

  lemma NextSegmentPaid(budget: nat, segs: seq<Segment>, i: nat, budget': nat, pages': set<nat>, ok: bool)
    requires i < |segs| && PaidForPages(budget, TouchedPages(segs[..i]), budget', pages', SegmentPages(segs[i]), ok)
    ensures budget' == budget && (ok ==> pages' == TouchedPages(segs[..i + 1]))
    ensures !ok ==> PaidForPages(budget, {}, budget', pages', TouchedPages(segs), false)
  {
    hide Cost, TouchedPages, SegmentPages;
    TouchedPagesNext(segs, i);
    assert {} + TouchedPages(segs) == TouchedPages(segs);
    CostGrows(TouchedPages(segs[..i + 1]), TouchedPages(segs));
  }

  lemma SegmentsPaid(mem: UserMemory, segs: seq<Segment>)
    requires mem.Pages() == TouchedPages(segs)
    ensures PaidForPages(mem.Budget(), {}, mem.Budget(), mem.Pages(), TouchedPages(segs), true)
  {
    hide Cost, TouchedPages;
    assert {} + TouchedPages(segs) == TouchedPages(segs);
  }

  lemma AcceptedSegments(data: seq<byte>)
    requires Accepts(data)
    ensures forall i | 0 <= i < |Segments(data)| :: SegmentOk(Segments(data)[i], |data|)
              && Segments(data)[i].filesz <= Segments(data)[i].memsz
  {
    hide Segments, IsPowerOfTwo, HeaderOk, EntryInside, Disjoint;
  }

  lemma NothingLoaded(view: View, r: nat, ram: Ram, data: seq<byte>)
    requires forall va: nat :: ByteAt(view, r, ram, va).None?
    ensures Loaded(view, r, ram, [], data)
  {
    hide ByteAt;
  }

  // ------------------------------------------------------------ the whole loader

  datatype Image = Image(entry: nat, stackTop: nat, stackBottom: nat, rsp: nat)

  const GUARD_VPN: nat := STACK_GUARD / PAGE_SIZE

  /** User memory once a file is loaded: a zero stack, nothing on the guard page, and the segments. */
  function FinalByte(segs: seq<Segment>, data: seq<byte>, va: nat): Option<byte>
  {
    if OnStack(va) then Some(0)
    else if OnGuard(va) then None
    else if Touched(segs, va / PAGE_SIZE) then Some(ImageByte(segs, data, va))
    else None
  }

  /** A file without a segment on the guard page or the stack gets exactly its image, segment by segment. */
  lemma SegmentsIntact(data: seq<byte>, i: nat, va: nat)
    requires Accepts(data) && i < |Segments(data)|
    requires forall j | 0 <= j < |Segments(data)| :: Segments(data)[j].vaddr + Segments(data)[j].memsz <= STACK_GUARD
    requires Segments(data)[i].vaddr <= va < Segments(data)[i].vaddr + Segments(data)[i].memsz
    ensures var s := Segments(data)[i];
            FinalByte(Segments(data), data, va) ==
                Some(if va < s.vaddr + s.filesz then data[s.offset + (va - s.vaddr)] else 0)
  {
    hide Segments, IsPowerOfTwo, HeaderOk, EntryInside, ImageByte;
    var segs := Segments(data);
    ImageOfSegment(segs, data, i, va);
    InsideTouches(segs[i], va);
  }

  lemma InsideTouches(s: Segment, va: nat)
    requires s.vaddr <= va < s.vaddr + s.memsz
    ensures Touches(s, va / PAGE_SIZE)
  {
  }

  /**
   * The loader accepts files that reach the guard page or the stack: they keep their image exactly when only zeros lie
   * there.
   */
  lemma IntactIff(segs: seq<Segment>, data: seq<byte>)
    ensures (forall va: nat | Touched(segs, va / PAGE_SIZE) ::
              FinalByte(segs, data, va) == Some(ImageByte(segs, data, va)))
       <==>
            && !Touched(segs, GUARD_VPN)
            && forall va: nat | OnStack(va) && Touched(segs, va / PAGE_SIZE) :: ImageByte(segs, data, va) == 0
  {
    hide Touched, ImageByte;
    assert OnGuard(STACK_GUARD) && !OnStack(STACK_GUARD);
    if forall va: nat | Touched(segs, va / PAGE_SIZE) :: FinalByte(segs, data, va) == Some(ImageByte(segs, data, va)) {
      assert FinalByte(segs, data, STACK_GUARD) == None;
    }
  }

  /** The initial stack of a program without arguments holds nothing but zeros. */
  lemma EmptyStack(view: View, r: nat, ram: Ram, rsp: nat)
    requires Arguments(view, r, ram, rsp, []) && ZeroElsewhere(view, r, ram, rsp, []) && rsp == StackPointer([])
    ensures rsp == STACK_TOP - 48 && forall va: nat | OnStack(va) :: ByteAt(view, r, ram, va) == Some(0)
  {
    hide ByteAt, ReadsWord;
    forall va: nat | OnStack(va)
      ensures ByteAt(view, r, ram, va) == Some(0)
    {
      if rsp <= va < rsp + 40 {
        var k := (va - rsp) / 8;
        assert ReadsWord(view, r, ram, rsp + 8 * k, 0);
        ZeroWord(view, r, ram, rsp + 8 * k, va);
      }
    }
  }

  lemma ZeroWord(view: View, r: nat, ram: Ram, at: nat, va: nat)
    requires ReadsWord(view, r, ram, at, 0) && at <= va < at + 8
    ensures ByteAt(view, r, ram, va) == Some(0)
  {
    hide ByteAt, LittleEndian;
    var bytes :| |bytes| == 8 && LittleEndian(bytes) == 0 && ReadsBytes(view, r, ram, at, bytes);
    LittleEndianZero(bytes, va - at);
  }

  lemma {:induction false} LittleEndianZero(s: seq<byte>, k: nat)
    requires LittleEndian(s) == 0 && k < |s|
    ensures s[k] == 0
  {
    if k > 0 {
      LittleEndianZero(s[1..], k - 1);
    }
  }

  /** Segments, then the stack: the final memory. */
  lemma FinalMemory(view: View, ram: Ram, view': View, ram': Ram, r: nat, segs: seq<Segment>, data: seq<byte>)
    requires Loaded(view, r, ram, segs, data) && GuardPage(r) !in view'
    requires forall va: nat | !OnStack(va) && !OnGuard(va) :: ByteAt(view', r, ram', va) == ByteAt(view, r, ram, va)
    requires forall va: nat | OnStack(va) :: ByteAt(view', r, ram', va) == Some(0)
    ensures forall va: nat :: ByteAt(view', r, ram', va) == FinalByte(segs, data, va)
  {
    hide Touched, ImageByte, OnStack;
    forall va: nat
      ensures ByteAt(view', r, ram', va) == FinalByte(segs, data, va)
    {
      assert ByteAt(view, r, ram, va) ==
          if Touched(segs, va / PAGE_SIZE) then Some(ImageByte(segs, data, va)) else None;
    }
  }

  /** The permissions of a page once a file is loaded: those of the first segment on it, on the stack as well. */
  function FinalFlags(segs: seq<Segment>, vpn: nat): Flags
  {
    if Touched(segs, vpn) then FlagsOf(segs[FirstTouching(segs, vpn)]) else STACK_FLAGS
  }

  /**
   * Exactly the pages of the segments and of the stack are mapped, but not the guard page, each with its permissions.
   */
  ghost predicate Permissions(view: View, r: nat, segs: seq<Segment>)
  {
    && (forall vpn: nat :: Page(r, vpn) in view <==>
        vpn != GUARD_VPN && (Touched(segs, vpn) || IsStackPage(Page(r, vpn), r)))
    && (forall vpn: nat | Page(r, vpn) in view ::
        view[Page(r, vpn)] == LeafFor(view[Page(r, vpn)].frame, FinalFlags(segs, vpn)))
  }

  lemma FinalPermissions(view: View, view': View, r: nat, segs: seq<Segment>)
    requires Permitted(view, r, segs) && Mapped(view, r) == TouchedPages(segs)
    requires WithStack(view - {GuardPage(r)}, view', r)
    ensures Permissions(view', r, segs)
  {
    hide Touched, TouchedPages, Mapped, FirstTouching;
    forall vpn: nat
      ensures Page(r, vpn) in view' <==> vpn != GUARD_VPN && (Touched(segs, vpn) || IsStackPage(Page(r, vpn), r))
      ensures Page(r, vpn) in view' ==> view'[Page(r, vpn)] == LeafFor(view'[Page(r, vpn)].frame, FinalFlags(segs, vpn))
    {
      var p := Page(r, vpn);
      MappedIs(view, r, vpn);
      TouchedPagesIs(segs, vpn);
      assert p in view - {GuardPage(r)} <==> p in view && vpn != GUARD_VPN;
      if p in view {
        assert HasFlags(view[p], segs, p.vpn);
      }
    }
  }

  /** Every page of every segment is mapped with the permissions that segment asks for. */
  ghost predicate Granted(view: View, r: nat, segs: seq<Segment>)
  {
    forall i, vpn: nat | 0 <= i < |segs| && Touches(segs[i], vpn) :: GrantedAt(view, r, segs[i], vpn)
  }

  ghost predicate GrantedAt(view: View, r: nat, s: Segment, vpn: nat)
  {
    Page(r, vpn) in view && view[Page(r, vpn)] == LeafFor(view[Page(r, vpn)].frame, FlagsOf(s))
  }

  /**
   * Once a file is loaded, its segments have what they ask for exactly if they agree on shared pages and avoid the
   * guard page.
   */
  lemma {:induction false} PermissionsIff(view: View, r: nat, segs: seq<Segment>)
    requires Permissions(view, r, segs)
    ensures Granted(view, r, segs) <==> Agree(segs) && !Touched(segs, GUARD_VPN)
  {
    hide Touches, FlagsOf, FirstTouching, Agree, IsStackPage;
    AsAskedIff(segs);
    if Agree(segs) && !Touched(segs, GUARD_VPN) {
      forall i, vpn: nat | 0 <= i < |segs| && Touches(segs[i], vpn)
        ensures GrantedAt(view, r, segs[i], vpn)
      {
        assert Page(r, vpn) in view;
      }
    }
    if Granted(view, r, segs) {
      forall i, vpn: nat | 0 <= i < |segs| && Touches(segs[i], vpn)
        ensures vpn != GUARD_VPN && FlagsOf(segs[FirstTouching(segs, vpn)]) == FlagsOf(segs[i])
      {
        assert GrantedAt(view, r, segs[i], vpn);
        FlagsFromLeaf(view[Page(r, vpn)].frame, segs[FirstTouching(segs, vpn)], segs[i]);
      }
    }
  }

  lemma FlagsFromLeaf(frame: nat, s: Segment, t: Segment)
    ensures LeafFor(frame, FlagsOf(s)) == LeafFor(frame, FlagsOf(t)) <==> FlagsOf(s) == FlagsOf(t)
  {
  }

  /** Every stack page is writable and not executable exactly if the first segment on each asks for that. */
  lemma StackPermissionsIff(segs: seq<Segment>)
    ensures (forall vpn: nat | IsStackPage(Page(0, vpn), 0) :: FinalFlags(segs, vpn) == STACK_FLAGS)
       <==> (forall vpn: nat | IsStackPage(Page(0, vpn), 0) && Touched(segs, vpn) ::
               segs[FirstTouching(segs, vpn)].writable && !segs[FirstTouching(segs, vpn)].executable)
  {
    hide Touched, FirstTouching;
    forall vpn: nat
      ensures FinalFlags(segs, vpn) == STACK_FLAGS <==>
              (Touched(segs, vpn) ==>
                  segs[FirstTouching(segs, vpn)].writable && !segs[FirstTouching(segs, vpn)].executable)
    {
    }
  }

  /** So many frames went missing, and no others. */
  ghost predicate Loses(before: set<nat>, after: set<nat>, n: nat)
  {
    after <= before && |before - after| == n
  }

  lemma LosesThese(before: set<nat>, after: set<nat>, lost: set<nat>)
    requires after + lost == before && after !! lost
    ensures Loses(before, after, |lost|)
  {
    assert before - after == lost;
  }

  lemma LosesBeyond(before: set<nat>, after: set<nat>, tables: set<nat>, lost: set<nat>)
    requires after + lost == before && after !! lost && lost !! tables
    ensures Loses(before - tables, after - tables, |lost|)
  {
    assert before - tables == (after - tables) + lost;
    LosesThese(before - tables, after - tables, lost);
  }

  /**
   * The failing file takes a frame with it exactly if its segments fit in memory and one of them touches the guard
   * page.
   */
  ghost function LostOnFailure(file: Option<seq<byte>>, free: nat): nat
  {
    if file.Some? && Accepts(file.value) && Touched(Segments(file.value), GUARD_VPN)
        && Cost(TouchedPages(Segments(file.value))) <= free then 1 else 0
  }

  lemma FitsNothing()
    ensures Fits([])
  {
  }

  lemma LostIs(file: Option<seq<byte>>, free: nat)
    ensures LostOnFailure(file, free) ==
            if file.Some? && Accepts(file.value) && Touched(Segments(file.value), GUARD_VPN)
                && Cost(TouchedPages(Segments(file.value))) <= free then 1 else 0
  {
    hide Accepts, Segments, Touched, TouchedPages, Cost;
  }

  /** An address space that reads as nothing has no pages. */
  lemma NoPages(view: View, r: nat, ram: Ram, usable: set<nat>, free: set<nat>)
    requires Backed(view, r, ram, usable, free) && forall va: nat :: ByteAt(view, r, ram, va).None?
    ensures PagesOf(view, r) == {} && LeafFrames(view, r) == {}
  {
    hide ByteAt;
    forall p | p in view
      ensures p.root != r
    {
      assert p.vpn * PAGE_SIZE / PAGE_SIZE == p.vpn;
      assert ByteAt(view, r, ram, p.vpn * PAGE_SIZE).None?;
      MappedReads(view, r, ram, usable, free, p.vpn);
    }
  }

  lemma GuardTouched(view: View, r: nat, ram: Ram, usable: set<nat>, free: set<nat>, segs: seq<Segment>,
                     data: seq<byte>)
    requires Backed(view, r, ram, usable, free) && Loaded(view, r, ram, segs, data)
    ensures |GuardFrame(view, r)| == if Touched(segs, GUARD_VPN) then 1 else 0
  {
    hide ByteAt, Touched, ImageByte, Backed;
    MappedReads(view, r, ram, usable, free, GUARD_VPN);
    assert ByteAt(view, r, ram, STACK_GUARD).Some? <==> Touched(segs, STACK_GUARD / PAGE_SIZE);
  }

  lemma GuardFrameIsNoTable(view: View, node: Nodes, r: nat, node0: Nodes)
    requires NoAlias(node, view, r) && Extends(node0, node)
    ensures GuardFrame(view, r) !! node0.Values
  {
    forall f | f in node0.Values
      ensures f !in GuardFrame(view, r)
    {
      var l :| l in node0 && node0[l] == f;
      assert l in node && node[l] == f && GuardPage(r).root == r;
    }
  }

  /** Whether segments and stack fit, in the terms of the segments alone. */
  lemma FileAffordable(free: nat, budget: nat, pages: set<nat>, segs: seq<Segment>, ok: bool)
    requires PaidForPages(free, {}, budget, pages, TouchedPages(segs), ok)
    ensures budget == free && (ok ==> pages == TouchedPages(segs)) && (!ok ==> !Affordable(free, TouchedPages(segs)))
    ensures ok <==> Cost(TouchedPages(segs)) <= free
  {
    hide Cost, TouchedPages, StackNumbers;
    assert {} + TouchedPages(segs) == TouchedPages(segs);
    CostGrows(TouchedPages(segs), TouchedPages(segs) + StackNumbers(STACK_PAGES));
  }

  /** Clearing the address space leaves the map as it was before loading. */
  lemma Unloaded(view0: View, node0: Nodes, view: View, node: Nodes, view1: View, r: nat)
    requires GrewIn(view0, node0, view, node, r) && PagesOf(view0, r) == {}
    requires view1 == view || view1 == view - {GuardPage(r)}
    ensures view1 - PagesOf(view1, r) == view0 && LeafFrames(view0, r) == {} && Extends(node0, node)
  {
    hide Extends;
    assert view0 - PagesOf(view0, r) == view0;
    assert GuardPage(r).root == r;
    assert view1 - PagesOf(view1, r) == view - PagesOf(view, r);
    assert forall p | p in view0 :: p.root == r ==> p in PagesOf(view0, r);
  }

  /** The error path: clearing the address space restores the map and the page tables from before loading. */
  method GiveUp(mem: UserMemory, ghost table: Memory, ghost view0: View, ghost node0: Nodes, ghost view: View,
                ghost node: Nodes, ghost pool: set<nat>, ghost lost: set<nat>)
    requires mem.Valid() && mem.Root() != mem.spaces.kernelRoot && Tree(table, node0, view0)
    requires Compact(node0, view0, {})
    requires GrewIn(view0, node0, view, node, mem.Root()) && PagesOf(view0, mem.Root()) == {}
    requires Conserved(mem, pool, lost) && lost !! node0.Values
    requires Extends(mem.spaces.node, node)
    requires mem.spaces.view == view || mem.spaces.view == view - {GuardPage(mem.Root())}
    modifies mem.spaces`mem, mem.spaces`node, mem.spaces`view, mem.spaces.pmm`freeCount, mem.spaces.pmm`hint,
        mem.spaces.pmm.free
    ensures mem.Valid() && mem.spaces.view == view0 && mem.spaces.node == node0
    ensures Loses(pool - node0.Values, mem.spaces.pmm.Free(), |lost|)
  {
    hide *;
    ConservedIs(mem, pool, lost);
    LosesBeyond(pool, mem.spaces.TeardownPool(mem.Root()), node0.Values, lost);
    ghost var view1, node1 := mem.spaces.view, mem.spaces.node;
    mem.Clear();
    ExtendsTrans(mem.spaces.node, node1, node);
    Unloaded(view0, node0, view, node, view1, mem.Root());
    mem.Parts();
    SpacesFacts(mem.spaces);
    NodesRestored(table, node0, node, mem.spaces.mem, mem.spaces.node, mem.spaces.view);
    mem.FreeIsRest();
    assert mem.spaces.pmm.Free() == old(mem.spaces.TeardownPool(mem.Root())) - node0.Values;
  }

  /** The stack after the segments. */
  method AddStack(mem: UserMemory, data: seq<byte>) returns (ok: bool, rsp: nat)
    requires mem.Valid() && Loaded(mem.spaces.view, mem.Root(), mem.ram, Segments(data), data)
    requires Permitted(mem.spaces.view, mem.Root(), Segments(data)) && mem.Pages() == TouchedPages(Segments(data))
    modifies mem`ram, mem.spaces`mem, mem.spaces`node, mem.spaces`view, mem.spaces.pmm`freeCount, mem.spaces.pmm`hint,
        mem.spaces.pmm.free
    ensures mem.Valid() && (ok <==> Affordable(old(mem.Budget()), TouchedPages(Segments(data))))
    ensures ok ==> rsp == STACK_TOP - 48 && forall va: nat :: mem.Byte(va) == FinalByte(Segments(data), data, va)
    ensures ok ==> Permissions(mem.spaces.view, mem.Root(), Segments(data))
    ensures ok ==> Taken(old(mem.Budget()), TouchedPages(Segments(data)), |mem.spaces.pmm.Free()|)
    ensures Conserved(mem, old(mem.spaces.TeardownPool(mem.Root())), GuardFrame(old(mem.spaces.view), mem.Root()))
    ensures !ok ==>
              mem.spaces.view == old(mem.spaces.view) - {GuardPage(mem.Root())}
              && Extends(mem.spaces.node, old(mem.spaces.node))
  {
    hide *;
    FitsNothing();
    mem.ByteIs();
    mem.BudgetIs();
    ghost var view, ram := mem.spaces.view, mem.ram;
    ok, rsp := SetupStack(mem, []);
    mem.ByteIs();
    if ok {
      EmptyStack(mem.spaces.view, mem.Root(), mem.ram, rsp);
      FinalMemory(view, ram, mem.spaces.view, mem.ram, mem.Root(), Segments(data), data);
      FinalPermissions(view, mem.spaces.view, mem.Root(), Segments(data));
    }
  }

  /** What elf_load_binary does with a file it accepts. */
  method LoadAccepted(mem: UserMemory, data: seq<byte>) returns (ok: bool, rsp: nat)
    requires mem.Valid() && mem.Root() != mem.spaces.kernelRoot && Accepts(data) && forall va: nat :: mem.Byte(va).None?
    modifies mem`ram, mem.spaces`mem, mem.spaces`node, mem.spaces`view, mem.spaces.pmm`freeCount, mem.spaces.pmm`hint,
        mem.spaces.pmm.free
    ensures mem.Valid() && (ok <==> Affordable(|old(mem.spaces.pmm.Free())|, TouchedPages(Segments(data))))
    ensures ok ==> rsp == STACK_TOP - 48 && forall va: nat :: mem.Byte(va) == FinalByte(Segments(data), data, va)
    ensures ok ==> Permissions(mem.spaces.view, mem.Root(), Segments(data))
    ensures ok ==> Taken(|old(mem.spaces.pmm.Free())|, TouchedPages(Segments(data)), |mem.spaces.pmm.Free()|)
    ensures ok ==>
              Loses(old(mem.spaces.TeardownPool(mem.Root())), mem.spaces.TeardownPool(mem.Root()),
              if Touched(Segments(data), GUARD_VPN) then 1 else 0)
    ensures !ok ==> mem.spaces.view == old(mem.spaces.view) && mem.spaces.node == old(mem.spaces.node)
    ensures !ok ==>
              Loses(old(mem.spaces.pmm.Free()), mem.spaces.pmm.Free(),
              LostOnFailure(Some(data), |old(mem.spaces.pmm.Free())|))
  {
    hide *;
    rsp := 0;
    LostIs(Some(data), |mem.spaces.pmm.Free()|);
    mem.Parts();
    SpacesFacts(mem.spaces);
    mem.FreeIsRest();
    mem.ByteIs();
    NoPages(mem.spaces.view, mem.Root(), mem.ram, mem.spaces.pmm.Usable(), mem.spaces.pmm.Free());
    assert mem.spaces.pmm.Free() == mem.spaces.TeardownPool(mem.Root()) - mem.spaces.node.Values;
    ghost var table := mem.spaces.mem;
    ok := LoadSegments(mem, data);
    FileAffordable(|old(mem.spaces.pmm.Free())|, mem.Budget(), mem.Pages(), Segments(data), ok);
    ghost var view, node := mem.spaces.view, mem.spaces.node;
    ExtendsRefl(node);
    ghost var lost: set<nat> := {};
    ConservedIs(mem, old(mem.spaces.TeardownPool(mem.Root())), {});
    if ok {
      mem.Parts();
      GuardTouched(view, mem.Root(), mem.ram, mem.spaces.pmm.Usable(), mem.spaces.pmm.Free(), Segments(data), data);
      GrewIs(old(mem.spaces.view), old(mem.spaces.node), view, node, mem.Root());
      GuardFrameIsNoTable(view, node, mem.Root(), old(mem.spaces.node));
      lost := GuardFrame(view, mem.Root());
      ok, rsp := AddStack(mem, data);
      if ok {
        ConservedIs(mem, old(mem.spaces.TeardownPool(mem.Root())), lost);
        LosesThese(old(mem.spaces.TeardownPool(mem.Root())), mem.spaces.TeardownPool(mem.Root()), lost);
        return;
      }
    }
    GiveUp(mem, table, old(mem.spaces.view), old(mem.spaces.node), view, node, old(mem.spaces.TeardownPool(mem.Root())),
        lost);
  }

  /** elf_load_binary into a fresh address space; `file` is what reading the path gives. */
  method LoadBinary(mem: UserMemory, file: Option<seq<byte>>) returns (ok: bool, image: Image)
    requires mem.Valid() && mem.Root() != mem.spaces.kernelRoot && forall va: nat :: mem.Byte(va).None?
    modifies mem`ram, mem.spaces`mem, mem.spaces`node, mem.spaces`view, mem.spaces.pmm`freeCount, mem.spaces.pmm`hint,
        mem.spaces.pmm.free
    ensures mem.Valid()
    ensures ok <==>
              file.Some? && Accepts(file.value)
              && Affordable(|old(mem.spaces.pmm.Free())|, TouchedPages(Segments(file.value)))
    ensures ok ==> image == Image(Entry(file.value), STACK_TOP, STACK_BOTTOM, STACK_TOP - 48)
    ensures ok ==> forall va: nat :: mem.Byte(va) == FinalByte(Segments(file.value), file.value, va)
    ensures ok ==> Permissions(mem.spaces.view, mem.Root(), Segments(file.value))
    ensures ok ==> Taken(|old(mem.spaces.pmm.Free())|, TouchedPages(Segments(file.value)), |mem.spaces.pmm.Free()|)
    ensures ok ==>
              Loses(old(mem.spaces.TeardownPool(mem.Root())), mem.spaces.TeardownPool(mem.Root()),
              if Touched(Segments(file.value), GUARD_VPN) then 1 else 0)
    ensures !ok ==> mem.spaces.view == old(mem.spaces.view) && mem.spaces.node == old(mem.spaces.node)
    ensures !ok ==>
              Loses(old(mem.spaces.pmm.Free()), mem.spaces.pmm.Free(),
              LostOnFailure(file, |old(mem.spaces.pmm.Free())|))
  {
    hide *;
    image := Image(0, 0, 0, 0);
    LostIs(file, |mem.spaces.pmm.Free()|);
    LosesThese(mem.spaces.pmm.Free(), mem.spaces.pmm.Free(), {});
    if file.None? || !Accepts(file.value) {
      return false, image;
    }
    var rsp;
    ok, rsp := LoadAccepted(mem, file.value);
    if ok {
      image := Image(Entry(file.value), STACK_TOP, STACK_BOTTOM, rsp);
    }
  }

  lemma GrewIs(view: View, node: Nodes, view': View, node': Nodes, r: nat)
    requires GrewIn(view, node, view', node', r)
    ensures Extends(node, node')
  {
    hide Extends;
  }
}
