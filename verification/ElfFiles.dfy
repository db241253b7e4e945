/**
 * Files for given segments: the smallest ELF64 file with these program headers, what the loader reads back from it, and
 * the files at which the loader does not deliver the memory its segments describe.
 */
module ElfFiles {
  import opened Bytes
  import opened Options
  import opened Vmm
  import opened UserStack
  import opened Elf
  import Words

  /** Bytes 0 to 23: identification, type, machine and version. */
  function Identity(): (s: seq<byte>)
    ensures |s| == 24
  {
    [0x7f, 0x45, 0x4c, 0x46, 2, 1, 1, 0, 0, 0, 0, 0, 0, 0, 0, 0] + Encode(2, 2) + Encode(62, 2) + Encode(1, 4)
  }

  /** Bytes 24 to 47: entry point and the offsets of the header tables. */
  function Places(entry: nat): (s: seq<byte>)
    ensures |s| == 24
  {
    Encode(entry, 8) + Encode(64, 8) + Encode(0, 8)
  }

  /** Bytes 48 to 63: flags and the sizes and counts of the headers. */
  function Sizes(n: nat): (s: seq<byte>)
    ensures |s| == 16
  {
    Encode(0, 4) + Encode(64, 2) + Encode(56, 2) + Encode(n, 2) + Encode(0, 6)
  }

  function FlagBits(s: Segment): nat
  {
    (if s.writable then 2 else 0) + if s.executable then 1 else 0
  }

  function FrontHalf(s: Segment): (h: seq<byte>)
    ensures |h| == 24
  {
    Encode(s.kind, 4) + Encode(FlagBits(s), 4) + Encode(s.offset, 8) + Encode(s.vaddr, 8)
  }

  function BackHalf(s: Segment): (h: seq<byte>)
    ensures |h| == 32
  {
    Encode(0, 8) + Encode(s.filesz, 8) + Encode(s.memsz, 8) + Encode(s.align, 8)
  }

  function HeaderTable(segs: seq<Segment>): (t: seq<byte>)
    ensures |t| == 56 * |segs|
  {
    if segs == [] then []
    else HeaderTable(segs[..|segs| - 1]) + (FrontHalf(segs[|segs| - 1]) + BackHalf(segs[|segs| - 1]))
  }

  function Build(entry: nat, segs: seq<Segment>): (data: seq<byte>)
    ensures |data| == 64 + 56 * |segs|
  {
    Identity() + Places(entry) + Sizes(|segs|) + HeaderTable(segs)
  }

  // ------------------------------------------------------------ reading it back

  lemma FieldSlice(data: seq<byte>, at: nat, len: nat, o: nat, k: nat)
    requires at + len <= |data| && o + k <= len
    ensures Field(data, at + o, k) == Field(data[at..at + len], o, k)
  {
    var part, from := data[at..at + len], at + o;
    var left, right := part[o..o + k], data[from..from + k];
    forall i | 0 <= i < |left|
      ensures left[i] == right[i]
    {
      assert part[o + i] == data[from + i];
    }
    assert left == right;
  }

  lemma FieldIn(pre: seq<byte>, n: nat, k: nat, post: seq<byte>)
    requires n < Radix(k)
    ensures Field(pre + Encode(n, k) + post, |pre|, k) == n
  {
    assert (pre + Encode(n, k) + post)[|pre|..|pre| + k] == Encode(n, k);
    EncodeDecode(n, k);
  }

  lemma Radices()
    ensures Radix(2) == 0x1_0000 && Radix(4) == 0x1_0000_0000 && Radix(8) == 0x1_0000_0000_0000_0000
  {
    assert Radix(2) == 0x1_0000 && Radix(4) == 0x1_0000_0000;
    assert Radix(6) == 0x1_0000_0000_0000;
  }

  lemma {:induction false} IdentityFields()
    ensures Identity()[..7] == [0x7f, 0x45, 0x4c, 0x46, 2, 1, 1]
    ensures Field(Identity(), 16, 2) == 2 && Field(Identity(), 18, 2) == 62 && Field(Identity(), 20, 4) == 1
  {
    hide Encode, Radix, Field;
    Radices();
    var id: seq<byte> := [0x7f, 0x45, 0x4c, 0x46, 2, 1, 1, 0, 0, 0, 0, 0, 0, 0, 0, 0];
    var a, b, c := Encode(2, 2), Encode(62, 2), Encode(1, 4);
    FieldIn(id, 2, 2, b + c);
    FieldIn(id + a, 62, 2, c);
    FieldIn(id + a + b, 1, 4, []);
    assert id + a + (b + c) == id + a + b + c == id + a + b + c + [];
  }

  lemma {:induction false} PlacesFields(entry: nat)
    requires entry < W64
    ensures Field(Places(entry), 0, 8) == entry && Field(Places(entry), 8, 8) == 64
  {
    hide Encode, Radix, Field;
    Radices();
    var a, b, c := Encode(entry, 8), Encode(64, 8), Encode(0, 8);
    FieldIn([], entry, 8, b + c);
    FieldIn(a, 64, 8, c);
    assert [] + a + (b + c) == a + b + c;
  }

  lemma {:induction false} SizesFields(n: nat)
    requires n < 0x1_0000
    ensures Field(Sizes(n), 4, 2) == 64 && Field(Sizes(n), 6, 2) == 56 && Field(Sizes(n), 8, 2) == n
  {
    hide Encode, Radix, Field;
    Radices();
    var a, b, c, d, e := Encode(0, 4), Encode(64, 2), Encode(56, 2), Encode(n, 2), Encode(0, 6);
    FieldIn(a, 64, 2, c + d + e);
    FieldIn(a + b, 56, 2, d + e);
    FieldIn(a + b + c, n, 2, e);
    assert a + b + (c + d + e) == a + b + c + (d + e) == a + b + c + d + e;
  }

  predicate Encodable(s: Segment)
  {
    && s.kind == 1 && s.offset < W64 && s.vaddr < W64
    && s.filesz < W64 && s.memsz < W64 && s.align < W64
  }

  lemma {:induction false} FrontFields(s: Segment)
    requires Encodable(s)
    ensures Field(FrontHalf(s), 0, 4) == s.kind && Field(FrontHalf(s), 4, 4) == FlagBits(s)
    ensures Field(FrontHalf(s), 8, 8) == s.offset && Field(FrontHalf(s), 16, 8) == s.vaddr
  {
    hide Encode, Radix, Field;
    Radices();
    var a, b, c, d := Encode(s.kind, 4), Encode(FlagBits(s), 4), Encode(s.offset, 8), Encode(s.vaddr, 8);
    FieldIn([], s.kind, 4, b + c + d);
    FieldIn(a, FlagBits(s), 4, c + d);
    FieldIn(a + b, s.offset, 8, d);
    FieldIn(a + b + c, s.vaddr, 8, []);
    assert [] + a + (b + c + d) == a + b + (c + d) == a + b + c + d == a + b + c + d + [];
  }

  lemma {:induction false} BackFields(s: Segment)
    requires Encodable(s)
    ensures Field(BackHalf(s), 8, 8) == s.filesz && Field(BackHalf(s), 16, 8) == s.memsz
    ensures Field(BackHalf(s), 24, 8) == s.align
  {
    hide Encode, Radix, Field;
    Radices();
    var a, b, c, d := Encode(0, 8), Encode(s.filesz, 8), Encode(s.memsz, 8), Encode(s.align, 8);
    FieldIn(a, s.filesz, 8, c + d);
    FieldIn(a + b, s.memsz, 8, d);
    FieldIn(a + b + c, s.align, 8, []);
    assert a + b + (c + d) == a + b + c + d == a + b + c + d + [];
  }

  lemma {:induction false} TableSlice(segs: seq<Segment>, i: nat)
    requires i < |segs|
    ensures 56 * i + 56 <= |HeaderTable(segs)|
    ensures HeaderTable(segs)[56 * i..56 * i + 56] == FrontHalf(segs[i]) + BackHalf(segs[i])
    decreases |segs|
  {
    hide FrontHalf, BackHalf;
    var init, last := segs[..|segs| - 1], FrontHalf(segs[|segs| - 1]) + BackHalf(segs[|segs| - 1]);
    if i < |segs| - 1 {
      TableSlice(init, i);
      assert HeaderTable(segs)[56 * i..56 * i + 56] == HeaderTable(init)[56 * i..56 * i + 56];
    } else {
      assert (HeaderTable(init) + last)[56 * i..] == last;
    }
  }

  /** Program header i reads back as the segment it was made from. */
  lemma {:induction false} HeaderReadsBack(entry: nat, segs: seq<Segment>, i: nat)
    requires i < |segs| && Encodable(segs[i])
    ensures HeaderAt(Build(entry, segs), 64 + 56 * i) == segs[i]
  {
    hide Identity, Places, Sizes, HeaderTable, FrontHalf, BackHalf, Field, FlagBits, Words.Bit, Encodable;
    var data, at, s := Build(entry, segs), 64 + 56 * i, segs[i];
    TableSlice(segs, i);
    assert data[64..] == HeaderTable(segs);
    assert data[at..at + 56] == HeaderTable(segs)[56 * i..56 * i + 56];
    assert data[at..at + 24] == data[at..at + 56][..24] == FrontHalf(s);
    assert data[at + 24..at + 24 + 32] == data[at..at + 56][24..] == BackHalf(s);
    FrontFields(s);
    BackFields(s);
    FieldSlice(data, at, 24, 0, 4);
    FieldSlice(data, at, 24, 4, 4);
    FieldSlice(data, at, 24, 8, 8);
    FieldSlice(data, at, 24, 16, 8);
    FieldSlice(data, at + 24, 32, 8, 8);
    FieldSlice(data, at + 24, 32, 16, 8);
    FieldSlice(data, at + 24, 32, 24, 8);
    BitsReadBack(s);
  }

  lemma BitsReadBack(s: Segment)
    ensures Words.Bit(FlagBits(s), 1) == s.writable && Words.Bit(FlagBits(s), 0) == s.executable
    ensures Encodable(s) ==>
              s == Segment(s.kind, s.writable, s.executable, s.offset, s.vaddr, s.filesz, s.memsz, s.align)
  {
  }

  lemma {:induction false} FixedFields(entry: nat, segs: seq<Segment>)
    requires entry < W64 && |segs| < 0x1_0000
    ensures var data := Build(entry, segs);
            && data[..7] == [0x7f, 0x45, 0x4c, 0x46, 2, 1, 1] && Field(data, 16, 2) == 2 && Field(data, 18, 2) == 62
                && Field(data, 20, 4) == 1
            && Field(data, 24, 8) == entry && Field(data, 32, 8) == 64
            && Field(data, 52, 2) == 64 && Field(data, 54, 2) == 56 && Field(data, 56, 2) == |segs|
  {
    hide Identity, Places, Sizes, HeaderTable, Field;
    var data := Build(entry, segs);
    assert data[0..24] == Identity() && data[..7] == data[0..24][..7];
    assert data[24..48] == Places(entry) && data[48..64] == Sizes(|segs|);
    IdentityFields();
    FieldSlice(data, 0, 24, 16, 2);
    FieldSlice(data, 0, 24, 18, 2);
    FieldSlice(data, 0, 24, 20, 4);
    PlacesFields(entry);
    FieldSlice(data, 24, 24, 0, 8);
    FieldSlice(data, 24, 24, 8, 8);
    SizesFields(|segs|);
    FieldSlice(data, 48, 16, 4, 2);
    FieldSlice(data, 48, 16, 6, 2);
    FieldSlice(data, 48, 16, 8, 2);
  }

  lemma {:induction false} AllLoadable(hs: seq<Segment>)
    requires forall i | 0 <= i < |hs| :: hs[i].kind == 1
    ensures Loadable(hs) == hs
  {
    if hs != [] {
      AllLoadable(hs[..|hs| - 1]);
    }
  }

  /** The loader reads back the entry point and the segments the file was built from. */
  lemma {:induction false} BuiltSegments(entry: nat, segs: seq<Segment>)
    requires entry < W64 && |segs| < 0x1_0000 && forall i | 0 <= i < |segs| :: Encodable(segs[i])
    ensures Segments(Build(entry, segs)) == segs == Headers(Build(entry, segs), |segs|)
    ensures Elf.Entry(Build(entry, segs)) == entry
  {
    hide Build, Field, HeaderAt, Loadable;
    FixedFields(entry, segs);
    forall i | 0 <= i < |segs|
      ensures HeaderAt(Build(entry, segs), 64 + 56 * i) == segs[i]
    {
      HeaderReadsBack(entry, segs, i);
    }
    assert Headers(Build(entry, segs), |segs|) == segs;
    AllLoadable(segs);
  }

  /** The loader accepts the file exactly if the entry point and the segments pass its checks. */
  lemma {:induction false} BuiltAccepted(entry: nat, segs: seq<Segment>)
    requires entry < W64 && |segs| < 0x1_0000 && forall i | 0 <= i < |segs| :: Encodable(segs[i])
    ensures Accepts(Build(entry, segs)) <==>
            && 0 < |segs| <= 64 && USER_START <= entry < USER_END && Disjoint(segs) && EntryInside(segs, entry)
            && (forall i | 0 <= i < |segs| :: SegmentOk(segs[i], 64 + 56 * |segs|))
  {
    hide Build, Field, HeaderAt, Loadable, Headers, Segments, SegmentOk, EntryInside, Disjoint;
    FixedFields(entry, segs);
    BuiltSegments(entry, segs);
  }

  // ------------------------------------------------------------ files the loader accepts

  const CODE: nat := 0x20_0000

  /** A segment at `vaddr` whose first `filesz` bytes are the first ones of the file. */
  function At(vaddr: nat, writable: bool, executable: bool, filesz: nat): Segment
  {
    Segment(1, writable, executable, 0, vaddr, filesz, 1, 0)
  }

  lemma AcceptedOne(s: Segment)
    requires s == At(s.vaddr, s.writable, true, s.filesz) && s.filesz <= 1 && USER_START <= s.vaddr
    requires s.vaddr + 1 < USER_END
    ensures Accepts(Build(s.vaddr, [s])) && Segments(Build(s.vaddr, [s])) == [s]
    ensures Elf.Entry(Build(s.vaddr, [s])) == s.vaddr
  {
    hide Build, Accepts, Segments, Elf.Entry, IsPowerOfTwo;
    BuiltSegments(s.vaddr, [s]);
    BuiltAccepted(s.vaddr, [s]);
    assert [s][0].executable && [s][0].vaddr <= s.vaddr < [s][0].vaddr + [s][0].memsz;
    assert SegmentOk([s][0], 64 + 56 * 1);
  }

  /**
   * A file whose only segment, with the entry point, lies on the guard page: it loads, and nothing is mapped at its
   * entry point.
   */
  lemma GuardExample() returns (data: seq<byte>)
    ensures Accepts(data) && Touched(Segments(data), GUARD_VPN)
    ensures FinalByte(Segments(data), data, Elf.Entry(data)) == None
    ensures Agree(Segments(data))
              && forall view, r | Permissions(view, r, Segments(data)) :: !Granted(view, r, Segments(data))
  {
    hide Build, Accepts, Segments, Elf.Entry;
    var s := At(STACK_GUARD, false, true, 0);
    AcceptedOne(s);
    data := Build(s.vaddr, [s]);
    assert Touches([s][0], GUARD_VPN);
    forall view, r | Permissions(view, r, [s])
      ensures !Granted(view, r, [s])
    {
      PermissionsIff(view, r, [s]);
    }
  }

  /** A file with a byte on the stack: the byte is lost, and the stack page is executable and not writable. */
  lemma StackExample() returns (data: seq<byte>)
    ensures Accepts(data) && OnStack(STACK_BOTTOM) && ImageByte(Segments(data), data, STACK_BOTTOM) == 0x7f
    ensures FinalByte(Segments(data), data, STACK_BOTTOM) == Some(0)
    ensures var flags := FinalFlags(Segments(data), STACK_BOTTOM / PAGE_SIZE); !flags.writable && !flags.noExecute
  {
    hide Accepts, Segments, Elf.Entry, Places, Sizes, HeaderTable;
    var s := At(STACK_BOTTOM, false, true, 1);
    AcceptedOne(s);
    data := Build(s.vaddr, [s]);
    assert data[0] == Identity()[0] == 0x7f;
    assert Touches([s][0], STACK_BOTTOM / PAGE_SIZE);
  }

  /** Code and writable data on one page: the page is not writable. */
  lemma SharedExample() returns (data: seq<byte>)
    ensures Accepts(data) && !Agree(Segments(data))
    ensures |Segments(data)| == 2 && Segments(data)[1].writable
    ensures !FinalFlags(Segments(data), FirstPage(Segments(data)[1])).writable
  {
    hide Build, Accepts, Segments, Elf.Entry, IsPowerOfTwo;
    var segs := [At(CODE, false, true, 0), At(CODE + 0x800, true, false, 0)];
    BuiltSegments(CODE, segs);
    BuiltAccepted(CODE, segs);
    data := Build(CODE, segs);
    assert segs[0].executable && segs[0].vaddr <= CODE < segs[0].vaddr + segs[0].memsz;
    assert Touches(segs[0], CODE / PAGE_SIZE) && Touches(segs[1], CODE / PAGE_SIZE);
    assert FirstTouching(segs, CODE / PAGE_SIZE) == 0;
  }
}
