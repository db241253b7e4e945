/**
 * The initial user stack: sixteen pages above an unmapped guard page, the argument strings, and the table a program
 * finds at its stack pointer (section 3.4.1 of the System V AMD64 ABI).
 */
module UserStack {
  import opened Bytes
  import opened Options
  import opened PageTree
  import opened Pmm
  import opened Vmm
  import opened FrameBudget
  import PageCost
  import opened UserSpace

  const STACK_TOP: nat := 0x7fff_ffff_e000
  const STACK_SIZE: nat := 0x1_0000
  const STACK_PAGES: nat := 16
  const STACK_BOTTOM: nat := 0x7fff_fffe_e000
  const STACK_GUARD: nat := 0x7fff_fffe_d000
  const MAX_ARGS: nat := 64
  const MAX_STRING: nat := 4096

  /** An entry of argv: NULL, or the bytes before the terminator. */
  type Argument = Option<seq<byte>>

  function StackPage(r: nat, i: nat): Page
  {
    Page(r, STACK_BOTTOM / PAGE_SIZE + i)
  }

  function GuardPage(r: nat): Page
  {
    Page(r, STACK_GUARD / PAGE_SIZE)
  }

  predicate OnStack(va: nat)
  {
    STACK_BOTTOM <= va < STACK_TOP
  }

  // ------------------------------------------------------------ what the program finds

  function Text(a: Argument): seq<byte>
  {
    if a.Some? then a.value else []
  }

  /** The room the strings take, terminators included. */
  function StringBytes(args: seq<Argument>): nat
  {
    if args == [] then 0 else StringBytes(args[..|args| - 1]) + |Text(args[|args| - 1])| + 1
  }

  /** The conditions under which the arguments are accepted. */
  predicate Fits(args: seq<Argument>)
  {
    && |args| <= 64 && (forall i | 0 <= i < |args| :: args[i].Some? && |args[i].value| <= 4096)
    && StringBytes(args) + 8 * (|args| + 5) + 64 <= STACK_SIZE
  }

  /** Where string i goes: strings are laid downwards from the top. */
  function Pointer(args: seq<Argument>, i: nat): int
    requires i < |args|
  {
    STACK_TOP - StringBytes(args[..i + 1])
  }

  function Pointers(args: seq<Argument>, n: nat): (ps: seq<int>)
    requires n <= |args|
    ensures |ps| == n
  {
    seq(n, i requires 0 <= i < n => Pointer(args, i))
  }

  function StackPointer(args: seq<Argument>): int
  {
    (STACK_TOP - StringBytes(args) - 8 * (|args| + 5)) / 16 * 16
  }

  ghost predicate ReadsBytes(view: View, r: nat, ram: Ram, va: nat, bytes: seq<byte>)
  {
    forall x: nat | va <= x < va + |bytes| :: ByteAt(view, r, ram, x) == Some(bytes[x - va])
  }

  /** The quadword at va. */
  ghost predicate ReadsWord(view: View, r: nat, ram: Ram, va: nat, word: int)
  {
    exists bytes :: |bytes| == 8 && LittleEndian(bytes) == word && ReadsBytes(view, r, ram, va, bytes)
  }

  /** argc, the strings through argv, and the terminators of argv, envp and auxv. */
  ghost predicate Arguments(view: View, r: nat, ram: Ram, rsp: nat, args: seq<Argument>)
  {
    && ReadsWord(view, r, ram, rsp, |args|)
    && (forall i: nat | i < |args| :: ReadsArgument(view, r, ram, rsp, args, i))
    && (forall k: nat | |args| < k < |args| + 5 :: ReadsWord(view, r, ram, rsp + 8 * k, 0))
  }

  ghost predicate ReadsArgument(view: View, r: nat, ram: Ram, rsp: nat, args: seq<Argument>, i: nat)
    requires i < |args|
  {
    var p := Pointer(args, i);
    p >= 0 && ReadsWord(view, r, ram, rsp + 8 * (1 + i), p) && args[i].Some?
        && ReadsBytes(view, r, ram, p, args[i].value + [0])
  }

  /** The rest of the stack is zero. */
  ghost predicate ZeroElsewhere(view: View, r: nat, ram: Ram, rsp: nat, args: seq<Argument>)
  {
    forall va: nat | STACK_BOTTOM <= va < STACK_TOP - StringBytes(args) && !(rsp <= va < rsp + 8 * (|args| + 5)) ::
      ByteAt(view, r, ram, va) == Some(0)
  }

  /** Addresses outside the stack read as before. */
  ghost predicate SameOutside(view: View, ram: Ram, view': View, ram': Ram, r: nat)
  {
    forall va: nat | !OnStack(va) :: ByteAt(view', r, ram', va) == ByteAt(view, r, ram, va)
  }

  // ------------------------------------------------------------ arithmetic of the layout

  lemma {:induction false} StringBytesBound(args: seq<Argument>, i: nat)
    requires i <= |args|
    ensures StringBytes(args[..i]) <= StringBytes(args)
    decreases |args|
  {
    if i < |args| {
      var init := args[..|args| - 1];
      assert init[..i] == args[..i];
      StringBytesBound(init, i);
    } else {
      assert args[..i] == args;
    }
  }

  lemma StringBytesNext(args: seq<Argument>, i: nat)
    requires i < |args|
    ensures StringBytes(args[..i + 1]) == StringBytes(args[..i]) + |Text(args[i])| + 1
    ensures StringBytes(args[..i + 1]) <= StringBytes(args)
  {
    assert args[..i + 1][..i] == args[..i];
    StringBytesBound(args, i + 1);
  }

  /** The stack pointer is aligned, and the table lies between it and the strings, on the stack. */
  lemma StackPointerAligned(args: seq<Argument>)
    requires StringBytes(args) + 8 * (|args| + 5) + 64 <= STACK_SIZE
    ensures StackPointer(args) % 16 == 0 && STACK_BOTTOM <= StackPointer(args)
    ensures StackPointer(args) + 8 * (|args| + 5) <= STACK_TOP - StringBytes(args) < StackPointer(args)
              + 8 * (|args| + 5) + 16
  {
    hide StringBytes;
  }

  /** The table as bytes. */
  function TableBytes(words: seq<int>): (bytes: seq<byte>)
    ensures |bytes| == 8 * |words|
  {
    if words == [] then [] else TableBytes(words[..|words| - 1]) + Encode64(words[|words| - 1])
  }

  function Table(args: seq<Argument>): (words: seq<int>)
    ensures |words| == |args| + 5
  {
    [|args|] + Pointers(args, |args|) + [0, 0, 0, 0]
  }

  lemma {:induction false} TableWord(words: seq<int>, i: nat)
    requires i < |words|
    ensures 8 * i + 8 <= 8 * |words| && TableBytes(words)[8 * i..8 * i + 8] == Encode64(words[i])
    decreases |words|
  {
    hide Encode64;
    var init := words[..|words| - 1];
    var last := Encode64(words[|words| - 1]);
    if i < |words| - 1 {
      TableWord(init, i);
      assert TableBytes(words)[8 * i..8 * i + 8] == TableBytes(init)[8 * i..8 * i + 8];
    } else {
      assert (TableBytes(init) + last)[8 * i..] == last;
    }
  }

  /** Every word of the table reads back from the bytes in memory. */
  lemma {:induction false} WordReadBack(view: View, r: nat, ram: Ram, rsp: nat, words: seq<int>, i: nat)
    requires ReadsBytes(view, r, ram, rsp, TableBytes(words)) && i < |words| && 0 <= words[i] < W64
    ensures ReadsWord(view, r, ram, rsp + 8 * i, words[i])
  {
    hide ByteAt, TableBytes, Encode64, LittleEndian, ReadsBytes;
    TableWord(words, i);
    EncodeDecode64(words[i]);
    ReadsPart(view, r, ram, rsp, TableBytes(words), 8 * i, 8 * i + 8);
  }

  lemma ReadsPart(view: View, r: nat, ram: Ram, va: nat, bytes: seq<byte>, from: nat, to: nat)
    requires ReadsBytes(view, r, ram, va, bytes) && from <= to <= |bytes|
    ensures ReadsBytes(view, r, ram, va + from, bytes[from..to])
  {
    hide ByteAt;
  }

  /** The strings written so far. */
  ghost predicate Strings(view: View, r: nat, ram: Ram, args: seq<Argument>, n: nat)
    requires n <= |args|
  {
    forall i: nat | i < n :: ReadsString(view, r, ram, args, i)
  }

  ghost predicate ReadsString(view: View, r: nat, ram: Ram, args: seq<Argument>, i: nat)
    requires i < |args|
  {
    Pointer(args, i) >= 0 && ReadsBytes(view, r, ram, Pointer(args, i), Text(args[i]) + [0])
  }

  /** The strings and the table in memory are what the program expects. */
  lemma {:induction false} TableReadBack(view: View, r: nat, ram: Ram, args: seq<Argument>)
    requires Fits(args) && StackPointer(args) >= 0 && Strings(view, r, ram, args, |args|)
    requires ReadsBytes(view, r, ram, StackPointer(args), TableBytes(Table(args)))
    ensures Arguments(view, r, ram, StackPointer(args), args)
  {
    hide TableBytes, ReadsWord, ReadsBytes, StringBytes, StackPointer, ByteAt;
    var rsp, words := StackPointer(args), Table(args);
    WordReadBack(view, r, ram, rsp, words, 0);
    forall i: nat | i < |args|
      ensures ReadsArgument(view, r, ram, rsp, args, i)
    {
      assert words[1 + i] == Pointer(args, i);
      assert ReadsString(view, r, ram, args, i);
      WordReadBack(view, r, ram, rsp, words, 1 + i);
    }
    forall k: nat | |args| < k < |args| + 5
      ensures ReadsWord(view, r, ram, rsp + 8 * k, 0)
    {
      WordReadBack(view, r, ram, rsp, words, k);
    }
  }

  // ------------------------------------------------------------ writing

  /** The frames of the first stack pages. */
  ghost predicate StackFrames(view: View, r: nat, frames: seq<nat>)
  {
    && |frames| <= STACK_PAGES
    && forall i: nat | i < |frames| :: StackPage(r, i) in view && view[StackPage(r, i)].frame == frames[i]
  }

  lemma StoredNothing(view: View, ram: Ram, r: nat, va: nat)
    ensures Stored(view, ram, ram, r, va, [])
  {
    hide ByteAt;
  }

  /** Two adjacent stores are one. */
  lemma StoredAppend(view: View, ram: Ram, ram1: Ram, ram2: Ram, r: nat, va: nat, a: seq<byte>, b: seq<byte>)
    requires Stored(view, ram, ram1, r, va, a) && Stored(view, ram1, ram2, r, va + |a|, b)
    ensures Stored(view, ram, ram2, r, va, a + b)
  {
    hide ByteAt;
  }

  lemma ChunkAt(x: nat)
    requires OnStack(x)
    ensures var idx, off := (x - STACK_BOTTOM) / PAGE_SIZE, (x - STACK_BOTTOM) % PAGE_SIZE;
            idx < STACK_PAGES && x / PAGE_SIZE == STACK_BOTTOM / PAGE_SIZE + idx && x % PAGE_SIZE == off < PAGE_SIZE
  {
  }

  /** stack_write_bytes: a store that may cross pages, each reached through its own frame. */
  method StackWrite(mem: UserMemory, frames: seq<nat>, va: nat, bytes: seq<byte>) returns (ok: bool)
    requires mem.Valid() && |frames| == STACK_PAGES && StackFrames(mem.spaces.view, mem.Root(), frames)
    requires va + |bytes| < W64
    modifies mem`ram
    ensures mem.Valid() && (ok <==> STACK_BOTTOM <= va && va + |bytes| <= STACK_TOP)
    ensures if ok then Stored(mem.spaces.view, old(mem.ram), mem.ram, mem.Root(), va, bytes)
              else mem.ram == old(mem.ram)
  {
    hide UserMemory.Valid, Stored, UserMemory.Root;
    if va < STACK_BOTTOM || va + |bytes| > STACK_TOP {
      return false;
    }
    var done := 0;
    StoredNothing(mem.spaces.view, mem.ram, mem.Root(), va);
    assert bytes[..0] == [];
    while done < |bytes|
      invariant done <= |bytes| && mem.Valid()
      invariant Stored(mem.spaces.view, old(mem.ram), mem.ram, mem.Root(), va, bytes[..done])
    {
      ChunkAt(va + done);
      var idx, off := (va + done - STACK_BOTTOM) / PAGE_SIZE, (va + done - STACK_BOTTOM) % PAGE_SIZE;
      var chunk := if PAGE_SIZE - off > |bytes| - done then |bytes| - done else PAGE_SIZE - off;
      assert Page(mem.Root(), (va + done) / PAGE_SIZE) == StackPage(mem.Root(), idx);
      ghost var before := mem.ram;
      mem.WriteInPage(va + done, frames[idx], bytes[done..done + chunk]);
      StoredAppend(mem.spaces.view, old(mem.ram), before, mem.ram, mem.Root(), va, bytes[..done],
          bytes[done..done + chunk]);
      assert bytes[..done] + bytes[done..done + chunk] == bytes[..done + chunk];
      done := done + chunk;
    }
    assert bytes[..done] == bytes;
    ok := true;
  }

  ghost predicate ZeroBelow(view: View, r: nat, ram: Ram, top: int)
  {
    forall va: nat | STACK_BOTTOM <= va < top :: ByteAt(view, r, ram, va) == Some(0)
  }

  /** The first n strings lie at the top of the stack, zeros below them. */
  ghost predicate Laid(view: View, r: nat, was: Ram, ram: Ram, args: seq<Argument>, n: nat)
    requires n <= |args|
  {
    && Strings(view, r, ram, args, n) && ZeroBelow(view, r, ram, STACK_TOP - StringBytes(args[..n]))
    && SameOutside(view, was, view, ram, r)
  }

  /** A store elsewhere leaves what an address range reads. */
  lemma ReadsKept(view: View, ram: Ram, ram': Ram, r: nat, at: nat, bytes: seq<byte>, va: nat, s: seq<byte>)
    requires Stored(view, ram, ram', r, at, bytes) && ReadsBytes(view, r, ram, va, s) && at + |bytes| <= va
    ensures ReadsBytes(view, r, ram', va, s)
  {
    hide ByteAt;
  }

  lemma ReadsStored(view: View, ram: Ram, ram': Ram, r: nat, at: nat, bytes: seq<byte>)
    requires Stored(view, ram, ram', r, at, bytes)
    ensures ReadsBytes(view, r, ram', at, bytes)
  {
    hide ByteAt;
  }

  lemma {:induction false} PointerOrder(args: seq<Argument>, i: nat, n: nat)
    requires i < n <= |args|
    ensures Pointer(args, i) >= STACK_TOP - StringBytes(args[..n])
  {
    hide StringBytes;
    assert args[..n][..i + 1] == args[..i + 1];
    StringBytesBound(args[..n], i + 1);
  }

  /** Strings above a store stay. */
  lemma {:induction false} StringsKept(view: View, r: nat, ram: Ram, ram': Ram, args: seq<Argument>, n: nat, at: nat,
                                       bytes: seq<byte>)
    requires n <= |args| && Strings(view, r, ram, args, n) && Stored(view, ram, ram', r, at, bytes)
    requires at + |bytes| <= STACK_TOP - StringBytes(args[..n])
    ensures Strings(view, r, ram', args, n)
  {
    hide ByteAt, Stored, ReadsBytes, StringBytes, Pointer;
    forall i: nat | i < n
      ensures ReadsString(view, r, ram', args, i)
    {
      assert ReadsString(view, r, ram, args, i);
      PointerOrder(args, i, n);
      ReadsKept(view, ram, ram', r, at, bytes, Pointer(args, i), Text(args[i]) + [0]);
    }
  }

  /** Storing on the stack: below the store zeros stay, outside the stack everything does. */
  lemma StoreOnStack(view: View, r: nat, was: Ram, ram: Ram, ram': Ram, at: nat, bytes: seq<byte>, top: int)
    requires Stored(view, ram, ram', r, at, bytes) && STACK_BOTTOM <= at && at + |bytes| <= STACK_TOP && at <= top
    requires ZeroBelow(view, r, ram, top) && SameOutside(view, was, view, ram, r)
    ensures ZeroBelow(view, r, ram', at) && SameOutside(view, was, view, ram', r)
  {
    hide ByteAt;
  }

  lemma {:induction false} StringStep(view: View, r: nat, was: Ram, ram: Ram, ram': Ram, args: seq<Argument>, n: nat)
    requires n < |args| && Laid(view, r, was, ram, args, n) && STACK_BOTTOM <= Pointer(args, n)
    requires Stored(view, ram, ram', r, Pointer(args, n), Text(args[n]) + [0])
    ensures Laid(view, r, was, ram', args, n + 1)
  {
    hide ByteAt, Stored, ReadsBytes, StringBytes, ZeroBelow, SameOutside;
    var at, bytes := Pointer(args, n), Text(args[n]) + [0];
    StringBytesNext(args, n);
    StringsKept(view, r, ram, ram', args, n, at, bytes);
    ReadsStored(view, ram, ram', r, at, bytes);
    StoreOnStack(view, r, was, ram, ram', at, bytes, STACK_TOP - StringBytes(args[..n]));
    assert forall i: nat | i < n :: ReadsString(view, r, ram', args, i);
    assert ReadsString(view, r, ram', args, n);
  }

  /** The loop that sums the string lengths. */
  method Measure(args: seq<Argument>) returns (ok: bool, total: nat)
    ensures ok <==> forall i | 0 <= i < |args| :: args[i].Some? && |args[i].value| <= MAX_STRING
    ensures ok ==> total == StringBytes(args)
  {
    total := 0;
    assert args[..0] == [];
    for i := 0 to |args|
      invariant total == StringBytes(args[..i])
      invariant forall j | 0 <= j < i :: args[j].Some? && |args[j].value| <= MAX_STRING
    {
      if args[i].None? || |args[i].value| > MAX_STRING {
        return false, total;
      }
      StringBytesNext(args, i);
      total := total + |args[i].value| + 1;
    }
    assert args[..|args|] == args;
    ok := true;
  }

  /** The loop that copies the strings downwards from the top. */
  method WriteStrings(mem: UserMemory, frames: seq<nat>, args: seq<Argument>)
    returns (ok: bool, sp: nat, pointers: seq<int>)
    requires mem.Valid() && |frames| == STACK_PAGES && StackFrames(mem.spaces.view, mem.Root(), frames)
    requires Fits(args) && ZeroBelow(mem.spaces.view, mem.Root(), mem.ram, STACK_TOP)
    modifies mem`ram
    ensures mem.Valid() && ok && sp == STACK_TOP - StringBytes(args) && pointers == Pointers(args, |args|)
    ensures Laid(mem.spaces.view, mem.Root(), old(mem.ram), mem.ram, args, |args|)
  {
    hide *;
    FitsFacts(args);
    sp, pointers, ok := STACK_TOP, [], true;
    LaidNothing(mem.spaces.view, mem.Root(), mem.ram, args);
    for i := 0 to |args|
      invariant mem.Valid() && ok && StackFrames(mem.spaces.view, mem.Root(), frames)
      invariant sp == STACK_TOP - StringBytes(args[..i]) && pointers == Pointers(args, i)
      invariant Laid(mem.spaces.view, mem.Root(), old(mem.ram), mem.ram, args, i)
    {
      StringBytesNext(args, i);
      PointerIs(args, i);
      ghost var before := mem.ram;
      sp := sp - (|args[i].value| + 1);
      var wrote := StackWrite(mem, frames, sp, args[i].value + [0]);
      ok := ok && wrote;
      StringStep(mem.spaces.view, mem.Root(), old(mem.ram), before, mem.ram, args, i);
      pointers := pointers + [sp];
    }
    assert args[..|args|] == args;
  }

  lemma FitsFacts(args: seq<Argument>)
    requires Fits(args)
    ensures |args| <= MAX_ARGS && StringBytes(args) + 8 * (|args| + 5) + 64 <= STACK_SIZE
    ensures STACK_BOTTOM + STACK_SIZE == STACK_TOP < W64 && STACK_BOTTOM > 0
    ensures forall i | 0 <= i < |args| :: args[i].Some? && Text(args[i]) == args[i].value
              && |args[i].value| <= MAX_STRING
  {
    hide StringBytes;
  }

  lemma LaidNothing(view: View, r: nat, ram: Ram, args: seq<Argument>)
    requires ZeroBelow(view, r, ram, STACK_TOP)
    ensures Laid(view, r, ram, ram, args, 0) && StringBytes(args[..0]) == 0 && Pointers(args, 0) == []
  {
    hide ByteAt;
  }

  lemma PointerIs(args: seq<Argument>, i: nat)
    requires i < |args|
    ensures Pointer(args, i) == STACK_TOP - StringBytes(args[..i + 1])
    ensures Pointers(args, i + 1) == Pointers(args, i) + [Pointer(args, i)]
  {
    hide StringBytes;
  }

  /** Everything between mapping the stack and returning its pointer. */
  method BuildStack(mem: UserMemory, frames: seq<nat>, args: seq<Argument>) returns (ok: bool, rsp: nat)
    requires mem.Valid() && |frames| == STACK_PAGES && StackFrames(mem.spaces.view, mem.Root(), frames)
    requires |args| <= MAX_ARGS && ZeroBelow(mem.spaces.view, mem.Root(), mem.ram, STACK_TOP)
    modifies mem`ram
    ensures mem.Valid() && (ok <==> Fits(args))
    ensures SameOutside(mem.spaces.view, old(mem.ram), mem.spaces.view, mem.ram, mem.Root())
    ensures ok ==> rsp == StackPointer(args) && Arguments(mem.spaces.view, mem.Root(), mem.ram, rsp, args)
    ensures ok ==> ZeroElsewhere(mem.spaces.view, mem.Root(), mem.ram, rsp, args)
  {
    hide *;
    rsp := 0;
    var measured, total := Measure(args);
    SameItself(mem.spaces.view, mem.ram, mem.Root());
    FitsIs(args);
    if !measured || total + 8 * (|args| + 5) + 64 > STACK_SIZE {
      return false, rsp;
    }
    FitsFacts(args);
    var wrote, sp, pointers := WriteStrings(mem, frames, args);
    StackPointerAligned(args);
    StackPointerIs(args);
    rsp := (sp - 8 * (|args| + 5)) / 16 * 16;
    var table := [|args|] + pointers + [0, 0, 0, 0];
    TableIs(args);
    ghost var before := mem.ram;
    var written := StackWrite(mem, frames, rsp, TableBytes(table));
    ok := wrote && sp >= 8 * (|args| + 5) && rsp >= STACK_BOTTOM && written;
    TableStep(mem.spaces.view, mem.Root(), old(mem.ram), before, mem.ram, args);
  }

  lemma SameItself(view: View, ram: Ram, r: nat)
    ensures SameOutside(view, ram, view, ram, r)
  {
  }

  lemma FitsIs(args: seq<Argument>)
    ensures Fits(args) <==>
            && |args| <= MAX_ARGS && (forall i | 0 <= i < |args| :: args[i].Some? && |args[i].value| <= MAX_STRING)
            && StringBytes(args) + 8 * (|args| + 5) + 64 <= STACK_SIZE
  {
  }

  lemma StackPointerIs(args: seq<Argument>)
    ensures StackPointer(args) == (STACK_TOP - StringBytes(args) - 8 * (|args| + 5)) / 16 * 16
  {
  }

  lemma TableIs(args: seq<Argument>)
    ensures Table(args) == [|args|] + Pointers(args, |args|) + [0, 0, 0, 0]
  {
  }

  /** Storing the table completes the stack. */
  lemma {:induction false} TableStep(view: View, r: nat, was: Ram, ram: Ram, ram': Ram, args: seq<Argument>)
    requires Fits(args) && StackPointer(args) >= 0 && Laid(view, r, was, ram, args, |args|)
    requires Stored(view, ram, ram', r, StackPointer(args), TableBytes(Table(args)))
    ensures Arguments(view, r, ram', StackPointer(args), args) && ZeroElsewhere(view, r, ram', StackPointer(args), args)
    ensures SameOutside(view, was, view, ram', r)
  {
    hide *;
    var rsp, bytes := StackPointer(args), TableBytes(Table(args));
    FitsFacts(args);
    StackPointerAligned(args);
    assert args[..|args|] == args;
    LaidParts(view, r, was, ram, args);
    StringsKept(view, r, ram, ram', args, |args|, rsp, bytes);
    ReadsStored(view, ram, ram', r, rsp, bytes);
    StoreOnStack(view, r, was, ram, ram', rsp, bytes, STACK_TOP - StringBytes(args));
    ZeroAround(view, r, ram, ram', args, rsp, bytes);
    TableReadBack(view, r, ram', args);
  }

  lemma LaidParts(view: View, r: nat, was: Ram, ram: Ram, args: seq<Argument>)
    requires Laid(view, r, was, ram, args, |args|)
    ensures Strings(view, r, ram, args, |args|) && ZeroBelow(view, r, ram, STACK_TOP - StringBytes(args))
    ensures SameOutside(view, was, view, ram, r)
  {
    hide Strings, ZeroBelow, SameOutside, StringBytes;
    assert args[..|args|] == args;
  }

  lemma ZeroAround(view: View, r: nat, ram: Ram, ram': Ram, args: seq<Argument>, rsp: nat, bytes: seq<byte>)
    requires ZeroBelow(view, r, ram, STACK_TOP - StringBytes(args)) && Stored(view, ram, ram', r, rsp, bytes)
    requires |bytes| == 8 * (|args| + 5)
    ensures ZeroElsewhere(view, r, ram', rsp, args)
  {
    hide ByteAt, StringBytes;
  }

  // ------------------------------------------------------------ mapping and unwinding

  /** The stack pages that were mapped anew. */
  ghost function NewPages(r: nat, created: seq<bool>): set<Page>
  {
    set i | 0 <= i < |created| && created[i] :: StackPage(r, i)
  }

  /** The permissions of a stack page. */
  const STACK_FLAGS := Flags(true, true, true, false)

  /** The map before, plus the new stack pages, writable for the user and not executable. */
  ghost predicate Grown(view: View, view': View, r: nat, created: seq<bool>)
  {
    && |created| <= STACK_PAGES && NewPages(r, created) <= view'.Keys && view' - NewPages(r, created) == view
    && forall p | p in NewPages(r, created) :: view'[p] == LeafFor(view'[p].frame, STACK_FLAGS)
  }

  predicate IsStackPage(p: Page, r: nat)
  {
    p.root == r && STACK_BOTTOM / PAGE_SIZE <= p.vpn < STACK_BOTTOM / PAGE_SIZE + STACK_PAGES
  }

  /** The stack pages were added; a page that was mapped before, on the stack too, keeps its frame and permissions. */
  ghost predicate WithStack(view: View, view': View, r: nat)
  {
    && (forall p: Page :: p in view' <==> p in view || IsStackPage(p, r))
    && (forall p | p in view && p in view' :: view'[p] == view[p])
    && (forall p | p in view' && p !in view :: view'[p] == LeafFor(view'[p].frame, STACK_FLAGS))
  }

  lemma GrownWithStack(view: View, view': View, r: nat, created: seq<bool>, frames: seq<nat>)
    requires Grown(view, view', r, created) && |frames| == STACK_PAGES && StackFrames(view', r, frames)
    ensures WithStack(view, view', r)
  {
    forall p: Page
      ensures p in view' <==> p in view || IsStackPage(p, r)
      ensures p in view && p in view' ==> view'[p] == view[p]
      ensures p in view' && p !in view ==> view'[p] == LeafFor(view'[p].frame, STACK_FLAGS)
    {
      assert p in view <==> p in view' - NewPages(r, created);
      if IsStackPage(p, r) {
        assert p == StackPage(r, p.vpn - STACK_BOTTOM / PAGE_SIZE);
      }
      if p in NewPages(r, created) {
        var i :| 0 <= i < |created| && created[i] && p == StackPage(r, i);
        assert IsStackPage(p, r);
      }
    }
  }

  /** The numbers of the first n stack pages. */
  ghost function StackNumbers(n: nat): set<nat>
  {
    Range(STACK_BOTTOM / PAGE_SIZE, STACK_BOTTOM / PAGE_SIZE + n)
  }

  lemma StackNumbersNext(n: nat)
    ensures StackNumbers(0) == {} && StackNumbers(n + 1) == StackNumbers(n) + {STACK_BOTTOM / PAGE_SIZE + n}
  {
  }

  lemma {:induction false} StackNumbersGrow(n: nat, m: nat)
    requires n <= m
    ensures StackNumbers(n) <= StackNumbers(m)
  {
  }

  /** The guard page needs no table that the stack does not need anyway. */
  lemma GuardCost(pages: set<nat>)
    requires STACK_GUARD / PAGE_SIZE in pages
    ensures Cost(pages + StackNumbers(STACK_PAGES)) ==
              Cost(pages - {STACK_GUARD / PAGE_SIZE} + StackNumbers(STACK_PAGES)) + 1
  {
    hide Cost;
    var g, b := STACK_GUARD / PAGE_SIZE, STACK_BOTTOM / PAGE_SIZE;
    var rest := pages - {g} + StackNumbers(STACK_PAGES);
    StackNumbersNext(0);
    StackNumbersGrow(1, STACK_PAGES);
    assert b + 0 in StackNumbers(0 + 1);
    assert g !in StackNumbers(STACK_PAGES);
    assert rest + {g} == pages + StackNumbers(STACK_PAGES);
    forall k | 1 <= k <= 3
      ensures Paid(rest, g, k) == 0
    {
      assert PageCost.TableOf(g, k, PageCost.Numbers) == PageCost.TableOf(b, k, PageCost.Numbers) && b in rest
          && k in {1, 2, 3};
    }
    CostAdd(rest, g);
  }

  lemma NewPagesNext(r: nat, created: seq<bool>, b: bool)
    ensures NewPages(r, created + [b]) == NewPages(r, created) + (if b then {StackPage(r, |created|)} else {})
    ensures StackPage(r, |created|) !in NewPages(r, created)
  {
    var more := created + [b];
    forall p | p in NewPages(r, created) + (if b then {StackPage(r, |created|)} else {})
      ensures p in NewPages(r, more)
    {
      if p in NewPages(r, created) {
        var i :| 0 <= i < |created| && created[i] && p == StackPage(r, i);
        assert more[i];
      } else {
        assert more[|created|];
      }
    }
  }

  /** One page of the stack mapped or found. */
  lemma GrownStep(view0: View, view: View, view': View, r: nat, created: seq<bool>, b: bool, frame: nat)
    requires Grown(view0, view, r, created) && |created| < STACK_PAGES
    requires if b then Added(view, view', StackPage(r, |created|), LeafFor(frame, STACK_FLAGS)) else view' == view
    ensures Grown(view0, view', r, created + [b])
  {
    hide NewPages, StackPage;
    NewPagesNext(r, created, b);
    var p := StackPage(r, |created|);
    assert b ==> view' - (NewPages(r, created) + {p}) == view - NewPages(r, created);
  }

  /** The first n stack pages are zero, everything else reads as before. */
  ghost predicate Zeroed(view: View, ram: Ram, view': View, ram': Ram, r: nat, n: nat)
  {
    forall va: nat :: ByteAt(view', r, ram', va) ==
      if STACK_BOTTOM / PAGE_SIZE <= va / PAGE_SIZE < STACK_BOTTOM / PAGE_SIZE + n then Some(0)
          else ByteAt(view, r, ram, va)
  }

  lemma ZeroStep(view0: View, ram0: Ram, view: View, ram: Ram, view1: View, ram1: Ram, ram2: Ram, r: nat, i: nat)
    requires Zeroed(view0, ram0, view, ram, r, i)
    requires (view1 == view && ram1 == ram)
              || Rewritten(view, ram, view1, ram1, r, STACK_BOTTOM / PAGE_SIZE + i, ZeroPage())
    requires Stored(view1, ram1, ram2, r, STACK_BOTTOM + i * PAGE_SIZE, ZeroPage())
    ensures Zeroed(view0, ram0, view1, ram2, r, i + 1)
  {
    hide ByteAt;
    forall va: nat
      ensures ByteAt(view1, r, ram2, va) ==
              if STACK_BOTTOM / PAGE_SIZE <= va / PAGE_SIZE < STACK_BOTTOM / PAGE_SIZE + i + 1 then Some(0)
                  else ByteAt(view0, r, ram0, va)
    {
      assert ByteAt(view1, r, ram2, va) ==
             if STACK_BOTTOM + i * PAGE_SIZE <= va < STACK_BOTTOM + i * PAGE_SIZE + PAGE_SIZE then Some(0)
                 else ByteAt(view1, r, ram1, va);
    }
  }

  lemma ZeroedSame(view: View, ram: Ram, view': View, ram': Ram, r: nat, n: nat)
    requires Zeroed(view, ram, view', ram', r, n) && n <= STACK_PAGES
    ensures SameOutside(view, ram, view', ram', r)
    ensures n == STACK_PAGES ==> ZeroBelow(view', r, ram', STACK_TOP)
  {
    hide ByteAt;
  }

  lemma FramesStep(view: View, view': View, r: nat, frames: seq<nat>, frame: nat, b: bool)
    requires StackFrames(view, r, frames) && |frames| < STACK_PAGES
    requires if b then Added(view, view', StackPage(r, |frames|), LeafFor(frame, STACK_FLAGS)) else view' == view
    requires StackPage(r, |frames|) in view' && view'[StackPage(r, |frames|)].frame == frame
    ensures StackFrames(view', r, frames + [frame])
  {
    hide StackPage;
  }

  /** The loop that finds or maps the sixteen pages and clears them. */
  method MapStack(mem: UserMemory) returns (ok: bool, frames: seq<nat>, created: seq<bool>)
    requires mem.Valid()
    modifies mem`ram, mem.spaces`mem, mem.spaces`node, mem.spaces`view, mem.spaces.pmm`freeCount, mem.spaces.pmm`hint,
        mem.spaces.pmm.free
    ensures mem.Valid() && mem.spaces.TeardownPool(mem.Root()) == old(mem.spaces.TeardownPool(mem.Root()))
    ensures Grown(old(mem.spaces.view), mem.spaces.view, mem.Root(), created)
    ensures Extends(old(mem.spaces.node), mem.spaces.node)
    ensures SameOutside(old(mem.spaces.view), old(mem.ram), mem.spaces.view, mem.ram, mem.Root())
    ensures ok ==> |frames| == STACK_PAGES && StackFrames(mem.spaces.view, mem.Root(), frames)
    ensures ok ==> ZeroBelow(mem.spaces.view, mem.Root(), mem.ram, STACK_TOP)
    ensures PaidForAll(old(mem.Budget()), old(mem.Pages()), mem.Budget(), mem.Pages(), ok)
  {
    hide *;
    frames, created := [], [];
    StackStart(mem.spaces.view, mem.spaces.node, mem.ram, mem.Root());
    StackNumbersNext(0);
    for i := 0 to STACK_PAGES
      invariant |frames| == |created| == i && i <= STACK_PAGES
      invariant mem.Valid() && mem.spaces.TeardownPool(mem.Root()) == old(mem.spaces.TeardownPool(mem.Root()))
      invariant Grown(old(mem.spaces.view), mem.spaces.view, mem.Root(), created)
      invariant Extends(old(mem.spaces.node), mem.spaces.node)
      invariant StackFrames(mem.spaces.view, mem.Root(), frames)
      invariant Zeroed(old(mem.spaces.view), old(mem.ram), mem.spaces.view, mem.ram, mem.Root(), i)
      invariant mem.Budget() == old(mem.Budget()) && mem.Pages() == old(mem.Pages()) + StackNumbers(i)
    {
      StackPageIs(mem.Root(), i);
      ghost var view, node, ram, pages := mem.spaces.view, mem.spaces.node, mem.ram, mem.Pages();
      var frame, isNew;
      ok, frame, isNew := EnsurePage(mem, STACK_BOTTOM + i * PAGE_SIZE, STACK_FLAGS);
      StackPaid(old(mem.Budget()), old(mem.Pages()), mem.Budget(), mem.Pages(), i, ok);
      if !ok {
        ZeroedSame(old(mem.spaces.view), old(mem.ram), mem.spaces.view, mem.ram, mem.Root(), i);
        return;
      }
      ExtendsRefl(node);
      ExtendsTrans(old(mem.spaces.node), node, mem.spaces.node);
      GrownStep(old(mem.spaces.view), view, mem.spaces.view, mem.Root(), created, isNew, frame);
      FramesStep(view, mem.spaces.view, mem.Root(), frames, frame, isNew);
      ghost var ram1 := mem.ram;
      mem.WriteInPage(STACK_BOTTOM + i * PAGE_SIZE, frame, ZeroPage());
      ZeroStep(old(mem.spaces.view), old(mem.ram), view, ram, mem.spaces.view, ram1, mem.ram, mem.Root(), i);
      frames, created := frames + [frame], created + [isNew];
    }
    ZeroedSame(old(mem.spaces.view), old(mem.ram), mem.spaces.view, mem.ram, mem.Root(), STACK_PAGES);
    AllPaid(mem);
    ok := true;
    PaidForAllIs(old(mem.Budget()), old(mem.Pages()), mem.Budget(), mem.Pages(), ok);
  }

  /** The stack is mapped exactly if the budget covers its pages and their tables; the budget itself stays. */
  ghost predicate PaidForAll(budget: nat, pages: set<nat>, budget': nat, pages': set<nat>, ok: bool)
  {
    && budget' == budget && (ok <==> Cost(pages + StackNumbers(STACK_PAGES)) <= budget)
    && (ok ==> pages' == pages + StackNumbers(STACK_PAGES))
  }

  ghost predicate Affordable(budget: nat, pages: set<nat>)
  {
    Cost(pages + StackNumbers(STACK_PAGES)) <= budget
  }

  /** With the stack in place, so many frames are left. */
  ghost predicate Taken(budget: nat, pages: set<nat>, free: nat)
  {
    free + Cost(pages + StackNumbers(STACK_PAGES)) == budget
  }

  lemma TakenIs(budget: nat, pages: set<nat>, free: nat)
    ensures Taken(budget, pages, free) <==> free + Cost(pages + StackNumbers(STACK_PAGES)) == budget
  {
    hide Cost, StackNumbers;
  }

  lemma TakenGuard(budget: nat, pages: set<nat>, budget': nat, pages': set<nat>)
    requires GuardPaid(budget, pages, budget', pages')
    ensures forall free: nat :: Taken(budget', pages', free) <==> Taken(budget, pages, free)
  {
    hide Cost, StackNumbers;
    if STACK_GUARD / PAGE_SIZE in pages {
      GuardCost(pages);
    } else {
      assert pages' == pages;
    }
  }

  lemma AffordableIs(budget: nat, pages: set<nat>)
    ensures Affordable(budget, pages) <==> Cost(pages + StackNumbers(STACK_PAGES)) <= budget
  {
    hide Cost, StackNumbers;
  }

  /** Unmapping the guard page does not change what the stack can afford. */
  lemma AffordableGuard(budget: nat, pages: set<nat>, budget': nat, pages': set<nat>)
    requires GuardPaid(budget, pages, budget', pages')
    ensures Affordable(budget, pages) <==> Affordable(budget', pages')
  {
    hide Cost, StackNumbers;
    if STACK_GUARD / PAGE_SIZE in pages {
      GuardCost(pages);
    } else {
      assert pages' == pages;
    }
  }

  lemma PaidForAllIs(budget: nat, pages: set<nat>, budget': nat, pages': set<nat>, ok: bool)
    ensures PaidForAll(budget, pages, budget', pages', ok) <==>
            && budget' == budget && (ok <==> Cost(pages + StackNumbers(STACK_PAGES)) <= budget)
            && (ok ==> pages' == pages + StackNumbers(STACK_PAGES))
  {
    hide Cost, StackNumbers;
  }

  lemma AllPaid(mem: UserMemory)
    ensures Cost(mem.Pages()) <= mem.Budget()
  {
    hide Cost;
  }

  /** One page of the stack, and what its failure says about all of them. */
  lemma StackPaid(budget: nat, pages0: set<nat>, budget': nat, pages': set<nat>, i: nat, ok: bool)
    requires PaidFor(budget, pages0 + StackNumbers(i), budget', pages', STACK_BOTTOM + i * PAGE_SIZE, ok)
    requires i < STACK_PAGES
    ensures budget' == budget && (ok ==> pages' == pages0 + StackNumbers(i + 1))
    ensures !ok ==> PaidForAll(budget, pages0, budget', pages', false)
  {
    hide Cost, StackNumbers;
    StackPageIs(0, i);
    StackNumbersNext(i);
    assert pages0 + StackNumbers(i) + {STACK_BOTTOM / PAGE_SIZE + i} == pages0 + StackNumbers(i + 1);
    StackNumbersGrow(i + 1, STACK_PAGES);
    CostGrows(pages0 + StackNumbers(i + 1), pages0 + StackNumbers(STACK_PAGES));
  }

  lemma StackStart(view: View, node: Nodes, ram: Ram, r: nat)
    ensures Grown(view, view, r, []) && Extends(node, node) && StackFrames(view, r, [])
    ensures Zeroed(view, ram, view, ram, r, 0)
  {
    hide ByteAt;
    assert view - NewPages(r, []) == view;
  }

  lemma StackPageIs(r: nat, i: nat)
    ensures var va := STACK_BOTTOM + i * PAGE_SIZE;
            va % PAGE_SIZE == 0 && (i < STACK_PAGES ==> va < LOWER_HALF_END)
                && Page(r, va / PAGE_SIZE) == StackPage(r, i)
            && va / PAGE_SIZE == STACK_BOTTOM / PAGE_SIZE + i && !STACK_FLAGS.other
  {
  }

  /** The unwind loop: exactly the pages mapped anew go back. */
  method Unwind(mem: UserMemory, created: seq<bool>)
    requires mem.Valid() && |created| <= STACK_PAGES && NewPages(mem.Root(), created) <= mem.spaces.view.Keys
    modifies mem.spaces`mem, mem.spaces`node, mem.spaces`view, mem.spaces.pmm`freeCount, mem.spaces.pmm`hint,
        mem.spaces.pmm.free
    ensures mem.Valid() && mem.spaces.TeardownPool(mem.Root()) == old(mem.spaces.TeardownPool(mem.Root()))
    ensures mem.spaces.view == old(mem.spaces.view) - NewPages(mem.Root(), created)
    ensures Extends(mem.spaces.node, old(mem.spaces.node))
    ensures SameOutside(old(mem.spaces.view), mem.ram, mem.spaces.view, mem.ram, mem.Root())
  {
    hide *;
    mem.ByteIs();
    ExtendsRefl(mem.spaces.node);
    SameItself(mem.spaces.view, mem.ram, mem.Root());
    NoNewPages(mem.spaces.view, mem.Root(), created);
    for i := 0 to |created|
      invariant mem.Valid() && mem.spaces.TeardownPool(mem.Root()) == old(mem.spaces.TeardownPool(mem.Root()))
      invariant mem.spaces.view == old(mem.spaces.view) - NewPages(mem.Root(), created[..i])
      invariant Extends(mem.spaces.node, old(mem.spaces.node))
      invariant SameOutside(old(mem.spaces.view), mem.ram, mem.spaces.view, mem.ram, mem.Root())
    {
      StackPageIs(mem.Root(), i);
      NewPagesPrefix(mem.spaces.view, old(mem.spaces.view), mem.Root(), created, i);
      if created[i] {
        ghost var view, node := mem.spaces.view, mem.spaces.node;
        mem.ByteIs();
        mem.Release(STACK_BOTTOM + i * PAGE_SIZE);
        mem.ByteIs();
        ExtendsTrans(mem.spaces.node, node, old(mem.spaces.node));
        ReleasedOutside(old(mem.spaces.view), view, mem.spaces.view, mem.ram, mem.Root(), i);
      }
    }
    assert created[..|created|] == created;
  }

  lemma NoNewPages(view: View, r: nat, created: seq<bool>)
    ensures view - NewPages(r, created[..0]) == view
  {
  }

  lemma NewPagesPrefix(view: View, view0: View, r: nat, created: seq<bool>, i: nat)
    requires i < |created| && view == view0 - NewPages(r, created[..i]) && NewPages(r, created) <= view0.Keys
    ensures created[i] ==> StackPage(r, i) in view && view - {StackPage(r, i)} == view0 - NewPages(r, created[..i + 1])
    ensures !created[i] ==> view == view0 - NewPages(r, created[..i + 1])
  {
    assert created[..i + 1] == created[..i] + [created[i]];
    NewPagesNext(r, created[..i], created[i]);
    assert created[i] ==> StackPage(r, i) in NewPages(r, created);
  }

  lemma ReleasedOutside(view0: View, view: View, view': View, ram: Ram, r: nat, i: nat)
    requires SameOutside(view0, ram, view, ram, r) && i < STACK_PAGES
    requires forall x: nat | x / PAGE_SIZE != STACK_BOTTOM / PAGE_SIZE + i ::
              ByteAt(view', r, ram, x) == ByteAt(view, r, ram, x)
    ensures SameOutside(view0, ram, view', ram, r)
  {
    hide ByteAt;
  }

  /** The frame behind the guard page, if it was mapped: unmapping does not give it back. */
  ghost function GuardFrame(view: View, r: nat): set<nat>
  {
    if GuardPage(r) in view then {view[GuardPage(r)].frame} else {}
  }

  predicate OnGuard(va: nat)
  {
    va / PAGE_SIZE == STACK_GUARD / PAGE_SIZE
  }

  /** No frame is lost to the address space and the allocator but the given ones. */
  ghost predicate Conserved(mem: UserMemory, pool: set<nat>, lost: set<nat>)
    reads mem, mem.spaces, mem.spaces.pmm, mem.spaces.pmm.usable, mem.spaces.pmm.free
  {
    mem.spaces.TeardownPool(mem.Root()) + lost == pool && mem.spaces.TeardownPool(mem.Root()) !! lost
  }

  lemma GuardIs(r: nat)
    ensures STACK_GUARD % PAGE_SIZE == 0 && STACK_GUARD < LOWER_HALF_END
    ensures GuardPage(r) == Page(r, STACK_GUARD / PAGE_SIZE)
    ensures forall i: nat :: StackPage(r, i) != GuardPage(r)
    ensures forall va: nat :: OnGuard(va) <==> va / PAGE_SIZE == STACK_GUARD / PAGE_SIZE
  {
  }

  /** The guard page below the stack is unmapped; a frame behind it is not given back. */
  method ClearGuard(mem: UserMemory)
    requires mem.Valid()
    modifies mem.spaces`mem, mem.spaces`node, mem.spaces`view, mem.spaces.pmm`freeCount, mem.spaces.pmm`hint,
        mem.spaces.pmm.free
    ensures mem.Valid() && mem.spaces.view == old(mem.spaces.view) - {GuardPage(mem.Root())}
    ensures Extends(mem.spaces.node, old(mem.spaces.node))
    ensures Conserved(mem, old(mem.spaces.TeardownPool(mem.Root())), GuardFrame(old(mem.spaces.view), mem.Root()))
    ensures forall va: nat | !OnGuard(va) :: mem.Byte(va) == old(mem.Byte(va))
    ensures GuardPage(mem.Root()) !in old(mem.spaces.view) ==>
              mem.spaces.node == old(mem.spaces.node) && mem.spaces.pmm.Free() == old(mem.spaces.pmm.Free())
    ensures GuardPaid(old(mem.Budget()), old(mem.Pages()), mem.Budget(), mem.Pages())
  {
    hide *;
    GuardIs(mem.Root());
    mem.Parts();
    mem.PageOfRoot(STACK_GUARD);
    ConservedIs(mem, mem.spaces.TeardownPool(mem.Root()), {});
    GuardFrameIs(mem.spaces.view, mem.Root());
    ExtendsRefl(mem.spaces.node);
    mem.BudgetIs();
    GuardMapped(mem.spaces.view, mem.Root(), mem.Pages());
    GuardPaidIs(mem.Budget(), mem.Pages(), mem.Budget(), mem.Pages());
    var found, _, _ := mem.spaces.QueryPage(mem.pml4, STACK_GUARD);
    if found {
      var _ := mem.Detach(STACK_GUARD);
      WithoutIs(old(mem.Budget()), old(mem.Pages()), mem.Budget() + 1, mem.Pages(), STACK_GUARD);
      GuardPaidIs(old(mem.Budget()), old(mem.Pages()), mem.Budget(), mem.Pages());
      ConservedIs(mem, old(mem.spaces.TeardownPool(mem.Root())), GuardFrame(old(mem.spaces.view), mem.Root()));
    } else {
      assert mem.spaces.view - {GuardPage(mem.Root())} == mem.spaces.view;
    }
  }

  /** The frame behind the guard page is out of the budget, its tables are not. */
  ghost predicate GuardPaid(budget: nat, pages: set<nat>, budget': nat, pages': set<nat>)
  {
    && pages' == pages - {STACK_GUARD / PAGE_SIZE}
    && budget == budget' + if STACK_GUARD / PAGE_SIZE in pages then 1 else 0
  }

  lemma GuardPaidIs(budget: nat, pages: set<nat>, budget': nat, pages': set<nat>)
    ensures GuardPaid(budget, pages, budget', pages') <==>
            && pages' == pages - {STACK_GUARD / PAGE_SIZE}
            && budget == budget' + if STACK_GUARD / PAGE_SIZE in pages then 1 else 0
    ensures STACK_GUARD / PAGE_SIZE !in pages ==> pages - {STACK_GUARD / PAGE_SIZE} == pages
  {
  }

  lemma GuardMapped(view: View, r: nat, pages: set<nat>)
    requires pages == Mapped(view, r)
    ensures PAGE_SIZE > 0 && (STACK_GUARD / PAGE_SIZE in pages <==> GuardPage(r) in view)
  {
    MappedIs(view, r, STACK_GUARD / PAGE_SIZE);
  }

  lemma GuardFrameIs(view: View, r: nat)
    ensures GuardFrame(view, r) == if GuardPage(r) in view then {view[GuardPage(r)].frame} else {}
  {
  }

  lemma ConservedIs(mem: UserMemory, pool: set<nat>, lost: set<nat>)
    ensures Conserved(mem, pool, lost) <==>
            mem.spaces.TeardownPool(mem.Root()) + lost == pool && mem.spaces.TeardownPool(mem.Root()) !! lost
  {
  }

  /** Mapping, filling and unwinding: all of process_setup_user_stack after the guard page. */
  method PlaceStack(mem: UserMemory, args: seq<Argument>) returns (ok: bool, rsp: nat)
    requires mem.Valid() && |args| <= MAX_ARGS
    modifies mem`ram, mem.spaces`mem, mem.spaces`node, mem.spaces`view, mem.spaces.pmm`freeCount, mem.spaces.pmm`hint,
        mem.spaces.pmm.free
    ensures mem.Valid() && mem.spaces.TeardownPool(mem.Root()) == old(mem.spaces.TeardownPool(mem.Root()))
    ensures ok <==> Fits(args) && Affordable(old(mem.Budget()), old(mem.Pages()))
    ensures ok ==>
              WithStack(old(mem.spaces.view), mem.spaces.view, mem.Root())
              && Taken(old(mem.Budget()), old(mem.Pages()), |mem.spaces.pmm.Free()|)
    ensures ok ==>
              rsp == StackPointer(args) && rsp % 16 == 0 && STACK_BOTTOM <= rsp && rsp + 8 * (|args| + 5) <= STACK_TOP
    ensures ok ==>
              Arguments(mem.spaces.view, mem.Root(), mem.ram, rsp, args)
              && ZeroElsewhere(mem.spaces.view, mem.Root(), mem.ram, rsp, args)
    ensures SameOutside(old(mem.spaces.view), old(mem.ram), mem.spaces.view, mem.ram, mem.Root())
    ensures exists created :: Grown(old(mem.spaces.view), mem.spaces.view, mem.Root(), created)
    ensures !ok ==>
              mem.spaces.view == old(mem.spaces.view) && mem.spaces.node == old(mem.spaces.node)
              && mem.spaces.pmm.Free() == old(mem.spaces.pmm.Free())
  {
    hide *;
    mem.Parts();
    SpacesFacts(mem.spaces);
    mem.FreeIsRest();
    ghost var table := mem.spaces.mem;
    rsp := 0;
    var frames, created;
    ok, frames, created := MapStack(mem);
    PaidForAllIs(old(mem.Budget()), old(mem.Pages()), mem.Budget(), mem.Pages(), ok);
    AffordableIs(old(mem.Budget()), old(mem.Pages()));
    if ok {
      ghost var ram := mem.ram;
      ok, rsp := BuildStack(mem, frames, args);
      SameTrans(old(mem.spaces.view), old(mem.ram), mem.spaces.view, ram, mem.spaces.view, mem.ram, mem.Root());
    }
    if ok {
      FitsFacts(args);
      StackPointerAligned(args);
      GrownWithStack(old(mem.spaces.view), mem.spaces.view, mem.Root(), created, frames);
      mem.BudgetIs();
      TakenIs(old(mem.Budget()), old(mem.Pages()), |mem.spaces.pmm.Free()|);
      return;
    }

    ghost var view, node := mem.spaces.view, mem.spaces.node;
    GrownIs(old(mem.spaces.view), view, mem.Root(), created);
    Unwind(mem, created);
    SameTrans(old(mem.spaces.view), old(mem.ram), view, mem.ram, mem.spaces.view, mem.ram, mem.Root());
    StackStart(mem.spaces.view, mem.spaces.node, mem.ram, mem.Root());
    mem.Parts();
    SpacesFacts(mem.spaces);
    NodesRestored(table, old(mem.spaces.node), node, mem.spaces.mem, mem.spaces.node, mem.spaces.view);
    mem.FreeIsRest();
  }

  lemma GrownIs(view: View, view': View, r: nat, created: seq<bool>)
    requires Grown(view, view', r, created)
    ensures |created| <= STACK_PAGES && NewPages(r, created) <= view'.Keys && view' - NewPages(r, created) == view
  {
    hide NewPages;
  }

  lemma SameTrans(view0: View, ram0: Ram, view1: View, ram1: Ram, view2: View, ram2: Ram, r: nat)
    requires SameOutside(view0, ram0, view1, ram1, r) && SameOutside(view1, ram1, view2, ram2, r)
    ensures SameOutside(view0, ram0, view2, ram2, r)
  {
    hide ByteAt;
  }

  /** process_setup_user_stack. */
  method SetupStack(mem: UserMemory, args: seq<Argument>) returns (ok: bool, rsp: nat)
    requires mem.Valid()
    modifies mem`ram, mem.spaces`mem, mem.spaces`node, mem.spaces`view, mem.spaces.pmm`freeCount, mem.spaces.pmm`hint,
        mem.spaces.pmm.free
    ensures mem.Valid()
    ensures ok <==> Fits(args) && Affordable(old(mem.Budget()), old(mem.Pages()))
    ensures ok ==> WithStack(old(mem.spaces.view) - {GuardPage(mem.Root())}, mem.spaces.view, mem.Root())
    ensures ok ==> Taken(old(mem.Budget()), old(mem.Pages()), |mem.spaces.pmm.Free()|)
    ensures ok ==>
              rsp == StackPointer(args) && rsp % 16 == 0 && STACK_BOTTOM <= rsp && rsp + 8 * (|args| + 5) <= STACK_TOP
    ensures ok ==>
              Arguments(mem.spaces.view, mem.Root(), mem.ram, rsp, args)
              && ZeroElsewhere(mem.spaces.view, mem.Root(), mem.ram, rsp, args)
    ensures forall va: nat | !OnStack(va) && !OnGuard(va) :: mem.Byte(va) == old(mem.Byte(va))
    ensures |args| <= MAX_ARGS ==>
              GuardPage(mem.Root()) !in mem.spaces.view
              && Conserved(mem, old(mem.spaces.TeardownPool(mem.Root())), GuardFrame(old(mem.spaces.view), mem.Root()))
    ensures !ok && (|args| > MAX_ARGS || GuardPage(mem.Root()) !in old(mem.spaces.view)) ==>
              mem.spaces.view == old(mem.spaces.view) && mem.spaces.node == old(mem.spaces.node)
                  && mem.spaces.pmm.Free() == old(mem.spaces.pmm.Free())
    ensures !ok && |args| <= MAX_ARGS ==>
              mem.spaces.view == old(mem.spaces.view) - {GuardPage(mem.Root())}
              && Extends(mem.spaces.node, old(mem.spaces.node))
  {
    hide *;
    rsp := 0;
    mem.ByteIs();
    FitsIs(args);
    if |args| > MAX_ARGS {
      return false, rsp;
    }
    GuardIs(mem.Root());
    ClearGuard(mem);
    AffordableGuard(old(mem.Budget()), old(mem.Pages()), mem.Budget(), mem.Pages());
    TakenGuard(old(mem.Budget()), old(mem.Pages()), mem.Budget(), mem.Pages());
    ghost var view, ram := mem.spaces.view, mem.ram;
    ConservedIs(mem, old(mem.spaces.TeardownPool(mem.Root())), GuardFrame(old(mem.spaces.view), mem.Root()));
    mem.ByteIs();
    ok, rsp := PlaceStack(mem, args);
    mem.ByteIs();
    ConservedIs(mem, old(mem.spaces.TeardownPool(mem.Root())), GuardFrame(old(mem.spaces.view), mem.Root()));
    GuardStays(view, mem.spaces.view, mem.Root());
    SameOutsideIs(view, ram, mem.spaces.view, mem.ram, mem.Root());
    assert GuardPage(mem.Root()) !in old(mem.spaces.view) ==> view == old(mem.spaces.view);
  }

  lemma GuardStays(view: View, view': View, r: nat)
    requires GuardPage(r) !in view && exists created :: Grown(view, view', r, created)
    ensures GuardPage(r) !in view'
  {
    hide StackPage, GuardPage;
    GuardIs(r);
    var created :| Grown(view, view', r, created);
    assert GuardPage(r) !in view' - NewPages(r, created);
  }

  lemma SameOutsideIs(view: View, ram: Ram, view': View, ram': Ram, r: nat)
    requires SameOutside(view, ram, view', ram', r)
    ensures forall va: nat | !OnStack(va) :: ByteAt(view', r, ram', va) == ByteAt(view, r, ram, va)
  {
    hide ByteAt, OnStack;
  }
}
