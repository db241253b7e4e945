/**
 Physical frame allocator (mm/pmm.c): two bitmaps of 64-bit words, a counter of free
 frames and a moving search hint. The bitmaps refine two sets of frame numbers.
 */
module Pmm {
  import opened Bytes
  import opened Options
  import opened Words

  const FRAME_SIZE: nat := 4096
  const MAX_TRACKED_FRAMES: nat := 0x100_0000
  const MAX_TRACKED_PHYSICAL_MEMORY: nat := MAX_TRACKED_FRAMES * FRAME_SIZE  // 64 GiB
  const BITMAP_WORDS: nat := 0x4_0000

  // ---------------------------------------------------------------- bitmaps

  predicate FrameBit(bitmap: seq<nat>, f: nat)
  {
    f / 64 < |bitmap| && Bit(bitmap[f / 64], f % 64)
  }

  /** The set of frames a bitmap denotes. */
  ghost function Frames(bitmap: seq<nat>): set<nat>
  {
    set f: nat | f < 64 * |bitmap| && FrameBit(bitmap, f)
  }

  ghost predicate IsBitmap(bitmap: seq<nat>)
  {
    |bitmap| == BITMAP_WORDS && forall i | 0 <= i < |bitmap| :: bitmap[i] < W64
  }

  /** bitmap_test */
  predicate Test(word: nat, frame: nat)
  {
    And(word, Shl64(1, frame % 64)) != 0
  }

  lemma Shl64One(k: nat)
    requires k < 64
    ensures Shl64(1, k) == Pow2(k) < W64
  {
    Pow2Values();
    Pow2Monotone(k, 63);
    assert Pow2(64) == 2 * Pow2(63);
    hide Pow2;
  }

  lemma TestIsBit(word: nat, frame: nat)
    ensures Test(word, frame) <==> Bit(word, frame % 64)
  {
    Shl64One(frame % 64);
    TestBit(word, frame % 64);
  }

  /** bitmap_range_mask: the bits of one word that lie in [first, end). */
  function RangeMask(word: nat, first: nat, end: nat): (mask: nat)
    requires word * 64 < end
  {
    var firstBit := if first > word * 64 then first - word * 64 else 0;
    var endBit := if end < word * 64 + 64 then end - word * 64 else 64;
    if firstBit >= endBit then 0
    else
      var lower := Shl64(W64 - 1, firstBit);
      var upper := if endBit == 64 then W64 - 1 else (Shl64One(endBit); Shl64(1, endBit) - 1);
      And(lower, upper)
  }

  lemma ShiftedOnes(k: nat)
    requires k < 64
    ensures Pow2(k) < W64 && Shl64(W64 - 1, k) == W64 - Pow2(k)
  {
    Shl64One(k);
    var p := Pow2(k);
    assert (W64 - 1) * p == (p - 1) * W64 + (W64 - p);
    ModShift(p - 1, W64 - p);
  }

  lemma ModShift(q: nat, r: nat)
    requires r < W64
    ensures (q * W64 + r) % W64 == r
  {
  }

  lemma RangeMaskBit(word: nat, first: nat, end: nat, i: nat)
    requires word * 64 < end && i < 64
    ensures RangeMask(word, first, end) < W64
    ensures Bit(RangeMask(word, first, end), i) <==> first <= word * 64 + i < end
  {
    var firstBit := if first > word * 64 then first - word * 64 else 0;
    var endBit := if end < word * 64 + 64 then end - word * 64 else 64;
    ZeroBit(i);
    hide Bit, And, Pow2, Shl64;
    if firstBit < endBit {
      var lower := Shl64(W64 - 1, firstBit);
      var upper := if endBit == 64 then W64 - 1 else (Shl64One(endBit); Shl64(1, endBit) - 1);
      Pow2Values();
      ShiftedOnes(firstBit);
      HighMaskBit(64, firstBit, i);
      LowMaskBit(endBit, i);
      if endBit < 64 { Shl64One(endBit); }
      AndBit(lower, upper, i);
      AndBound(lower, upper);
    }
  }

  /** bitmap_set and bitmap_clear on a whole bitmap. */
  function SetBit(word: nat, frame: nat): nat
  {
    Or(word, Shl64(1, frame % 64))
  }

  function ClearBit(word: nat, frame: nat): nat
  {
    Pow2Values();
    Shl64One(frame % 64);
    And(word, Not(Shl64(1, frame % 64), 64))
  }

  lemma SetBitFrames(bitmap: seq<nat>, f: nat)
    requires IsBitmap(bitmap) && f < MAX_TRACKED_FRAMES
    ensures IsBitmap(bitmap[f / 64 := SetBit(bitmap[f / 64], f)])
    ensures Frames(bitmap[f / 64 := SetBit(bitmap[f / 64], f)]) == Frames(bitmap) + {f}
  {
    var k, m := f / 64, Shl64(1, f % 64);
    Pow2Values();
    Shl64One(f % 64);
    OrBound(bitmap[k], m, 64);
    var updated := bitmap[k := SetBit(bitmap[k], f)];
    forall g: nat ensures g in Frames(updated) <==> g in Frames(bitmap) || g == f {
      OrBit(bitmap[k], m, g % 64);
      OneBit(f % 64, g % 64);
      assert g == 64 * (g / 64) + g % 64;
      if g / 64 == k { assert FrameBit(updated, g) == Bit(updated[k], g % 64); }
    }
  }

  lemma ClearBitFrames(bitmap: seq<nat>, f: nat)
    requires IsBitmap(bitmap) && f < MAX_TRACKED_FRAMES
    ensures IsBitmap(bitmap[f / 64 := ClearBit(bitmap[f / 64], f)])
    ensures Frames(bitmap[f / 64 := ClearBit(bitmap[f / 64], f)]) == Frames(bitmap) - {f}
  {
    var k, m := f / 64, Shl64(1, f % 64);
    Pow2Values();
    Shl64One(f % 64);
    AndBound(bitmap[k], Not(m, 64));
    var updated := bitmap[k := ClearBit(bitmap[k], f)];
    forall g: nat ensures g in Frames(updated) <==> g in Frames(bitmap) && g != f {
      AndBit(bitmap[k], Not(m, 64), g % 64);
      NotBit(m, 64, g % 64);
      OneBit(f % 64, g % 64);
      assert g == 64 * (g / 64) + g % 64;
      if g / 64 == k { assert FrameBit(updated, g) == Bit(updated[k], g % 64); }
    }
  }

  /** The candidates of one word are the free frames of the interval in that word, lowest first. */
  lemma CandidateFrames(free: seq<nat>, k: nat, start: nat, end: nat)
    requires k < |free| && 64 * k < end
    ensures var c := And(free[k], RangeMask(k, start, end));
            var here := Frames(free) * Range(start, end) * Range(64 * k, 64 * k + 64);
            && (c == 0 <==> here == {})
            && (c != 0 ==> 64 * k + Ctz(c) in here && forall f | f in here :: 64 * k + Ctz(c) <= f)
  {
    hide Bit, And, RangeMask, Pow2, Ctz;
    var m := RangeMask(k, start, end);
    var c := And(free[k], m);
    var here := Frames(free) * Range(start, end) * Range(64 * k, 64 * k + 64);
    forall i: nat | i < 64 ensures Bit(c, i) <==> 64 * k + i in here {
      AndBit(free[k], m, i);
      RangeMaskBit(k, start, end, i);
      assert (64 * k + i) / 64 == k && (64 * k + i) % 64 == i;
      assert FrameBit(free, 64 * k + i) == Bit(free[k], i);
    }
    if c != 0 {
      NonZeroHasBit(c);
      RangeMaskBit(k, start, end, 0);
      AndBound(free[k], m);
      Pow2Values();
      if Ctz(c) >= 64 { BitBound(c, 64, Ctz(c)); }
      forall f | f in here ensures 64 * k + Ctz(c) <= f {
        assert Bit(c, f - 64 * k);
      }
    } else {
      forall f ensures f !in here {
        if f in here { ZeroBit(f - 64 * k); }
      }
    }
  }

  // ------------------------------------------------------- marking one word

  predicate AtLeast(first: nat, f: nat)
  {
    first <= f
  }

  /** The frames of the half-open interval [first, end). */
  ghost function Range(first: nat, end: nat): (r: set<nat>)
    ensures forall f :: f in r <==> first <= f < end
  {
    set f: nat | f < end && AtLeast(first, f)
  }

  lemma OrFrame(bitmap: seq<nat>, k: nat, mask: nat, f: nat)
    requires k < |bitmap|
    ensures f in Frames(bitmap[k := Or(bitmap[k], mask)]) <==> f in Frames(bitmap) || f in BitSet(64 * k, mask, 64)
  {
    hide Or, Bit;
    var word, i := f / 64, f % 64;
    assert f == 64 * word + i;
    if word == k {
      OrBit(bitmap[k], mask, i);
      assert f in BitSet(64 * k, mask, 64) <==> Bit(mask, i);
      assert f in Frames(bitmap) <==> Bit(bitmap[k], i);
    }
  }

  lemma OrFrames(bitmap: seq<nat>, k: nat, mask: nat)
    requires IsBitmap(bitmap) && k < |bitmap| && mask < W64
    ensures IsBitmap(bitmap[k := Or(bitmap[k], mask)])
    ensures Frames(bitmap[k := Or(bitmap[k], mask)]) == Frames(bitmap) + BitSet(64 * k, mask, 64)
  {
    hide Or, Frames, BitSet;
    Pow2Values();
    OrBound(bitmap[k], mask, 64);
    var updated := bitmap[k := Or(bitmap[k], mask)];
    forall f: nat ensures f in Frames(updated) <==> f in Frames(bitmap) || f in BitSet(64 * k, mask, 64) {
      OrFrame(bitmap, k, mask, f);
    }
  }

  lemma MaskFrames(k: nat, first: nat, end: nat)
    requires k * 64 < end
    ensures RangeMask(k, first, end) < W64
    ensures BitSet(64 * k, RangeMask(k, first, end), 64) == Range(first, end) * Range(64 * k, 64 * k + 64)
  {
    RangeMaskBit(k, first, end, 0);
    forall f: nat | 64 * k <= f < 64 * k + 64
      ensures BitAt(64 * k, RangeMask(k, first, end), f) <==> first <= f < end
    {
      RangeMaskBit(k, first, end, f - 64 * k);
    }
  }

  function NewBits(usable: nat, mask: nat): nat
  {
    if usable < W64 then (Pow2Values(); And(mask, Not(usable, 64))) else 0
  }

  /** `mask & ~usable[k]` selects the frames of the mask that are not yet usable. */
  lemma NewlyUsable(usable: seq<nat>, k: nat, mask: nat)
    requires IsBitmap(usable) && k < |usable| && mask < W64
    ensures NewBits(usable[k], mask) < W64
    ensures BitSet(64 * k, NewBits(usable[k], mask), 64) == BitSet(64 * k, mask, 64) - Frames(usable)
  {
    hide Bit, And, Not, Pow2;
    Pow2Values();
    var newly := And(mask, Not(usable[k], 64));
    AndBound(mask, Not(usable[k], 64));
    forall f: nat ensures f in BitSet(64 * k, newly, 64) <==> f in BitSet(64 * k, mask, 64) && f !in Frames(usable) {
      if 64 * k <= f < 64 * k + 64 {
        var i := f - 64 * k;
        AndBit(mask, Not(usable[k], 64), i);
        NotBit(usable[k], 64, i);
        assert f / 64 == k && f % 64 == i;
        assert BitAt(64 * k, newly, f) == Bit(newly, i);
        assert BitAt(64 * k, mask, f) == Bit(mask, i);
        assert FrameBit(usable, f) == Bit(usable[k], i);
      }
    }
  }

  lemma PopCountFrames(k: nat, v: nat)
    requires v < W64
    ensures |BitSet(64 * k, v, 64)| == PopCount(v)
  {
    Pow2Values();
    BitSetCardinality(64 * k, v, 64);
    PopCountIsBitsBelow(v, 64);
  }

  /** Bitmaps, counters and search limit agree. */
  ghost predicate Consistent(usable: seq<nat>, free: seq<nat>, trackedUsable: nat, freeCount: nat, limit: nat)
  {
    && IsBitmap(usable) && IsBitmap(free)
    && Frames(free) <= Frames(usable)
    && trackedUsable == |Frames(usable)| && freeCount == |Frames(free)|
    && (forall f | f in Frames(usable) :: 1 <= f < limit)
  }

  /** One iteration of the loop of mark_usable_frames. */
  lemma MarkWord(usable: seq<nat>, free: seq<nat>, tracked: nat, count: nat, limit: nat, k: nat, first: nat, end: nat)
    requires Consistent(usable, free, tracked, count, limit)
    requires k < |usable| == |free| && 64 * k < end && 1 <= first && end <= limit
    ensures var mask := RangeMask(k, first, end);
            var newly := NewBits(usable[k], mask);
            var here := Range(first, end) * Range(64 * k, 64 * k + 64);
            var usable', free' := usable[k := Or(usable[k], mask)], free[k := Or(free[k], newly)];
            && Consistent(usable', free', tracked + PopCount(newly), count + PopCount(newly), limit)
            && Frames(usable') == Frames(usable) + here
            && Frames(free') == Frames(free) + (here - Frames(usable))
  {
    hide Frames, BitSet, Or, RangeMask, NewBits, PopCount;
    var mask := RangeMask(k, first, end);
    MaskFrames(k, first, end);
    NewlyUsable(usable, k, mask);
    var newly := NewBits(usable[k], mask);
    OrFrames(usable, k, mask);
    OrFrames(free, k, newly);
    PopCountFrames(k, newly);
    GrowSets(Frames(usable), Frames(free), BitSet(64 * k, mask, 64), BitSet(64 * k, newly, 64), limit);
  }

  lemma GrowSets(usable: set<nat>, free: set<nat>, here: set<nat>, added: set<nat>, limit: nat)
    requires free <= usable && added == here - usable
    requires forall f | f in usable + here :: 1 <= f < limit
    ensures free + added <= usable + here
    ensures |usable + here| == |usable| + |added| && |free + added| == |free| + |added|
  {
    assert usable + here == usable + added;
    assert usable !! added && free !! added;
  }

  lemma {:induction false} RangeCardinality(first: nat, end: nat)
    requires first <= end
    ensures |Range(first, end)| == end - first
    decreases end
  {
    if first == end {
      assert Range(first, end) == {};
    } else {
      RangeCardinality(first, end - 1);
      assert Range(first, end) == Range(first, end - 1) + {end - 1};
    }
  }

  lemma RunFits(frames: set<nat>, start: nat, count: nat)
    requires RunIn(frames, start, count)
    ensures count <= |frames|
  {
    RangeCardinality(start, start + count);
    assert Range(start, start + count) <= frames;
    SubsetCardinality(Range(start, start + count), frames);
  }

  lemma RunEnds(frames: set<nat>, start: nat, count: nat)
    requires count >= 1
    ensures RunIn(frames, start, count) ==> start in frames && start + count - 1 in frames
    ensures count == 1 ==> (RunIn(frames, start, count) <==> start in frames)
  {
  }

  lemma NoRunOfOne(frames: set<nat>)
    ensures NoRun(frames, 1) <==> frames == {}
  {
    forall s: nat ensures RunIn(frames, s, 1) <==> s in frames { RunEnds(frames, s, 1); }
    if frames != {} {
      var f :| f in frames;
      assert RunIn(frames, f, 1);
    }
  }

  lemma {:induction false} SubsetCardinality<T>(a: set<T>, b: set<T>)
    requires a <= b
    ensures |a| <= |b|
  {
    assert b == a + (b - a);
  }

  lemma RangeStep(first: nat, end: nat, k: nat)
    ensures Range(first, end) * Range(0, 64 * k + 64)
         == Range(first, end) * Range(0, 64 * k) + Range(first, end) * Range(64 * k, 64 * k + 64)
  {
  }

  lemma GrowBoth(u0: set<nat>, f0: set<nat>, done: set<nat>, here: set<nat>)
    ensures u0 + done + here == u0 + (done + here)
    ensures f0 + (done - u0) + (here - (u0 + done)) == f0 + ((done + here) - u0)
  {
  }

  // -------------------------------------------------------------- allocator

  /** One entry of the boot memory map. */
  datatype Region = Region(usable: bool, base: nat, length: nat)

  function SaturatingAdd(left: nat, right: nat): nat
  {
    if left + right >= W64 then W64 - 1 else left + right
  }

  /** Frame `f` lies wholly inside the region. */
  predicate Covers(region: Region, f: nat)
  {
    region.usable && region.base <= f * FRAME_SIZE && (f + 1) * FRAME_SIZE <= region.base + region.length
  }

  predicate OwnedBy(regions: seq<Option<Region>>, f: nat)
  {
    1 <= f && exists i :: 0 <= i < |regions| && regions[i].Some? && Covers(regions[i].value, f)
  }

  /** The frames the allocator should own for a boot memory map. */
  ghost function WholeFrames(regions: seq<Option<Region>>): set<nat>
  {
    set f: nat | f < MAX_TRACKED_FRAMES && OwnedBy(regions, f)
  }

  ghost function OwnedFrames(region: Region): set<nat>
  {
    set f: nat | f < MAX_TRACKED_FRAMES && f >= 1 && Covers(region, f)
  }

  /** align_up_frame of the base, skipping frame 0. */
  function FirstFrame(base: nat): (first: nat)
    ensures first >= 1
  {
    var first := base / FRAME_SIZE + (if base % FRAME_SIZE != 0 then 1 else 0);
    if first == 0 then 1 else first
  }

  /** align_down_frame of the saturated and clipped end. */
  function EndFrame(base: nat, length: nat): (end: nat)
    ensures end <= MAX_TRACKED_FRAMES
  {
    var end := SaturatingAdd(base, length);
    (if end > MAX_TRACKED_PHYSICAL_MEMORY then MAX_TRACKED_PHYSICAL_MEMORY else end) / FRAME_SIZE
  }

  /** Rounding the start up and the end down selects exactly the whole frames. */
  lemma RegionFrames(base: nat, length: nat)
    requires base < W64 && length < W64
    ensures OwnedFrames(Region(true, base, length)) == Range(FirstFrame(base), EndFrame(base, length))
    ensures length == 0 || base >= MAX_TRACKED_PHYSICAL_MEMORY ==> OwnedFrames(Region(true, base, length)) == {}
  {
    var owned := OwnedFrames(Region(true, base, length));
    forall f: nat ensures f in owned <==> FirstFrame(base) <= f < EndFrame(base, length) {
      if 1 <= f < MAX_TRACKED_FRAMES {
        assert base <= f * FRAME_SIZE <==> FirstFrame(base) <= f;
        assert (f + 1) * FRAME_SIZE <= base + length <==> f < EndFrame(base, length);
      }
    }
  }

  lemma WholeFramesPrefix(regions: seq<Option<Region>>, n: nat)
    requires n <= |regions|
    ensures n == 0 ==> WholeFrames(regions[..n]) == {}
    ensures n < |regions| && regions[n].Some? ==>
              WholeFrames(regions[..n + 1]) == WholeFrames(regions[..n]) + OwnedFrames(regions[n].value)
    ensures n < |regions| && regions[n].Some? && !regions[n].value.usable ==> OwnedFrames(regions[n].value) == {}
  {
    if n < |regions| && regions[n].Some? {
      forall f: nat | f >= 1
        ensures OwnedBy(regions[..n + 1], f) <==> OwnedBy(regions[..n], f) || Covers(regions[n].value, f)
      {
        if Covers(regions[n].value, f) {
          assert regions[..n + 1][n] == regions[n];
        }
        if OwnedBy(regions[..n], f) {
          var i :| 0 <= i < n && regions[..n][i].Some? && Covers(regions[..n][i].value, f);
          assert regions[..n + 1][i] == regions[i];
        }
      }
    }
  }

  lemma EmptyBitmap(bitmap: seq<nat>)
    requires |bitmap| == BITMAP_WORDS && forall i | 0 <= i < |bitmap| :: bitmap[i] == 0
    ensures IsBitmap(bitmap) && Frames(bitmap) == {}
  {
    forall f: nat ensures !FrameBit(bitmap, f) { ZeroBit(f % 64); }
  }

  /** All frames of a run are free. */
  predicate RunIn(frames: set<nat>, start: nat, count: nat)
  {
    forall f: nat | start <= f < start + count :: f in frames
  }

  /** There is no run of `count` consecutive frames in the set. */
  ghost predicate NoRun(frames: set<nat>, count: nat)
  {
    forall s: nat :: !RunIn(frames, s, count)
  }

  /** Next fit for runs: the first one at or above the hint, or the first of all if there is none there. */
  ghost predicate NextRun(frames: set<nat>, hint: nat, start: nat, count: nat)
  {
    && (forall s: nat | hint <= s && RunIn(frames, s, count) :: hint <= start <= s)
    && (start < hint ==> forall s: nat | RunIn(frames, s, count) :: start <= s)
  }

  /** For single frames that is next fit as pmm_allocate_frame has it. */
  lemma NextRunOfOne(frames: set<nat>, hint: nat, f: nat)
    ensures NextRun(frames, hint, f, 1) <==>
              && (forall g | g in frames && hint <= g :: hint <= f <= g)
              && (f < hint ==> forall g | g in frames :: f <= g)
  {
    hide RunIn;
    forall s: nat ensures RunIn(frames, s, 1) <==> s in frames { RunEnds(frames, s, 1); }
  }

  class FrameAllocator {
    var usable: array<nat>
    var free: array<nat>
    var trackedUsable: nat
    var freeCount: nat
    var limit: nat
    var hint: nat
    var initialized: bool

    ghost function Usable(): set<nat>
      reads this`usable, usable
    {
      Frames(usable[..])
    }

    ghost function Free(): set<nat>
      reads this`free, free
    {
      Frames(free[..])
    }

    ghost predicate Valid()
      reads this, usable, free
    {
      && usable != free && usable.Length == free.Length == BITMAP_WORDS
      && Consistent(usable[..], free[..], trackedUsable, freeCount, limit)
      && 1 <= hint <= limit <= MAX_TRACKED_FRAMES
    }

    /** The state before pmm_initialize: zeroed static storage. */
    constructor ()
      ensures Valid() && fresh(usable) && fresh(free)
      ensures Usable() == {} && Free() == {} && !initialized
    {
      usable := new nat[BITMAP_WORDS](_ => 0);
      free := new nat[BITMAP_WORDS](_ => 0);
      trackedUsable, freeCount := 0, 0;
      limit, hint := 1, 1;
      initialized := false;
      new;
      forall f: nat ensures !FrameBit(usable[..], f) && !FrameBit(free[..], f) { ZeroBit(f % 64); }
    }

    /** The loop body of mark_usable_frames. */
    method MarkUsableWord(word: nat, first: nat, end: nat)
      requires Valid() && 1 <= first && end <= limit && 64 * word < end
      modifies this`trackedUsable, this`freeCount, usable, free
      ensures Valid()
      ensures Usable() == old(Usable()) + Range(first, end) * Range(64 * word, 64 * word + 64)
      ensures Free() == old(Free()) + (Range(first, end) * Range(64 * word, 64 * word + 64) - old(Usable()))
    {
      hide Frames, Consistent, Range, RangeMask, NewBits, Or, PopCount;
      ghost var u, f := usable[..], free[..];
      MarkWord(u, f, trackedUsable, freeCount, limit, word, first, end);
      var mask := RangeMask(word, first, end);
      var newly := NewBits(usable[word], mask);
      usable[word] := Or(usable[word], mask);
      free[word] := Or(free[word], newly);
      assert usable[..] == u[word := Or(u[word], mask)];
      assert free[..] == f[word := Or(f[word], newly)];
      trackedUsable := trackedUsable + PopCount(newly);
      freeCount := freeCount + PopCount(newly);
    }

    /** mark_usable_frames */
    method MarkUsableFrames(first: nat, end: nat)
      requires Valid() && 1 <= first && end <= limit
      modifies this`trackedUsable, this`freeCount, usable, free
      ensures Valid()
      ensures Usable() == old(Usable()) + Range(first, end)
      ensures Free() == old(Free()) + (Range(first, end) - old(Usable()))
    {
      hide *;
      if first >= end { return; }
      var lastWord := (end - 1) / 64;
      var word := first / 64;
      ghost var u0, f0 := Usable(), Free();
      ghost var done: set<nat> := {};
      while word <= lastWord
        invariant first / 64 <= word <= lastWord + 1
        invariant Valid()
        invariant done == Range(first, end) * Range(0, 64 * word)
        invariant Usable() == u0 + done
        invariant Free() == f0 + (done - u0)
      {
        ghost var here := Range(first, end) * Range(64 * word, 64 * word + 64);
        RangeStep(first, end, word);
        GrowBoth(u0, f0, done, here);
        MarkUsableWord(word, first, end);
        done := done + here;
        word := word + 1;
      }
      assert done == Range(first, end);
    }

    /** mark_usable_range: the whole frames of one usable region, except frame 0. */
    method MarkUsableRange(base: nat, length: nat)
      requires Valid() && base < W64 && length < W64
      modifies this`trackedUsable, this`freeCount, this`limit, usable, free
      ensures Valid() && limit >= old(limit)
      ensures var add := OwnedFrames(Region(true, base, length));
              Usable() == old(Usable()) + add && Free() == old(Free()) + (add - old(Usable()))
    {
      hide *;
      RegionFrames(base, length);
      if length == 0 || base >= MAX_TRACKED_PHYSICAL_MEMORY {
        return;
      }
      var end := EndFrame(base, length);
      RaiseLimit(end);
      MarkUsableFrames(FirstFrame(base), end);
    }

    method RaiseLimit(end: nat)
      requires Valid() && end <= MAX_TRACKED_FRAMES
      modifies this`limit
      ensures Valid() && limit >= old(limit) && limit >= end
      ensures Usable() == old(Usable()) && Free() == old(Free())
    {
      if end > limit {
        limit := end;
      }
    }

    /**
     pmm_initialize. A missing entry aborts with the regions before it marked and the
     allocator not initialized.
     */
    method Initialize(regions: seq<Option<Region>>) returns (ok: bool)
      requires forall i | 0 <= i < |regions| && regions[i].Some? ::
                 regions[i].value.base < W64 && regions[i].value.length < W64
      requires usable != free && usable.Length == BITMAP_WORDS && free.Length == BITMAP_WORDS
      modifies this, usable, free
      ensures usable == old(usable) && free == old(free)
      ensures Valid() && initialized == ok
      ensures (forall i | 0 <= i < |regions| :: regions[i].Some?) ==>
                && Usable() == WholeFrames(regions) && Free() == Usable()
                && (ok <==> WholeFrames(regions) != {})
      ensures ok ==> forall i | 0 <= i < |regions| :: regions[i].Some?
    {
      forall i | 0 <= i < usable.Length { usable[i] := 0; }
      forall i | 0 <= i < free.Length { free[i] := 0; }
      trackedUsable, freeCount, limit, hint, initialized := 0, 0, 1, 1, false;
      EmptyBitmap(usable[..]);
      EmptyBitmap(free[..]);
      hide Frames, OwnedFrames, WholeFrames, IsBitmap;
      var complete := MarkRegions(regions);
      if !complete {
        return false;
      }
      initialized := freeCount != 0;
      ok := initialized;
    }

    /** The loop of pmm_initialize. */
    method MarkRegions(regions: seq<Option<Region>>) returns (complete: bool)
      requires Valid() && Usable() == {} && Free() == {}
      requires forall i | 0 <= i < |regions| && regions[i].Some? ::
                 regions[i].value.base < W64 && regions[i].value.length < W64
      modifies this`trackedUsable, this`freeCount, this`limit, usable, free
      ensures Valid()
      ensures complete <==> forall i | 0 <= i < |regions| :: regions[i].Some?
      ensures complete ==> Usable() == WholeFrames(regions) && Free() == Usable()
    {
      hide *;
      WholeFramesPrefix(regions, 0);
      for i := 0 to |regions|
        invariant Valid()
        invariant Usable() == WholeFrames(regions[..i]) && Free() == Usable()
        invariant forall j | 0 <= j < i :: regions[j].Some?
      {
        if regions[i].None? {
          return false;
        }
        WholeFramesPrefix(regions, i);
        if regions[i].value.usable {
          assert regions[i].value == Region(true, regions[i].value.base, regions[i].value.length);
          MarkUsableRange(regions[i].value.base, regions[i].value.length);
        }
      }
      assert regions[..|regions|] == regions;
      complete := true;
    }

    /** find_free_frame: the least free frame of [start, end), or 0. */
    method FindFreeFrame(start: nat, end: nat) returns (frame: nat)
      requires Valid() && 1 <= start && end <= limit
      ensures frame == 0 <==> Free() * Range(start, end) == {}
      ensures frame != 0 ==>
                frame in Free() * Range(start, end) && forall f | f in Free() * Range(start, end) :: frame <= f
    {
      if start >= end {
        return 0;
      }
      var lastWord := (end - 1) / 64;
      var word := start / 64;
      hide *;
      while word <= lastWord
        invariant start / 64 <= word <= lastWord + 1
        invariant forall f | f in Free() * Range(start, end) :: f >= 64 * word
      {
        CandidateFrames(free[..], word, start, end);
        var candidates := And(free[word], RangeMask(word, start, end));
        if candidates != 0 {
          frame := word * 64 + Ctz(candidates);
          ghost var here := Frames(free[..]) * Range(start, end) * Range(64 * word, 64 * word + 64);
          assert frame in here;
          forall f | f in Free() * Range(start, end) ensures frame <= f {
            if f < 64 * word + 64 { assert f in here; }
          }
          return;
        }
        forall f | f in Free() * Range(start, end) ensures f >= 64 * word + 64 {
          assert f !in Frames(free[..]) * Range(start, end) * Range(64 * word, 64 * word + 64);
        }
        word := word + 1;
      }
      return 0;
    }

    /** bitmap_clear on one frame that is taken, with the counter. */
    method Take(frame: nat)
      requires Valid() && frame in Free()
      modifies this`freeCount, free
      ensures Valid() && Free() == old(Free()) - {frame} && Usable() == old(Usable())
    {
      ghost var f := free[..];
      ClearBitFrames(f, frame);
      hide Frames, ClearBit;
      free[frame / 64] := ClearBit(free[frame / 64], frame);
      assert free[..] == f[frame / 64 := ClearBit(f[frame / 64], frame)];
      freeCount := freeCount - 1;
    }

    /** bitmap_set on one usable frame that is given back, with the counter. */
    method Give(frame: nat)
      requires Valid() && frame in Usable() && frame !in Free()
      modifies this`freeCount, free
      ensures Valid() && Free() == old(Free()) + {frame} && Usable() == old(Usable())
    {
      ghost var f := free[..];
      SetBitFrames(f, frame);
      hide Frames, SetBit;
      free[frame / 64] := SetBit(free[frame / 64], frame);
      assert free[..] == f[frame / 64 := SetBit(f[frame / 64], frame)];
      freeCount := freeCount + 1;
    }

    method MoveHint(frame: nat)
      requires Valid() && 1 <= frame
      modifies this`hint
      ensures Valid() && hint == if frame >= limit then 1 else frame
      ensures Free() == old(Free()) && Usable() == old(Usable())
    {
      hint := frame;
      if hint >= limit {
        hint := 1;
      }
    }

    /** The two searches of pmm_allocate_frame. */
    method NextFit() returns (frame: nat)
      requires Valid()
      ensures frame == 0 <==> Free() == {}
      ensures frame != 0 ==> frame in Free()
      ensures frame != 0 ==> forall f | f in Free() && hint <= f :: hint <= frame <= f
      ensures frame != 0 && frame < hint ==> forall f | f in Free() :: frame <= f
    {
      assert forall f | f in Free() :: 1 <= f < limit;
      hide Frames, Range, IsBitmap;
      frame := FindFreeFrame(hint, limit);
      assert forall f | f in Free() && f !in Free() * Range(hint, limit) :: f < hint;
      if frame == 0 && hint > 1 {
        frame := FindFreeFrame(1, hint);
        assert forall f | f in Free() :: f in Free() * Range(1, hint);
      }
    }

    /**
     pmm_allocate_frame: next fit. It fails only when nothing is free; otherwise it takes
     the least free frame at or above the hint, or the least free frame of all.
     */
    method AllocateFrame() returns (address: nat)
      requires Valid()
      modifies this`freeCount, this`hint, free
      ensures Valid() && Usable() == old(Usable())
      ensures address == 0 <==> !initialized || old(Free()) == {}
      ensures address == 0 ==> Free() == old(Free()) && hint == old(hint)
      ensures address != 0 ==>
                var frame := address / FRAME_SIZE;
                && address == frame * FRAME_SIZE && frame in old(Free()) && Free() == old(Free()) - {frame}
                && (forall f | f in old(Free()) && old(hint) <= f :: old(hint) <= frame <= f)
                && (frame < old(hint) ==> forall f | f in old(Free()) :: frame <= f)
                && hint == (if frame + 1 >= limit then 1 else frame + 1)
    {
      hide Frames, IsBitmap, Range, RunIn, NoRun, Valid, Usable, Free;
      if !initialized {
        return 0;
      }
      var frame := NextFit();
      if frame == 0 {
        return 0;
      }
      Take(frame);
      MoveHint(frame + 1);
      address := frame * FRAME_SIZE;
    }

    /** pmm_free_frame: accepts exactly the addresses of allocated usable frames. */
    method FreeFrame(address: nat) returns (ok: bool)
      requires Valid()
      modifies this`freeCount, this`hint, free
      ensures Valid() && Usable() == old(Usable())
      ensures ok <==> initialized && address % FRAME_SIZE == 0 && address / FRAME_SIZE in old(Usable()) - old(Free())
      ensures Free() == if ok then old(Free()) + {address / FRAME_SIZE} else old(Free())
      ensures hint == if ok && address / FRAME_SIZE < old(hint) then address / FRAME_SIZE else old(hint)
    {
      if !initialized || address == 0 || address % FRAME_SIZE != 0 {
        return false;
      }
      var frame := address / FRAME_SIZE;
      if frame >= MAX_TRACKED_FRAMES {
        return false;
      }
      TestIsBit(usable[frame / 64], frame);
      TestIsBit(free[frame / 64], frame);
      if !Test(usable[frame / 64], frame) || Test(free[frame / 64], frame) {
        return false;
      }
      assert frame in Usable() && frame !in Free();
      hide *;
      Give(frame);
      if frame < hint {
        MoveHint(frame);
      }
      ok := true;
    }

    /**
     The scan loop of pmm_alloc_pages over [from, to): the first run of `count` free frames
     that ends below `to`, or 0.
     */
    method FindRun(from: nat, to: nat, count: nat) returns (start: nat)
      requires Valid() && 1 <= from && to <= limit && count >= 1
      ensures start != 0 ==> from <= start && start + count <= to && RunIn(Free(), start, count)
      ensures start == 0 ==> forall s | from <= s && s + count <= to :: !RunIn(Free(), s, count)
      ensures start != 0 ==> forall s | from <= s < start :: !RunIn(Free(), s, count)
    {
      var consecutive := 0;
      start := 0;
      var frame := from;
      while frame < to
        invariant from <= frame && (frame <= to || frame == from)
        invariant 0 <= consecutive < count && consecutive <= frame - from
        invariant consecutive > 0 ==> start == frame - consecutive
        invariant forall f | frame - consecutive <= f < frame :: f in Free()
        invariant frame - consecutive == from || frame - consecutive - 1 !in Free()
        invariant forall s | from <= s && s + count <= frame :: !RunIn(Free(), s, count)
      {
        TestIsBit(free[frame / 64], frame);
        if Test(free[frame / 64], frame) {
          assert frame in Free();
          if consecutive == 0 {
            start := frame;
          }
          consecutive := consecutive + 1;
          if consecutive == count {
            return;
          }
        } else {
          assert frame !in Free();
          consecutive := 0;
        }
        frame := frame + 1;
      }
      start := 0;
    }

    /** The two scans of pmm_alloc_pages find a run if there is one anywhere. */
    method FindRunAnywhere(count: nat) returns (start: nat)
      requires Valid() && count >= 1
      ensures start == 0 <==> NoRun(Free(), count)
      ensures start != 0 ==>
                start + count <= limit && RunIn(Free(), start, count) && NextRun(Free(), hint, start, count)
    {
      assert forall f | f in Free() :: 1 <= f < limit;
      assert 1 <= hint <= limit;
      hide Frames, IsBitmap;
      start := 0;
      if freeCount < count {
        forall s: nat ensures !RunIn(Free(), s, count) {
          if RunIn(Free(), s, count) { RunFits(Free(), s, count); }
        }
        return;
      }
      forall s: nat | RunIn(Free(), s, count) ensures 1 <= s && s + count <= limit {
        RunEnds(Free(), s, count);
      }
      hide RunIn;
      start := FindRun(hint, limit, count);
      if start == 0 && hint > 1 {
        start := FindRun(1, if hint + count < limit then hint + count else limit, count);
      }
    }

    /** pmm_alloc_pages: fails only when no run of `count` free frames exists. */
    method AllocPages(count: nat) returns (address: nat)
      requires Valid()
      modifies this`freeCount, this`hint, free
      ensures Valid() && Usable() == old(Usable())
      ensures address == 0 <==> !initialized || count == 0 || NoRun(old(Free()), count)
      ensures address == 0 ==> Free() == old(Free()) && hint == old(hint)
      ensures address != 0 ==>
                var start := address / FRAME_SIZE;
                && address == start * FRAME_SIZE && RunIn(old(Free()), start, count)
                && Free() == old(Free()) - Range(start, start + count)
                && NextRun(old(Free()), old(hint), start, count)
                && hint == (if start + count >= limit then 1 else start + count)
    {
      hide Frames, IsBitmap, Range, RunIn, NoRun, NextRun, Valid, Usable, Free;
      if count == 0 {
        return 0;
      }
      if count == 1 {
        NoRunOfOne(Free());
        address := AllocateFrame();
        var f := address / FRAME_SIZE;
        RunEnds(old(Free()), f, 1);
        NextRunOfOne(old(Free()), old(hint), f);
        assert Range(f, f + 1) == {f};
        return;
      }
      if !initialized {
        return 0;
      }
      var start := FindRunAnywhere(count);
      if start == 0 {
        return 0;
      }
      TakeRun(start, count);
      MoveHint(start + count);
      address := start * FRAME_SIZE;
    }

    method TakeRun(start: nat, count: nat)
      requires Valid() && RunIn(Free(), start, count)
      modifies this`freeCount, free
      ensures Valid() && Usable() == old(Usable())
      ensures Free() == old(Free()) - Range(start, start + count)
    {
      hide Frames, IsBitmap, Range, Valid;
      assert Range(start, start) == {};
      for i := 0 to count
        invariant Valid() && Usable() == old(Usable())
        invariant Free() == old(Free()) - Range(start, start + i)
      {
        Take(start + i);
        assert Range(start, start + i + 1) == Range(start, start + i) + {start + i};
      }
    }

    method GiveRun(start: nat, count: nat)
      requires Valid() && RunIn(Usable() - Free(), start, count)
      modifies this`freeCount, free
      ensures Valid() && Usable() == old(Usable())
      ensures Free() == old(Free()) + Range(start, start + count)
    {
      hide Frames, IsBitmap, Range, Valid;
      assert Range(start, start) == {};
      for i := 0 to count
        invariant Valid() && Usable() == old(Usable())
        invariant Free() == old(Free()) + Range(start, start + i)
      {
        assert start + i in old(Usable()) - old(Free());
        Give(start + i);
        assert Range(start, start + i + 1) == Range(start, start + i) + {start + i};
      }
    }

    /** pmm_free_pages: all or nothing. */
    method FreePages(address: nat, count: nat) returns (ok: bool)
      requires Valid()
      modifies this`freeCount, this`hint, free
      ensures Valid() && Usable() == old(Usable())
      ensures ok <==> initialized && count >= 1 && address % FRAME_SIZE == 0
                      && RunIn(old(Usable()) - old(Free()), address / FRAME_SIZE, count)
      ensures Free() == if ok then old(Free()) + Range(address / FRAME_SIZE, address / FRAME_SIZE + count)
                else old(Free())
      ensures hint == if ok && address / FRAME_SIZE < old(hint) then address / FRAME_SIZE else old(hint)
    {
      hide Frames, IsBitmap, Range, RunIn, NoRun, Valid, Usable, Free;
      if count == 0 {
        return false;
      }
      if count == 1 {
        var frame := address / FRAME_SIZE;
        RunEnds(Usable() - Free(), frame, 1);
        assert Range(frame, frame + 1) == {frame};
        ok := FreeFrame(address);
      } else {
        ok := FreeRun(address, count);
      }
    }

    method FreeRun(address: nat, count: nat) returns (ok: bool)
      requires Valid() && count >= 2
      modifies this`freeCount, this`hint, free
      ensures Valid() && Usable() == old(Usable())
      ensures ok <==> initialized && address % FRAME_SIZE == 0
                      && RunIn(old(Usable()) - old(Free()), address / FRAME_SIZE, count)
      ensures Free() == if ok then old(Free()) + Range(address / FRAME_SIZE, address / FRAME_SIZE + count)
                else old(Free())
      ensures hint == if ok && address / FRAME_SIZE < old(hint) then address / FRAME_SIZE else old(hint)
    {
      hide Frames, IsBitmap, Range, RunIn, NoRun, Valid, Usable, Free;
      var start := address / FRAME_SIZE;
      RunEnds(Usable() - Free(), start, count);
      FrameZeroIsNotUsable();
      if !initialized || address == 0 || address % FRAME_SIZE != 0 {
        return false;
      }
      var inUse := AllAllocated(start, count);
      if !inUse {
        return false;
      }
      GiveRun(start, count);
      HintWithin();
      if start < hint {
        MoveHint(start);
      }
      ok := true;
    }

    lemma HintWithin()
      requires Valid()
      ensures 1 <= hint <= limit
    {
    }

    lemma FreeIsUsable()
      requires Valid()
      ensures Free() <= Usable()
    {
    }

    lemma FrameZeroIsNotUsable()
      requires Valid()
      ensures 0 !in Usable()
    {
    }

    /** The validation loop of pmm_free_pages. */
    method AllAllocated(start: nat, count: nat) returns (ok: bool)
      requires Valid()
      ensures ok <==> RunIn(Usable() - Free(), start, count)
    {
      for i := 0 to count
        invariant RunIn(Usable() - Free(), start, i)
      {
        var frame := start + i;
        if frame >= MAX_TRACKED_FRAMES {
          assert frame !in Usable() - Free() && start <= frame < start + count;
          return false;
        }
        TestIsBit(usable[frame / 64], frame);
        TestIsBit(free[frame / 64], frame);
        if !Test(usable[frame / 64], frame) || Test(free[frame / 64], frame) {
          assert frame !in Usable() - Free() && start <= frame < start + count;
          return false;
        }
        assert frame in Usable() && frame !in Free();
      }
      ok := true;
    }
  }
}
