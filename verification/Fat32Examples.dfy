/**
 * Volumes on which the file operations do not do what their callers are told: a failed overwrite that leaves a dangling
 * entry, a write without a buffer, and a file too large for the heap.
 */
module Fat32Examples {
  import opened Bytes
  import opened Options
  import opened Fat32Names
  import opened Fat32Chains
  import opened Fat32Files
  import opened Fat32
  import Pmm
  import HeapCells
  import KernelPages
  import PageCost
  import Heap

  /** The file name A. */
  const NAME: seq<byte> := [0x41]

  /** A file name that starts with the byte 0xe5. */
  const MARKED_NAME: seq<byte> := [0xe5, 0x31]

  lemma NameFacts()
    ensures IsString(NAME) && Target(NAME) == Some(NAME) && ParentIsRoot(NAME) && !IsRoot(NAME)
    ensures FileName(NAME) == NAME && Representable(NAME) && !Marked(NAME) && Recorded(NAME)
  {
    hide Generate;
    GeneratedFirst(NAME);
    NoSeparators(NAME);
    assert NAME[..1] == NAME && NAME[1..] == [];
  }

  lemma EmptyDirectory(dir: seq<DirEntry>, name: seq<byte>)
    requires dir != [] && forall p | 0 <= p < |dir| :: dir[p] == ZERO_ENTRY
    ensures NoMatch(dir, name) && HasVacant(dir) && Vacant(dir[0])
  {
    hide HasBit;
    assert Vacant(dir[0]);
  }

  lemma RoomIs(size: nat, clusterSize: nat, dir: seq<DirEntry>, free: nat)
    requires clusterSize > 0 && HasVacant(dir)
    ensures RoomFor(size, clusterSize, dir, free) <==> ClustersFor(size, clusterSize) <= free
    ensures forall p: nat, free': nat :: Spent(true, size, clusterSize, dir, p, free, free') <==>
              free' + ClustersFor(size, clusterSize) == free
  {
    hide ClustersFor, HasVacant;
  }

  /** The entry of the first file. */
  lemma SlotZero(dir: seq<DirEntry>, dir': seq<DirEntry>, p: nat, contents: seq<byte>, perCluster: nat)
    requires dir != [] && Vacant(dir[0]) && NoMatch(dir, NAME)
    requires Entered(dir, dir', p, NewEntry(NAME, ClusterAt(dir', p), contents), perCluster)
    ensures p == 0 && FirstMatch(dir', NAME, 0) && SizeAt(dir', 0) == |contents|
  {
    hide Vacant, NewEntry, Matches, HasVacant;
    NameFacts();
    NewEntryMatchesIff(NAME, NAME, ClusterAt(dir', p), contents);
    FirstAfterEntered(dir, dir', p, NewEntry(NAME, ClusterAt(dir', p), contents), perCluster, NAME, NAME);
    WrittenSize(dir, dir', p, NAME, contents, perCluster);
  }

  lemma WroteIs(files: map<nat, seq<byte>>, files': map<nat, seq<byte>>, p: nat, contents: seq<byte>)
    requires Wrote(files, files', p, contents)
    ensures p in files' && files'[p] == contents
  {
  }

  /** The first file of an empty volume goes into slot 0, where a lookup finds it. */
  method FirstFile(volume: Volume, contents: seq<byte>, denied: set<nat>) returns (ok: bool)
    requires volume.Valid() && volume.dir == seq(volume.perCluster, _ => ZERO_ENTRY) && volume.perCluster > 0
    requires |contents| < 0x1_0000_0000
    modifies volume`fats, volume`data, volume`dir, volume`own, volume`place
    ensures volume.clusterSize > 0 && (ok <==> ClustersFor(|contents|, volume.clusterSize) <= |old(volume.Free())|)
    ensures ok ==> volume.Valid() && FirstMatch(volume.dir, NAME, 0) && SizeAt(volume.dir, 0) == |contents|
    ensures ok ==> 0 in volume.Files() && volume.Files()[0] == Kept(contents, volume.clusterSize, denied)
    ensures ok ==> |volume.Free()| + ClustersFor(|contents|, volume.clusterSize) == |old(volume.Free())|
  {
    hide *;
    NameFacts();
    ClustersHoldSomething(volume);
    EmptyDirectory(volume.dir, NAME);
    ghost var before := volume.dir;
    ghost var p, created;
    ok, p, created := WriteFile(volume, NAME, contents, denied);
    OneOrOther(before, NAME, p);
    RoomIs(|contents|, volume.clusterSize, before, |old(volume.Free())|);
    if ok {
      SlotZero(before, volume.dir, p, contents, volume.perCluster);
      WroteIs(old(volume.Files()), volume.Files(), p, Kept(contents, volume.clusterSize, denied));
    }
  }

  lemma FileStarts(volume: Volume, p: nat)
    requires volume.Valid() && FirstMatch(volume.dir, NAME, p) && SizeAt(volume.dir, p) > 0
    ensures ClusterAt(volume.dir, p) >= 2
  {
    hide Laid, ClustersFor, Copies, DataOk, DirOk, Owners, FilesOk, Matches;
    MatchIsFile(volume.dir, NAME, p);
    SlotFacts(volume.own, volume.dir, p, volume.clusterSize);
    EnoughClusters(volume.dir[p].size, volume.clusterSize);
    ChainBounds(volume.fats[0], volume.own, volume.place, Slot(p));
  }

  /** One byte takes one cluster, 513 bytes take two. */
  lemma FewClusters(dir: seq<DirEntry>)
    requires SizeAt(dir, 0) == 1
    ensures !RoomInstead(513, SECTOR_SIZE, dir, 0, 0)
  {
  }

  lemma OneCluster()
    ensures ClustersFor(1, SECTOR_SIZE) == 1 && SECTOR_SIZE > 0 && SECTOR_SIZE * 1 == SECTOR_SIZE
    ensures CLUSTER_RESERVED > 0x10_0000
  {
  }

  /**
   * Overwriting a file with more than the volume can hold: the entry then names a free cluster, which no layout of
   * chains explains.
   */
  method DanglingExample() returns (created: bool, ok: bool, fats: seq<seq<nat>>, dir: seq<DirEntry>)
    ensures created && !ok && DanglesAt(fats, dir, 0) && !WellFormed(fats[0], dir, 2, SECTOR_SIZE)
  {
    hide *;
    OneCluster();
    var volume := new Volume(1, 1, 4);
    created := FirstFile(volume, [1], {});
    ghost var before := volume.dir;
    NameFacts();
    FewClusters(before);
    FileStarts(volume, 0);
    ghost var p, fresh';
    ok, p, fresh' := WriteFile(volume, NAME, seq(513, _ => 1), {});
    MatchMeansSome(before, NAME, 0);
    OneFirstMatch(before, NAME, 0, p);
    fats, dir := volume.fats, volume.dir;
    DanglesIs(fats, dir, 0);
    DanglingNotWellFormed(fats[0], dir, 2, SECTOR_SIZE, 0);
  }

  lemma DanglesIs(fats: seq<seq<nat>>, dir: seq<DirEntry>, p: nat)
    requires DanglesAt(fats, dir, p)
    ensures fats != [] && p < |dir| && Dangles(fats[0], dir[p])
  {
    hide Dangles;
  }

  /** A write for which no buffer can be had reports success and stores zeros. */
  method DeniedExample() returns (ok: bool, r: Option<seq<byte>>)
    ensures ok && r == Some([0])
  {
    hide *;
    OneCluster();
    var volume := new Volume(1, 1, 4);
    ok := FirstFile(volume, [1], {0});
    r := ReadBack(volume, true, true);
    NothingKept();
    ReadableIs(1, true, true);
  }

  lemma NothingKept()
    ensures Kept([1], SECTOR_SIZE, {0}) == [0]
  {
  }

  lemma ReadableIs(size: nat, buffer: bool, clusterBuffer: bool)
    ensures Readable(size, buffer, clusterBuffer) <==> size == 0 || (buffer && clusterBuffer)
  {
  }

  /** Reading the file in slot 0. */
  method ReadBack(volume: Volume, buffer: bool, clusterBuffer: bool) returns (r: Option<seq<byte>>)
    requires volume.Valid() && FirstMatch(volume.dir, NAME, 0)
    ensures r.Some? <==> Readable(SizeAt(volume.dir, 0), buffer, clusterBuffer)
    ensures r.Some? ==> 0 in volume.Files() && volume.Files()[0] == r.value
  {
    hide *;
    NameFacts();
    CanReadIff(volume.dir, NAME, 0, buffer, clusterBuffer);
    r := ReadFile(volume, NAME, buffer, clusterBuffer);
    if r.Some? {
      FindsFirst(volume, NAME, 0, r.value);
      HoldsIs(volume, 0, r.value);
    }
  }

  lemma HoldsIs(volume: Volume, p: nat, contents: seq<byte>)
    ensures volume.Holds(p, contents) <==> p in volume.Files() && volume.Files()[p] == contents
  {
    hide FilesOf;
  }

  lemma LargeFits(size: nat)
    requires size == 200 * 0x10_0000
    ensures SECTOR_SIZE * 8 == 0x1000 && ClustersFor(size, 0x1000) <= 0x1_0000 - 3 && CLUSTER_RESERVED > 0x10_0000
    ensures HeapCells.HEAP_MAXIMUM_BYTES < size < 0x1_0000_0000 < W64 - 1
    ensures PageCost.Rooted({})
  {
  }

  lemma MemoryFrames(memory: seq<Option<Pmm.Region>>)
    requires memory == [Some(Pmm.Region(true, 0, 0x1000_0000))]
    ensures Pmm.WholeFrames(memory) != {}
    ensures forall i | 0 <= i < |memory| :: memory[i].Some? && memory[i].value.base < W64
              && memory[i].value.length < W64
  {
    assert Pmm.Covers(memory[0].value, 1);
    assert 1 in Pmm.WholeFrames(memory);
  }

  /**
   * A file of 200 MiB can be written, one cluster after the other, but never read: the heap never has a buffer for it.
   */
  method LargeFileExample() returns (ok: bool, r: Option<seq<byte>>)
    ensures ok && r.None?
  {
    hide *;
    var size := 200 * 0x10_0000;
    LargeFits(size);
    var volume := new Volume(8, 2, 0x1_0000);
    ok := FirstFile(volume, seq(size, _ => 1), {});
    var pmm := new Pmm.FrameAllocator();
    var memory := [Some(Pmm.Region(true, 0, 0x1000_0000))];
    MemoryFrames(memory);
    var initialized := pmm.Initialize(memory);
    var kernel := new KernelPages.KernelMap(pmm, {});
    var heap := new Heap.KernelHeap(kernel);
    heap.Initialize();
    heap.TooLarge(size + 1);
    var buffer := heap.Allocate(size + 1);
    r := ReadBack(volume, buffer != 0, true);
    ReadableIs(size, buffer != 0, true);
  }

  lemma MarkedFacts()
    ensures IsString(MARKED_NAME) && Target(MARKED_NAME) == Some(MARKED_NAME) && ParentIsRoot(MARKED_NAME)
    ensures !IsRoot(MARKED_NAME)
    ensures Marked(MARKED_NAME) && !Recorded(MARKED_NAME)
  {
    hide Generate;
    GeneratedFirst(MARKED_NAME);
    NoSeparators(MARKED_NAME);
    assert MARKED_NAME[..2] == MARKED_NAME && MARKED_NAME[2..] == [];
  }

  /** A write on an empty volume under a path that cannot be found again. */
  method WriteUnfindable(volume: Volume, path: seq<byte>) returns (ok: bool, r: Option<seq<byte>>, removed: bool)
    requires volume.Valid() && volume.dir == seq(volume.perCluster, _ => ZERO_ENTRY) && volume.perCluster > 0
    requires volume.Leaked() == {}
    requires IsString(path) && Target(path).Some? && ParentIsRoot(path) && !IsRoot(path) && !Recorded(path)
    requires volume.clusterSize == SECTOR_SIZE && |volume.Free()| == 1
    modifies volume`fats, volume`data, volume`dir, volume`own, volume`place
    ensures ok && r.None? && !removed && volume.fats != [] && FreeSet(volume.fats[0]) == {}
    ensures WellFormed(volume.fats[0], volume.dir, volume.root, SECTOR_SIZE) <==> !Marked(path)
  {
    hide *;
    OneCluster();
    EmptyDirectory(volume.dir, Target(path).value);
    RoomIs(1, SECTOR_SIZE, volume.dir, 1);
    ghost var before := volume.dir;
    ghost var p, created, q;
    ok, p, created := WriteFile(volume, path, [1], {});
    OneOrOther(before, path, p);
    NewEntryMatchesIff(path, Target(path).value, ClusterAt(volume.dir, p), [1]);
    EnteredNoMatch(before, volume.dir, p, NewEntry(path, ClusterAt(volume.dir, p), [1]), volume.perCluster,
        Target(path).value, Target(path).value);
    CannotRead(volume.dir, path, true, true);
    r := ReadFile(volume, path, true, true);
    ghost var dir := volume.dir;
    volume.LeakFreeIff();
    removed, q := UnlinkFile(volume, path);
    OneOrOther(dir, path, q);
    volume.LeakFreeIff();
    NoneFree(volume);
  }

  lemma NoneFree(volume: Volume)
    requires volume.Valid() && |volume.Free()| == 0
    ensures volume.fats != [] && FreeSet(volume.fats[0]) == {}
  {
    hide FreeSet, Laid, Owners, FilesOk, DirOk, Copies, DataOk;
  }

  /** A name that starts with 0xe5: the write succeeds, and its cluster is neither free nor part of any file. */
  method LeakExample() returns (ok: bool, r: Option<seq<byte>>, removed: bool, fats: seq<seq<nat>>, dir: seq<DirEntry>)
    ensures ok && r.None? && !removed
    ensures fats != [] && FreeSet(fats[0]) == {} && !WellFormed(fats[0], dir, 2, SECTOR_SIZE)
  {
    hide *;
    OneCluster();
    MarkedFacts();
    var volume := new Volume(1, 1, 4);
    ok, r, removed := WriteUnfindable(volume, MARKED_NAME);
    fats, dir := volume.fats, volume.dir;
  }

  /** As many separators as a component may have bytes, the name A, and another separator. */
  const NAMELESS_PATH: seq<byte> := Separators(MAX_COMPONENT) + [0x41, SLASH]

  lemma NamelessFacts()
    ensures IsString(NAMELESS_PATH) && Target(NAMELESS_PATH) == Some(NAME) && ParentIsRoot(NAMELESS_PATH)
    ensures !IsRoot(NAMELESS_PATH)
    ensures EndsInSeparator(NAMELESS_PATH) && FileName(NAMELESS_PATH) == [] && !Marked(NAMELESS_PATH)
  {
    hide Generate, SkipSeparators, LastSeparator;
    var path := NAMELESS_PATH;
    SkipAll(Separators(MAX_COMPONENT), [0x41, SLASH]);
    assert ComponentLength([0x41, SLASH]) == 1;
    SkipAll([SLASH], []);
    assert [SLASH] + [] == [0x41, SLASH][1..] && [0x41, SLASH][..1] == NAME;
    assert IsSeparator(path[|path| - 1]);
    assert LastSeparator(path) == Some(|path| - 1);
    SkipAll(Separators(MAX_COMPONENT), []);
    assert path[..MAX_COMPONENT] == Separators(MAX_COMPONENT) + [];
    NotMarked();
  }

  lemma NotMarked()
    ensures Generate([])[0] != DELETED
  {
  }

  /**
   * A path whose parent is cut to separators only: the new entry gets no name, and the file is lost to every caller.
   */
  method NamelessExample()
    returns (ok: bool, r: Option<seq<byte>>, removed: bool, fats: seq<seq<nat>>, dir: seq<DirEntry>)
    ensures ok && r.None? && !removed
    ensures fats != [] && FreeSet(fats[0]) == {} && WellFormed(fats[0], dir, 2, SECTOR_SIZE)
  {
    hide *;
    OneCluster();
    NamelessFacts();
    NotRecorded(NAMELESS_PATH);
    var volume := new Volume(1, 1, 4);
    ok, r, removed := WriteUnfindable(volume, NAMELESS_PATH);
    fats, dir := volume.fats, volume.dir;
  }

  lemma NotRecorded(path: seq<byte>)
    requires EndsInSeparator(path)
    ensures !Recorded(path)
  {
  }
}
