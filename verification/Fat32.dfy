/**
 * A FAT32 volume with files in its root directory: cluster chains, directory entries and file contents under
 * create, overwrite, unlink and read.
 */
module Fat32Files {
  import opened Bytes
  import opened Options
  import opened Fat32Names
  import opened Fat32Chains
  import Modular

  const ATTR_VOLUME_ID: bv8 := 0x08
  const ATTR_DIRECTORY: bv8 := 0x10
  const ATTR_ARCHIVE: bv8 := 0x20
  const ATTR_LONG_NAME: bv8 := 0x0f
  const DELETED: byte := 0xe5
  const SECTOR_SIZE: nat := 512
  const SECTOR_ENTRIES: nat := 16

  datatype DirEntry = DirEntry(name: seq<byte>, attr: bv8, cluster: nat, size: nat)

  const ZERO_ENTRY := DirEntry(seq(11, _ => 0), 0, 0, 0)

  // ------------------------------------------------------------ directory entries

  predicate HasBit(attr: bv8, bit: bv8)
  {
    attr & bit != 0
  }

  predicate Vacant(e: DirEntry)
  {
    |e.name| != 11 || e.name[0] == 0 || e.name[0] == 0xe5
  }

  predicate IsFile(e: DirEntry)
  {
    !Vacant(e) && !HasBit(e.attr, 0x08)
  }

  predicate AtEnd(e: DirEntry)
  {
    |e.name| == 11 && e.name[0] == 0
  }

  /** Entries of the kinds this model covers: short names, no subdirectories; free entries follow the end mark. */
  ghost predicate DirOk(dir: seq<DirEntry>)
  {
    && (forall p | 0 <= p < |dir| :: |dir[p].name| == 11 && !HasBit(dir[p].attr, 0x10))
    && (forall p | 0 <= p < |dir| && !Vacant(dir[p]) :: dir[p].attr != ATTR_LONG_NAME)
    && (forall p, q | 0 <= p < q < |dir| && AtEnd(dir[p]) :: AtEnd(dir[q]))
  }

  /** The zero-terminated string at the start of a buffer. */
  function Cut(s: seq<byte>): seq<byte>
  {
    if s == [] || s[0] == 0 then [] else [s[0]] + Cut(s[1..])
  }

  lemma {:induction false} CutIsString(s: seq<byte>)
    ensures IsString(Cut(s))
    ensures IsString(s) ==> Cut(s) == s
  {
    if s != [] && s[0] != 0 {
      CutIsString(s[1..]);
      assert s == [s[0]] + s[1..];
    }
  }

  function ShortName(e: DirEntry): seq<byte>
    requires |e.name| == 11
  {
    Cut(Format(e.name))
  }

  predicate Matches(e: DirEntry, name: seq<byte>)
  {
    IsFile(e) && Upper(ShortName(e)) == Upper(name)
  }

  ghost predicate FirstMatch(dir: seq<DirEntry>, name: seq<byte>, p: nat)
  {
    p < |dir| && Matches(dir[p], name) && forall q | 0 <= q < p :: !Matches(dir[q], name)
  }

  ghost predicate NoMatch(dir: seq<DirEntry>, name: seq<byte>)
  {
    forall q | 0 <= q < |dir| :: !Matches(dir[q], name)
  }

  /** fat32_lookup_entry_in_dir over the entries of the directory in chain order. */
  method FindEntry(dir: seq<DirEntry>, name: seq<byte>) returns (found: Option<nat>)
    requires DirOk(dir) && IsString(name)
    ensures found.Some? ==> FirstMatch(dir, name, found.value)
    ensures found.None? ==> NoMatch(dir, name)
  {
    hide HasBit, Upper, Format, Cut;
    for p := 0 to |dir|
      invariant forall q | 0 <= q < p :: !Matches(dir[q], name)
    {
      var e := dir[p];
      if e.name[0] == 0 {
        assert AtEnd(e);
        return None;
      }
      if e.name[0] != DELETED && !HasBit(e.attr, ATTR_VOLUME_ID) {
        var shortName := FormatInPlace(e.name);
        CutIsString(shortName);
        var difference := CompareIgnoringCase(Cut(shortName), name);
        if difference == 0 {
          return Some(p);
        }
      }
    }
    return None;
  }

  // ------------------------------------------------------------ contents

  ghost function Flatten(data: map<nat, seq<byte>>, chain: seq<nat>): seq<byte>
  {
    if chain == [] then []
    else Flatten(data, chain[..|chain| - 1]) + if chain[|chain| - 1] in data then data[chain[|chain| - 1]] else []
  }

  ghost function Prefix(s: seq<byte>, n: nat): seq<byte>
  {
    if n <= |s| then s[..n] else s
  }

  lemma {:induction false} FlattenSame(data: map<nat, seq<byte>>, data': map<nat, seq<byte>>, chain: seq<nat>)
    requires forall c | c in chain :: c in data && c in data' && data[c] == data'[c]
    ensures Flatten(data, chain) == Flatten(data', chain)
  {
    if chain != [] {
      var init := chain[..|chain| - 1];
      assert chain[|chain| - 1] in chain;
      FlattenSame(data, data', init);
    }
  }

  lemma {:induction false} FlattenLength(data: map<nat, seq<byte>>, chain: seq<nat>, clusterSize: nat)
    requires forall c | c in chain :: c in data && |data[c]| == clusterSize
    ensures |Flatten(data, chain)| == |chain| * clusterSize
  {
    if chain != [] {
      var init := chain[..|chain| - 1];
      assert chain[|chain| - 1] in chain;
      FlattenLength(data, init, clusterSize);
      assert |chain| * clusterSize == |init| * clusterSize + clusterSize;
    }
  }

  lemma FlattenSnoc(data: map<nat, seq<byte>>, chain: seq<nat>, c: nat)
    ensures Flatten(data, chain + [c]) == Flatten(data, chain) + if c in data then data[c] else []
  {
    var longer := chain + [c];
    assert longer[..|longer| - 1] == chain;
  }

  /** How many clusters a file of this size takes. */
  function ClustersFor(size: nat, clusterSize: nat): nat
    requires clusterSize > 0
  {
    (size + clusterSize - 1) / clusterSize
  }

  /** The k-th cluster of a file: its share of the contents, then zeros. */
  function Chunk(s: seq<byte>, clusterSize: nat, k: nat): (r: seq<byte>)
    ensures |r| == clusterSize
  {
    seq(clusterSize, j requires 0 <= j < clusterSize => if k * clusterSize + j < |s| then s[k * clusterSize + j] else 0)
  }

  ghost function Chunks(s: seq<byte>, clusterSize: nat, n: nat): (r: seq<byte>)
    ensures |r| == n * clusterSize
  {
    if n == 0 then [] else
      assert n * clusterSize == (n - 1) * clusterSize + clusterSize;
      Chunks(s, clusterSize, n - 1) + Chunk(s, clusterSize, n - 1)
  }

  lemma {:induction false} ChunksAt(s: seq<byte>, clusterSize: nat, n: nat)
    ensures forall i | 0 <= i < n * clusterSize :: Chunks(s, clusterSize, n)[i] == if i < |s| then s[i] else 0
  {
    if n > 0 {
      ChunksAt(s, clusterSize, n - 1);
      var m := (n - 1) * clusterSize;
      assert n * clusterSize == m + clusterSize;
      forall i | 0 <= i < n * clusterSize
        ensures Chunks(s, clusterSize, n)[i] == if i < |s| then s[i] else 0
      {
        if i >= m {
          assert Chunks(s, clusterSize, n)[i] == Chunk(s, clusterSize, n - 1)[i - m];
        }
      }
    }
  }

  /** The clusters a file takes hold it, and no more are needed. */
  lemma EnoughClusters(size: nat, clusterSize: nat)
    requires clusterSize > 0
    ensures size <= ClustersFor(size, clusterSize) * clusterSize < size + clusterSize
  {
    var q := ClustersFor(size, clusterSize);
    var r := (size + clusterSize - 1) % clusterSize;
    assert size + clusterSize - 1 == clusterSize * q + r;
    assert clusterSize * q == q * clusterSize;
  }

  /** Cutting the chunks back to size gives the contents. */
  lemma ChunksRestore(s: seq<byte>, clusterSize: nat)
    requires clusterSize > 0
    ensures Prefix(Chunks(s, clusterSize, ClustersFor(|s|, clusterSize)), |s|) == s
  {
    EnoughClusters(|s|, clusterSize);
    ChunksAt(s, clusterSize, ClustersFor(|s|, clusterSize));
  }

  /** What reaches the disk if no buffer could be had for the clusters in `denied`: zeros in those clusters. */
  function Kept(s: seq<byte>, clusterSize: nat, denied: set<nat>): (r: seq<byte>)
    ensures |r| == |s|
  {
    if clusterSize == 0 then s
    else seq(|s|, i requires 0 <= i < |s| => if i / clusterSize in denied then 0 else s[i])
  }

  /** Everything is kept exactly if the clusters without a buffer hold nothing but zeros. */
  lemma KeptIff(s: seq<byte>, clusterSize: nat, denied: set<nat>)
    requires clusterSize > 0
    ensures Kept(s, clusterSize, denied) == s <==> forall i | 0 <= i < |s| && i / clusterSize in denied :: s[i] == 0
    ensures Kept(s, clusterSize, {}) == s
  {
    var kept := Kept(s, clusterSize, denied);
    assert forall i | 0 <= i < |s| :: kept[i] == if i / clusterSize in denied then 0 else s[i];
  }

  lemma ClusterOf(clusterSize: nat, k: nat, j: nat)
    requires j < clusterSize
    ensures (k * clusterSize + j) / clusterSize == k
  {
    var i := k * clusterSize + j;
    var q, m := i / clusterSize, i % clusterSize;
    assert i == clusterSize * q + m;
    var d: int := q - k;
    Modular.Distribute(d, k, clusterSize);
    assert clusterSize * d == j - m;
    Modular.MulBound(d, clusterSize);
  }

  /** The chunk that goes into the k-th cluster. */
  lemma KeptChunk(s: seq<byte>, clusterSize: nat, denied: set<nat>, k: nat)
    requires clusterSize > 0
    ensures Chunk(Kept(s, clusterSize, denied), clusterSize, k) ==
              if k in denied then seq(clusterSize, _ => 0) else Chunk(s, clusterSize, k)
  {
    forall j | 0 <= j < clusterSize
      ensures Chunk(Kept(s, clusterSize, denied), clusterSize, k)[j] ==
                if k in denied then 0 else Chunk(s, clusterSize, k)[j]
    {
      ClusterOf(clusterSize, k, j);
    }
  }

  // ------------------------------------------------------------ the volume

  ghost predicate Copies(fats: seq<seq<nat>>)
  {
    fats != [] && forall i | 0 <= i < |fats| :: fats[i] == fats[0]
  }

  /** The owners of chains: the directory, every file, and a chain under construction. */
  ghost predicate Owners(own: Layout, dir: seq<DirEntry>, pending: bool)
  {
    && Directory in own && (Fresh in own <==> pending)
    && (forall p: nat :: Slot(p) in own <==> p < |dir| && IsFile(dir[p]))
  }

  /** Each file starts its chain, which has just the clusters its size needs. */
  ghost predicate FilesOk(own: Layout, dir: seq<DirEntry>, clusterSize: nat)
    requires clusterSize > 0
  {
    forall p | 0 <= p < |dir| && IsFile(dir[p]) :: FileOk(own, dir[p], p, clusterSize)
  }

  ghost predicate FileOk(own: Layout, e: DirEntry, p: nat, clusterSize: nat)
    requires clusterSize > 0
  {
    Slot(p) in own && FirstOf(own[Slot(p)]) == e.cluster && |own[Slot(p)]| == ClustersFor(e.size, clusterSize)
  }

  ghost predicate DataOk(data: map<nat, seq<byte>>, total: nat, clusterSize: nat)
  {
    forall c: nat :: (c in data <==> 2 <= c < total) && (c in data ==> |data[c]| == clusterSize)
  }

  ghost function FilesOf(data: map<nat, seq<byte>>, dir: seq<DirEntry>, own: Layout): map<nat, seq<byte>>
  {
    map p: nat | p < |dir| && IsFile(dir[p]) && Slot(p) in own :: Prefix(Flatten(data, own[Slot(p)]), dir[p].size)
  }

  /** The table of an empty volume. */
  function EmptyTable(total: nat): (fat: seq<nat>)
    ensures |fat| == total
  {
    seq(total, c => if c == 2 then CLUSTER_END else if c < 2 then CLUSTER_END_MIN else CLUSTER_FREE)
  }

  lemma EmptyTableLaid(total: nat)
    requires 3 <= total <= CLUSTER_RESERVED
    ensures Laid(EmptyTable(total), map[Directory := [2]], map[2 := (Directory, 0)])
    ensures |FreeSet(EmptyTable(total))| == total - 3
  {
    EmptyTableFree(total);
    var fat, own, place := EmptyTable(total), map[Directory := [2]], map[2 := (Directory, 0)];
    assert Links(fat, own) && LeakFree(fat, place);
  }

  lemma {:induction false} EmptyTableFree(total: nat)
    requires 3 <= total
    ensures |FreeSet(EmptyTable(total))| == total - 3
  {
    if total == 3 {
      assert FreeSet(EmptyTable(3)) == {};
    } else {
      EmptyTableFree(total - 1);
      assert FreeSet(EmptyTable(total)) == FreeSet(EmptyTable(total - 1)) + {total - 1};
    }
  }

  predicate IsCluster(c: nat, total: nat)
  {
    2 <= c < total
  }

  lemma NoEntries(dir: seq<DirEntry>, own: Layout, clusterSize: nat, data: map<nat, seq<byte>>)
    requires clusterSize > 0 && own == map[Directory := [2]] && forall p | 0 <= p < |dir| :: dir[p] == ZERO_ENTRY
    ensures Owners(own, dir, false) && FilesOk(own, dir, clusterSize) && DirOk(dir) && FilesOf(data, dir, own) == map[]
  {
    assert !HasBit(0, ATTR_DIRECTORY);
    assert forall p | 0 <= p < |dir| :: AtEnd(dir[p]);
  }

  lemma EmptyShape(v: Volume, total: nat)
    requires v.clusterSize > 0 && v.perCluster > 0 && v.root == 2 && |v.dir| == v.perCluster
    requires v.fats != [] && forall i | 0 <= i < |v.fats| :: v.fats[i] == EmptyTable(total)
    requires v.data == map c: nat | c < total && IsCluster(c, total) :: seq(v.clusterSize, _ => 0)
    requires v.own == map[Directory := [2]] && v.place == map[2 := (Directory, 0)]
    requires Laid(EmptyTable(total), v.own, v.place)
    requires Owners(v.own, v.dir, false) && FilesOk(v.own, v.dir, v.clusterSize) && DirOk(v.dir)
    ensures v.Valid() && v.Free() == FreeSet(EmptyTable(total)) && v.Files() == FilesOf(v.data, v.dir, v.own)
    ensures v.Leaked() == {}
  {
    hide Laid, Owners, FilesOk, DirOk, EmptyTable;
  }

  class Volume {
    const clusterSize: nat
    const perCluster: nat
    const root: nat
    var fats: seq<seq<nat>>
    var data: map<nat, seq<byte>>
    var dir: seq<DirEntry>
    ghost var own: Layout
    ghost var place: Places

    /**
     * An empty volume with a geometry that fat32_probe accepts: sectors of 512 bytes, so sixteen entries each. One
     * cluster holds the root directory, every other one is free, in each copy of the table.
     */
    constructor (sectors: nat, copies: nat, total: nat)
      requires 0 < sectors < 256 && 0 < copies < 256 && 3 <= total <= CLUSTER_RESERVED
      ensures Valid() && clusterSize == SECTOR_SIZE * sectors && perCluster == SECTOR_ENTRIES * sectors > 0
      ensures Files() == map[] && |Free()| == total - 3 && Leaked() == {} && dir == seq(perCluster, _ => ZERO_ENTRY)
      ensures root == 2
    {
      this.clusterSize, this.perCluster, this.root := SECTOR_SIZE * sectors, SECTOR_ENTRIES * sectors, 2;
      var table := EmptyTable(total);
      fats := seq(copies, _ => table);
      data := map c: nat | c < total && IsCluster(c, total) :: seq(SECTOR_SIZE * sectors, _ => 0);
      dir := seq(SECTOR_ENTRIES * sectors, _ => ZERO_ENTRY);
      own, place := map[Directory := [2]], map[2 := (Directory, 0)];
      new;
      hide *;
      EmptyTableLaid(total);
      NoEntries(dir, own, clusterSize, data);
      EmptyShape(this, total);
    }

    ghost predicate Shape()
      reads this`fats, this`data
    {
      && clusterSize > 0 && perCluster > 0 && fats != [] && Copies(fats) && DataOk(data, |fats[0]|, clusterSize)
    }

    ghost predicate Inv(pending: bool)
      reads this`fats, this`data, this`dir, this`own, this`place
    {
      && Shape() && Laid(fats[0], own, place)
      && Owners(own, dir, pending) && FilesOk(own, dir, clusterSize) && DirOk(dir)
      && FirstOf(own[Directory]) == root && root >= 2 && |dir| == perCluster * |own[Directory]|
    }

    ghost predicate Valid()
      reads this`fats, this`data, this`dir, this`own, this`place
    {
      Inv(false)
    }

    ghost function Free(): set<nat>
      reads this`fats
    {
      if fats == [] then {} else FreeSet(fats[0])
    }

    /** The contents of every file, by directory slot. */
    ghost function Files(): map<nat, seq<byte>>
      reads this`data, this`dir, this`own
    {
      FilesOf(data, dir, own)
    }

    /** The clusters in use that the directory does not lead to. */
    ghost function Leaked(): set<nat>
      reads this`own
    {
      LeakedOf(own)
    }

    /** Some layout explains the disk exactly if nothing is leaked. */
    lemma LeakFreeIff()
      requires Valid()
      ensures WellFormed(fats[0], dir, root, clusterSize) <==> Leaked() == {}
    {
      hide Laid, Owners, FilesOk, DirOk, Copies, DataOk, WellFormed;
      OrphanIff(fats[0], dir, root, clusterSize, own, place);
    }

    /** fat32_read_fat_entry */
    function ReadFat(c: nat): nat
      requires fats != [] && c < |fats[0]|
      reads this`fats
    {
      Value(fats[0][c])
    }

    /** fat32_write_fat_entry: every copy of the table gets the same entry. */
    method WriteFat(c: nat, value: nat)
      requires Copies(fats) && c < |fats[0]|
      modifies this`fats
      ensures Copies(fats) && fats[0] == old(fats)[0][c := Store(old(fats)[0][c], value)]
    {
      hide Store;
      for f := 0 to |fats|
        invariant |fats| == |old(fats)|
        invariant forall i | 0 <= i < f :: fats[i] == old(fats)[0][c := Store(old(fats)[0][c], value)]
        invariant forall i | f <= i < |fats| :: fats[i] == old(fats)[0]
      {
        var table: seq<nat> := fats[f][c := Store(fats[f][c], value)];
        fats := fats[f := table];
      }
    }

    /** The search of fat32_allocate_cluster. */
    method FindFree() returns (c: nat)
      requires Copies(fats)
      ensures c == 0 <==> Free() == {}
      ensures c != 0 ==> c in Free() && forall x | x in Free() :: c <= x
    {
      hide Value;
      c := 2;
      while c < |fats[0]|
        invariant c >= 2 && forall x | x in Free() :: c <= x
      {
        if ReadFat(c) == CLUSTER_FREE {
          assert c in Free();
          return;
        }
        c := c + 1;
      }
      c := 0;
    }

    /** fat32_allocate_cluster at the end of the chain of `o`: the least free cluster, zeroed. */
    method AllocateCluster(prev: nat, ghost o: Owner) returns (c: nat)
      requires Shape() && Laid(fats[0], own, place) && o in own && prev == LastOf(own[o])
      modifies this`fats, this`data, this`own, this`place
      ensures Shape() && Laid(fats[0], own, place) && |fats[0]| == old(|fats[0]|)
      ensures c == 0 <==> old(Free()) == {}
      ensures c == 0 ==> fats == old(fats) && data == old(data) && own == old(own) && place == old(place)
      ensures c != 0 ==> own == old(own)[o := old(own)[o] + [c]] && c in old(Free()) && Free() == old(Free()) - {c}
      ensures c != 0 ==> 2 <= c < |fats[0]| && c !in old(place) && place == old(place)[c := (o, |old(own)[o]|)]
      ensures c != 0 ==> data == old(data)[c := seq(clusterSize, _ => 0)]
    {
      hide Value, Store, Laid, FreeSet, Linked;
      c := FindFree();
      if c == 0 {
        return;
      }
      FreeFacts(fats[0], own, place, c);
      AppendStep(fats[0], own, place, o, c);
      WriteFat(c, CLUSTER_END);
      if prev >= 2 {
        WriteFat(prev, c);
      }
      LinkedUnfold(old(fats)[0], prev, c);
      data := data[c := seq(clusterSize, _ => 0)];
      own, place := own[o := own[o] + [c]], place[c := (o, |own[o]|)];
    }

    /** fat32_free_cluster_chain on the chain of `o`. */
    method FreeChain(start: nat, ghost o: Owner)
      requires Copies(fats) && Laid(fats[0], own, place) && o in own && start == FirstOf(own[o])
      modifies this`fats
      ensures Copies(fats) && |fats[0]| == old(|fats[0]|) && Freed(old(fats)[0], fats[0], own[o], |own[o]|)
    {
      hide Value, Store, Laid, Freed;
      ghost var chain, fat := own[o], fats[0];
      FreedNone(fat, chain);
      ChainBounds(fat, own, place, o);
      var curr := start;
      ghost var i := 0;
      while curr >= 2 && curr < CLUSTER_END_MIN
        invariant 0 <= i <= |chain| && Copies(fats) && |fats[0]| == |fat| && Freed(fat, fats[0], chain, i)
        invariant if i < |chain| then curr == chain[i] else curr == 0 || curr >= CLUSTER_END_MIN
        decreases |chain| - i
      {
        ChainNext(fat, own, place, o, i);
        FreedNext(fat, fats[0], own, place, o, i);
        var next := ReadFat(curr);
        WriteFat(curr, CLUSTER_FREE);
        curr := next;
        i := i + 1;
      }
    }

    /** Freeing the chain of `o` together with its place in the layout. */
    method Release(start: nat, ghost o: Owner)
      requires Shape() && Laid(fats[0], own, place) && o in own && start == FirstOf(own[o])
      modifies this`fats, this`own, this`place
      ensures Shape() && Laid(fats[0], own, place) && |fats[0]| == old(|fats[0]|)
      ensures own == old(own) - {o} && place == Without(old(place), old(own)[o])
      ensures Free() == old(Free()) + Clusters(old(own)[o])
    {
      hide Laid, Freed, FreeSet, Without;
      if start >= 2 {
        FreeChain(start, o);
      } else {
        EmptyChain(fats[0], own, place, o);
      }
      FreeStep(old(fats)[0], fats[0], own, place, o);
      place := Without(place, own[o]);
      own := own - {o};
    }

    /** One turn of the allocation loop: a cluster for the k-th chunk, which is copied if a buffer can be had. */
    method AppendChunk(prev: nat, contents: seq<byte>, k: nat, denied: set<nat>) returns (c: nat)
      requires Shape() && Laid(fats[0], own, place) && Fresh in own && prev == LastOf(own[Fresh])
      requires Flatten(data, own[Fresh]) == Chunks(Kept(contents, clusterSize, denied), clusterSize, k)
      modifies this`fats, this`data, this`own, this`place
      ensures Shape() && Laid(fats[0], own, place) && |fats[0]| == old(|fats[0]|)
      ensures c == 0 <==> old(Free()) == {}
      ensures c == 0 ==> fats == old(fats) && data == old(data) && own == old(own) && place == old(place)
      ensures c != 0 ==>
                own == old(own)[Fresh := old(own)[Fresh] + [c]] && c in old(Free()) && Free() == old(Free()) - {c}
      ensures c != 0 ==> Flatten(data, own[Fresh]) == Chunks(Kept(contents, clusterSize, denied), clusterSize, k + 1)
      ensures c != 0 ==> 2 <= c && old(place).Keys <= place.Keys
      ensures Agree(old(place), old(data), data)
    {
      hide Laid, FreeSet, Copies, Chunk, Chunks, Flatten, DataOk, Kept;
      ghost var chain := own[Fresh];
      KeptChunk(contents, clusterSize, denied, k);
      AgreeSelf(fats[0], own, place, data, clusterSize);
      ChainInPlace(fats[0], own, place, Fresh);
      c := AllocateCluster(prev, Fresh);
      if c == 0 {
        return;
      }
      if k !in denied {
        data := data[c := Chunk(contents, clusterSize, k)];
      }
      assert data == old(data)[c := data[c]];
      DataStored(old(data), |fats[0]|, clusterSize, c, data[c]);
      FlattenSame(old(data), data, chain);
      FlattenSnoc(data, chain, c);
      ChunksSnoc(Kept(contents, clusterSize, denied), clusterSize, k);
    }

    /** The allocation loop of fat32_write_file: the contents in a new chain, or no change. */
    method AllocateFile(contents: seq<byte>, denied: set<nat>) returns (start: nat, ok: bool)
      requires Shape() && Laid(fats[0], own, place) && Fresh !in own
      modifies this`fats, this`data, this`own, this`place
      ensures Shape() && Laid(fats[0], own, place) && |fats[0]| == old(|fats[0]|)
      ensures ok <==> ClustersFor(|contents|, clusterSize) <= |old(Free())|
      ensures !ok ==> own == old(own) && Free() == old(Free())
      ensures ok ==> Fresh in own && own - {Fresh} == old(own) && FirstOf(own[Fresh]) == start
      ensures ok ==>
                |own[Fresh]| == ClustersFor(|contents|, clusterSize)
                && Prefix(Flatten(data, own[Fresh]), |contents|) == Kept(contents, clusterSize, denied)
      ensures ok ==> |Free()| == |old(Free())| - ClustersFor(|contents|, clusterSize)
      ensures ok ==> Free() + Clusters(own[Fresh]) == old(Free())
      ensures Agree(old(place), old(data), data)
    {
      hide Laid, FreeSet, Copies, DataOk, Chunk, Chunks, Prefix, ClustersFor, Flatten, Agree, Clusters, Taken, Kept;
      ghost var before := own;
      TakenNone(Free());
      StartOwner(fats[0], own, place, Fresh);
      AgreeSelf(fats[0], own, place, data, clusterSize);
      own := own[Fresh := []];
      start := 0;
      var prev := 0;
      var needed := ClustersFor(|contents|, clusterSize);
      ghost var kept := Kept(contents, clusterSize, denied);
      FlattenNone(data, kept, clusterSize);
      for i := 0 to needed
        invariant Shape() && Laid(fats[0], own, place) && |fats[0]| == old(|fats[0]|)
        invariant Fresh in own && own - {Fresh} == before && |own[Fresh]| == i && old(place).Keys <= place.Keys
        invariant prev == LastOf(own[Fresh]) && start == FirstOf(own[Fresh]) && (i > 0 ==> start >= 2)
        invariant Flatten(data, own[Fresh]) == Chunks(kept, clusterSize, i)
        invariant Agree(old(place), old(data), data)
        invariant Taken(old(Free()), Free(), own[Fresh])
      {
        ghost var was, places, chain, free := data, place, own[Fresh], Free();
        TakenAll(old(Free()), free, chain);
        var c := AppendChunk(prev, contents, i, denied);
        TakenNext(old(Free()), free, chain, c);
        AgreeTrans(old(place), places, old(data), was, data);
        if c == 0 {
          Release(start, Fresh);
          return 0, false;
        }
        if start == 0 {
          start := c;
        }
        prev := c;
      }
      ok := true;
      TakenAll(old(Free()), Free(), own[Fresh]);
      ChunksRestore(kept, clusterSize);
    }

    /** The walk to the last cluster of the directory. */
    method LastCluster() returns (c: nat)
      requires Inv(true)
      ensures c == LastOf(own[Directory])
    {
      hide Value, Owners, FilesOk, DirOk, DataOk, Laid;
      c := root;
      ghost var i := 0;
      DirectoryOwned(own, dir, true);
      DirectoryNotEmpty(own[Directory], root);
      ChainNext(fats[0], own, place, Directory, 0);
      while ReadFat(c) < CLUSTER_END_MIN
        invariant i < |own[Directory]| && c == own[Directory][i] && c < |fats[0]|
        decreases |own[Directory]| - i
      {
        ChainNext(fats[0], own, place, Directory, i);
        ChainStep(fats[0], own, place, Directory, i);
        c := ReadFat(c);
        i := i + 1;
      }
      ChainNext(fats[0], own, place, Directory, i);
      ChainStep(fats[0], own, place, Directory, i);
    }

    /** Extending the directory by a zeroed cluster. */
    method ExtendDirectory() returns (ok: bool)
      requires Inv(true)
      modifies this`fats, this`data, this`dir, this`own, this`place
      ensures Inv(true) && (ok <==> old(Free()) != {})
      ensures !ok ==>
                fats == old(fats) && data == old(data) && dir == old(dir) && own == old(own) && place == old(place)
      ensures ok ==> dir == old(dir) + seq(perCluster, _ => ZERO_ENTRY) && own - {Directory} == old(own) - {Directory}
      ensures ok ==> exists c :: c in old(Free()) && Free() == old(Free()) - {c}
      ensures ok ==> Agree(old(place), old(data), data) && old(place).Keys <= place.Keys
    {
      hide Value, Owners, FilesOk, DirOk, DataOk, Laid, FreeSet;
      AgreeSelf(fats[0], own, place, data, clusterSize);
      DirectoryOwned(own, dir, true);
      var prev := LastCluster();
      var c := AllocateCluster(prev, Directory);
      if c == 0 {
        return false;
      }
      ExtendStep(old(own), own, dir, c, perCluster, clusterSize);
      dir := dir + seq(perCluster, _ => ZERO_ENTRY);
      return true;
    }

    /** Handing the chain under construction to directory slot p. */
    method Adopt(p: nat, e: DirEntry)
      requires Shape() && Laid(fats[0], own, place) && Fresh in own && Slot(p) !in own && p < |dir|
      requires OwnersBut(own - {Fresh}, dir, p) && FilesBut(own, dir, p, clusterSize) && DirOk(dir)
      requires FirstOf(own[Directory]) == root && root >= 2 && |dir| == perCluster * |own[Directory]|
      requires IsFile(e) && !HasBit(e.attr, ATTR_DIRECTORY) && e.cluster == FirstOf(own[Fresh])
      requires |own[Fresh]| == ClustersFor(e.size, clusterSize)
      requires AtEnd(dir[p]) ==> forall q | 0 <= q < p :: !AtEnd(dir[q])
      modifies this`dir, this`own, this`place
      ensures Valid() && dir == old(dir)[p := e] && own == Renamed(old(own), Fresh, Slot(p))
      ensures place.Keys == old(place).Keys
    {
      hide Laid, ClustersFor, Copies, DataOk;
      RenameStep(fats[0], own, place, Fresh, Slot(p));
      AdoptStep(own, dir, p, e, clusterSize);
      own, place := Renamed(own, Fresh, Slot(p)), RenamedPlaces(place, Fresh, Slot(p));
      dir := dir[p := e];
    }

    /** An entry whose name starts with the deleted mark: the chain under construction is lost. */
    method Orphan(p: nat, e: DirEntry) returns (ghost o: Owner)
      requires Inv(true) && p < |dir| && Vacant(dir[p]) && |e.name| == 11 && e.name[0] == DELETED
      requires !HasBit(e.attr, ATTR_DIRECTORY)
      requires forall q | 0 <= q < p :: !AtEnd(dir[q])
      modifies this`dir, this`own, this`place
      ensures Valid() && dir == old(dir)[p := e] && place.Keys == old(place).Keys
      ensures o.Lost? && o !in old(own) && Fresh in old(own) && own == Renamed(old(own), Fresh, o)
    {
      hide Laid, ClustersFor, Copies, DataOk, HasBit;
      ghost var n := UnusedNumber(own.Keys);
      o := Lost(n);
      RenameStep(fats[0], own, place, Fresh, o);
      OrphanStep(own, dir, p, e, o, clusterSize);
      own, place := Renamed(own, Fresh, o), RenamedPlaces(place, Fresh, o);
      dir := dir[p := e];
    }

    /** The search of fat32_add_dir_entry for a free or deleted entry. */
    method FindVacant() returns (p: nat)
      ensures p <= |dir| && (forall q | 0 <= q < p :: !Vacant(dir[q])) && (p < |dir| ==> Vacant(dir[p]))
    {
      p := 0;
      while p < |dir| && !Vacant(dir[p])
        invariant p <= |dir| && forall q | 0 <= q < p :: !Vacant(dir[q])
      {
        p := p + 1;
      }
    }

    /** A vacant slot, in a new cluster of the directory if there is none. */
    method MakeRoom() returns (ok: bool, p: nat)
      requires Inv(true)
      modifies this`fats, this`data, this`dir, this`own, this`place
      ensures Inv(true) && (ok <==> HasVacant(old(dir)) || old(Free()) != {})
      ensures !ok ==>
                fats == old(fats) && data == old(data) && dir == old(dir) && own == old(own) && place == old(place)
      ensures ok ==> dir == (if HasVacant(old(dir)) then old(dir) else old(dir) + seq(perCluster, _ => ZERO_ENTRY))
      ensures ok ==> p <= |old(dir)| && p < |dir| && Vacant(dir[p]) && forall q | 0 <= q < p :: !Vacant(old(dir)[q])
      ensures ok ==> own - {Directory} == old(own) - {Directory}
      ensures ok ==> |Free()| == |old(Free())| - if HasVacant(old(dir)) then 0 else 1
      ensures ok ==> Agree(old(place), old(data), data) && old(place).Keys <= place.Keys
    {
      hide Laid, Copies, DataOk, FreeSet, DirOk, FilesOk, Owners;
      AgreeSelf(fats[0], own, place, data, clusterSize);
      p := FindVacant();
      VacantIff(dir, p);
      ok := true;
      if p == |dir| {
        ok := ExtendDirectory();
      }
    }

    /** fat32_add_dir_entry for the chain under construction. */
    method AddEntry(e: DirEntry) returns (ok: bool, p: nat, ghost o: Owner)
      requires Inv(true) && |e.name| == 11 && e.name[0] != 0 && e.attr == ATTR_ARCHIVE
      requires e.cluster == FirstOf(own[Fresh])
      requires |own[Fresh]| == ClustersFor(e.size, clusterSize)
      modifies this`fats, this`data, this`dir, this`own, this`place
      ensures ok <==> HasVacant(old(dir)) || old(Free()) != {}
      ensures !ok ==>
                Inv(true) && fats == old(fats) && data == old(data) && dir == old(dir) && own == old(own)
                && place == old(place)
      ensures ok ==> Entered(old(dir), dir, p, e, perCluster)
      ensures ok ==> if e.name[0] == DELETED then o.Lost? else o == Slot(p)
      ensures ok ==> Valid() && HandedOver(old(own), own, o)
      ensures ok ==> |Free()| == |old(Free())| - if HasVacant(old(dir)) then 0 else 1
      ensures ok ==> Agree(old(place), old(data), data) && old(place).Keys <= place.Keys
    {
      hide Laid, ClustersFor, Copies, DataOk, FreeSet, DirOk, FilesOk, Owners, OwnersBut, FilesBut, Renamed, HasBit;
      hide HasVacant;
      ArchiveIsFile();
      DirectoryOwned(own, dir, true);
      o := Fresh;
      ok, p := MakeRoom();
      if !ok {
        return;
      }
      NoEndBefore(old(dir), dir, p);
      ghost var mid := own;
      if e.name[0] == DELETED {
        o := Orphan(p, e);
      } else {
        o := Slot(p);
        OwnersFresh(own, dir, p, clusterSize);
        FreshKeptBy(old(own), own);
        Adopt(p, e);
      }
      RenamedRest(old(own), mid, o);
    }

    /** The creating half of fat32_write_file, in the root directory. */
    method Create(name: seq<byte>, contents: seq<byte>, denied: set<nat>) returns (ok: bool, p: nat)
      requires Valid() && IsString(name) && |contents| < 0x1_0000_0000
      modifies this`fats, this`data, this`dir, this`own, this`place
      ensures ok <==> ClustersFor(|contents|, clusterSize) + (if HasVacant(old(dir)) then 0 else 1) <= |old(Free())|
      ensures !ok ==> Valid() && dir == old(dir) && Free() == old(Free()) && Files() == old(Files())
      ensures ok ==>
                p < |dir| && Entered(old(dir), dir, p,
                DirEntry(Generate(name), 0x20, dir[p].cluster, |contents|), perCluster)
      ensures ok && Generate(name)[0] != DELETED ==>
                Valid() && Files() == old(Files())[p := Kept(contents, clusterSize, denied)] && p !in old(Files())
      ensures ok ==>
                |Free()| + ClustersFor(|contents|, clusterSize) + (if HasVacant(old(dir)) then 0 else 1) ==
                |old(Free())|
      ensures ok && Generate(name)[0] == DELETED ==> Valid() && Files() == old(Files())
      ensures Grown(old(Leaked()), Leaked(),
                if ok && Generate(name)[0] == DELETED then ClustersFor(|contents|, clusterSize) else 0)
    {
      hide Laid, ClustersFor, Copies, DataOk, FreeSet, DirOk, FilesOk, Owners, Renamed, HasBit, HasVacant, Generate;
      hide Flatten, Prefix, FilesOf, Entered, Agree, Kept;
      OwnedNow(own, dir);
      var start, enough := AllocateFile(contents, denied);
      FilesKept(old(own), dir, old(place), old(data), data, old(fats)[0]);
      p := 0;
      GrownNot(Leaked());
      if !enough {
        return false, p;
      }
      LeakedKept(old(own), own, {}, {Fresh});
      WithFresh(old(own), own, dir, clusterSize);
      GeneratedStart(name);
      ghost var mid, places, was, some := own, place, data, fats[0];
      ghost var o;
      ok, p, o := AddEntry(DirEntry(Generate(name), ATTR_ARCHIVE, start, |contents|));
      if !ok {
        LeakedKept(own, own - {Fresh}, {Fresh}, {});
        Release(start, Fresh);
        return;
      }
      EnteredAt(old(dir), dir, p, DirEntry(Generate(name), ATTR_ARCHIVE, start, |contents|), perCluster);
      FilesKept(mid, old(dir), places, was, data, some);
      FilesWithFresh(old(own), mid, old(dir), was);
      FilesWithFresh(old(own), mid, old(dir), data);
      if Generate(name)[0] == DELETED {
        FilesOrphaned(mid, own, old(dir), dir, p, DirEntry(Generate(name), ATTR_ARCHIVE, start, |contents|), perCluster,
            data, o);
        LeakedGrows(some, mid, places, own, o);
      } else {
        ArchiveIsFile();
        FreshKept(mid, places, was, data, some);
        FilesEntered(mid, own, old(dir), dir, p, DirEntry(Generate(name), ATTR_ARCHIVE, start, |contents|), perCluster,
            data);
        LeakedKept(mid, own, {Directory, Fresh}, {Directory, Slot(p)});
      }
    }

    /** Overwriting the file in slot p: the old chain goes before the new one is allocated. */
    method Overwrite(p: nat, contents: seq<byte>, denied: set<nat>) returns (ok: bool)
      requires Valid() && p < |dir| && IsFile(dir[p]) && |contents| < 0x1_0000_0000
      modifies this`fats, this`data, this`dir, this`own, this`place
      ensures ok <==> ClustersFor(|contents|, clusterSize) <= |old(Free())| + ClustersFor(old(dir)[p].size, clusterSize)
      ensures ok ==> Valid() && Resized(old(dir), dir, p, |contents|)
      ensures ok ==> Files() == old(Files())[p := Kept(contents, clusterSize, denied)]
      ensures Leaked() == old(Leaked())
      ensures ok ==>
                |Free()| + ClustersFor(|contents|, clusterSize) ==
                |old(Free())| + ClustersFor(old(dir)[p].size, clusterSize)
      ensures !ok ==> dir == old(dir)
      ensures !ok && old(dir)[p].cluster < 2 ==> Valid() && Free() == old(Free()) && Files() == old(Files())
      ensures !ok && old(dir)[p].cluster >= 2 ==> Shape() && Dangles(fats[0], dir[p])
    {
      hide Laid, ClustersFor, Copies, DataOk, FreeSet, DirOk, FilesOk, Owners, Renamed, IsFile, Flatten, Prefix;
      hide FilesOf, Agree, Without;
      hide OwnersBut, FilesBut, Dangles, Kept;
      var e := dir[p];
      SlotFacts(own, dir, p, clusterSize);
      ReleasedCount(fats[0], own, place, Slot(p));
      FilesButSlot(own, dir, p, clusterSize, data);
      Release(e.cluster, Slot(p));
      ghost var own1, place1, fat1 := own, place, fats[0];
      LeakedKept(old(own), own1, {Slot(p)}, {});
      var start, enough := AllocateFile(contents, denied);
      FilesKept(own1, dir, place1, old(data), data, fat1);
      if !enough {
        if e.cluster < 2 {
          EmptyChain(old(fats)[0], old(own), old(place), Slot(p));
          RestoreOwner(fats[0], old(own), own, place, Slot(p));
          FilesRestored(old(own), own, dir, p, data);
          FilesRestored(old(own), own, dir, p, old(data));
          own := old(own);
        } else {
          FreedDangles(fats[0], old(own), p, e);
        }
        return false;
      }
      LeakedKept(own1, own, {}, {Fresh});
      OverwriteOwners(own1, own, dir, p, clusterSize);
      LeakedRenamed(own, Fresh, Slot(p));
      ResizedIsFile(e, start, |contents|);
      FilesReplaced(own1, own, dir, p, e.(cluster := start, size := |contents|), data);
      assert SameBut(FilesOf(old(data), dir, old(own)), FilesOf(old(data), dir, own1), p,
          Kept(contents, clusterSize, denied));
      Adopt(p, e.(cluster := start, size := |contents|));
      ok := true;
    }

    /** The end of fat32_unlink_file: the chain is freed and the entry marked deleted. */
    method Remove(p: nat)
      requires Valid() && p < |dir| && IsFile(dir[p])
      modifies this`fats, this`dir, this`own, this`place
      ensures Valid() && Files() == old(Files()) - {p} && Leaked() == old(Leaked())
      ensures dir == old(dir)[p := old(dir)[p].(name := old(dir)[p].name[0 := DELETED])]
      ensures |Free()| == |old(Free())| + ClustersFor(old(dir)[p].size, clusterSize)
    {
      hide Laid, ClustersFor, Copies, DataOk, FreeSet, DirOk, FilesOk, Owners, Flatten, Prefix, FilesOf, Without;
      hide OwnersBut, FilesBut, HasBit;
      var e := dir[p];
      SlotFacts(own, dir, p, clusterSize);
      ReleasedCount(fats[0], own, place, Slot(p));
      FilesButSlot(own, dir, p, clusterSize, data);
      RemoveStep(own - {Slot(p)}, dir, p, clusterSize, data);
      LeakedKept(own, own - {Slot(p)}, {Slot(p)}, {});
      Release(e.cluster, Slot(p));
      dir := dir[p := e.(name := e.name[0 := DELETED])];
    }

    /** Slot p holds a file with these contents. */
    ghost predicate Holds(p: nat, contents: seq<byte>)
      reads this`data, this`dir, this`own
    {
      p in Files() && Files()[p] == contents
    }

    lemma HoldsChain(p: nat, contents: seq<byte>)
      requires Valid() && p < |dir| && IsFile(dir[p])
      ensures Slot(p) in own
      ensures contents == Prefix(Flatten(data, own[Slot(p)]), dir[p].size) ==> Holds(p, contents)
    {
      hide Laid, ClustersFor, Copies, DataOk, DirOk, Flatten, Prefix, IsFile;
    }

    /** fat32_read_file once the entry is found; the file's buffer and the cluster buffer may not be had. */
    method ReadChain(p: nat, buffer: bool, clusterBuffer: bool) returns (r: Option<seq<byte>>)
      requires Valid() && p < |dir| && IsFile(dir[p])
      ensures Slot(p) in own && (r.Some? <==> dir[p].size == 0 || (buffer && clusterBuffer))
      ensures r.Some? ==> r.value == Prefix(Flatten(data, own[Slot(p)]), dir[p].size)
    {
      hide Laid, ClustersFor, Copies, DirOk, FilesOk, Owners, Flatten, Prefix;
      var size := dir[p].size;
      SlotFacts(own, dir, p, clusterSize);
      ghost var chain := own[Slot(p)];
      var curr := dir[p].cluster;
      if size == 0 || curr < 2 {
        NothingStored(fats[0], own, place, Slot(p), data, size, clusterSize);
        return Some([]);
      }
      if !buffer || !clusterBuffer {
        return None;
      }
      var contents := [];
      ghost var i := 0;
      NothingRead(data, chain, size);
      ChainBounds(fats[0], own, place, Slot(p));
      while curr >= 2 && curr < CLUSTER_END_MIN && |contents| < size
        invariant 0 <= i <= |chain| && contents == Prefix(Flatten(data, chain[..i]), size)
        invariant if i < |chain| then curr == chain[i] else curr < 2 || curr >= CLUSTER_END_MIN
        decreases |chain| - i
      {
        ChainNext(fats[0], own, place, Slot(p), i);
        var toCopy := if size - |contents| > clusterSize then clusterSize else size - |contents|;
        ReadStep(data, chain, i, size, contents);
        contents := contents + data[curr][..toCopy];
        curr := ReadFat(curr);
        i := i + 1;
      }
      ReadEnough(data, chain, i, size);
      return Some(contents);
    }
  }

  lemma NothingStored(fat: seq<nat>, own: Layout, place: Places, o: Owner, data: map<nat, seq<byte>>, size: nat,
                      clusterSize: nat)
    requires clusterSize > 0 && Laid(fat, own, place) && o in own && |own[o]| == ClustersFor(size, clusterSize)
    requires size == 0 || FirstOf(own[o]) < 2
    ensures size == 0 && Prefix(Flatten(data, own[o]), size) == []
  {
    hide Laid, Flatten;
    EnoughClusters(size, clusterSize);
    if size != 0 {
      EmptyChain(fat, own, place, o);
    }
  }

  lemma NothingRead(data: map<nat, seq<byte>>, chain: seq<nat>, size: nat)
    ensures Prefix(Flatten(data, chain[..0]), size) == []
  {
  }

  lemma ReadStep(data: map<nat, seq<byte>>, chain: seq<nat>, i: nat, size: nat, contents: seq<byte>)
    requires i < |chain| && chain[i] in data && contents == Prefix(Flatten(data, chain[..i]), size) && |contents| < size
    ensures Flatten(data, chain[..i]) == contents
    ensures contents + data[chain[i]][..Least(|data[chain[i]]|, size - |contents|)] ==
              Prefix(Flatten(data, chain[..i + 1]), size)
  {
    hide Flatten;
    assert chain[..i + 1] == chain[..i] + [chain[i]];
    FlattenSnoc(data, chain[..i], chain[i]);
  }

  /** Once the size is reached, further clusters add nothing. */
  lemma {:induction false} ReadEnough(data: map<nat, seq<byte>>, chain: seq<nat>, i: nat, size: nat)
    requires i <= |chain|
    ensures i == |chain| || size <= |Prefix(Flatten(data, chain[..i]), size)| ==>
              Prefix(Flatten(data, chain[..i]), size) == Prefix(Flatten(data, chain), size)
    decreases |chain| - i
  {
    hide Flatten;
    if i < |chain| {
      assert chain[..i + 1] == chain[..i] + [chain[i]];
      FlattenSnoc(data, chain[..i], chain[i]);
      ReadEnough(data, chain, i + 1, size);
    } else {
      assert chain[..i] == chain;
    }
  }

  lemma RemoveStep(less: Layout, dir: seq<DirEntry>, p: nat, clusterSize: nat, data: map<nat, seq<byte>>)
    requires clusterSize > 0 && OwnersBut(less, dir, p) && FilesBut(less, dir, p, clusterSize) && DirOk(dir)
    requires p < |dir| && !AtEnd(dir[p])
    ensures var dir' := dir[p := dir[p].(name := dir[p].name[0 := DELETED])];
            && Owners(less, dir', false) && FilesOk(less, dir', clusterSize) && DirOk(dir')
            && FilesOf(data, dir', less) == FilesOf(data, dir, less)
  {
    hide ClustersFor, HasBit, Flatten, Prefix;
    var dir' := dir[p := dir[p].(name := dir[p].name[0 := DELETED])];
    assert Vacant(dir'[p]);
    forall x, y | 0 <= x < y < |dir'| && AtEnd(dir'[x])
      ensures AtEnd(dir'[y])
    {
      assert AtEnd(dir[x]) && AtEnd(dir[y]);
    }
  }

  // ------------------------------------------------------------ well-formed volumes

  ghost predicate Describes(own: Layout, place: Places, fat: seq<nat>, dir: seq<DirEntry>, root: nat, clusterSize: nat)
  {
    && clusterSize > 0 && Laid(fat, own, place) && Owners(own, dir, false) && FilesOk(own, dir, clusterSize)
    && FirstOf(own[Directory]) == root && forall n: nat :: Lost(n) !in own
  }

  /** Some layout of chains explains the table and the directory. */
  ghost predicate WellFormed(fat: seq<nat>, dir: seq<DirEntry>, root: nat, clusterSize: nat)
  {
    exists own, place :: Describes(own, place, fat, dir, root, clusterSize)
  }

  /** A chain is determined by the table and its first cluster. */
  lemma OwnedChain(fat: seq<nat>, own: Layout, place: Places, own': Layout, place': Places, o: Owner)
    requires Laid(fat, own, place) && Laid(fat, own', place') && o in own && o in own'
    requires FirstOf(own[o]) == FirstOf(own'[o])
    ensures own[o] == own'[o]
  {
    hide Value, LinkOk;
    forall j: nat | j < |own[o]|
      ensures LinkOk(fat, own[o], j)
    {
      assert InChain(own, o, j);
    }
    forall j: nat | j < |own'[o]|
      ensures LinkOk(fat, own'[o], j)
    {
      assert InChain(own', o, j);
    }
    ChainUnique(fat, own[o], own'[o]);
  }

  /** The layout is determined by the disk. */
  lemma LayoutUnique(fat: seq<nat>, dir: seq<DirEntry>, root: nat, clusterSize: nat, own: Layout, place: Places,
                     own': Layout, place': Places)
    requires Describes(own, place, fat, dir, root, clusterSize) && Describes(own', place', fat, dir, root, clusterSize)
    ensures own == own'
  {
    hide Laid, IsFile, ClustersFor;
    forall o
      ensures o in own <==> o in own'
      ensures o in own ==> own[o] == own'[o]
    {
      if o.Slot? && o in own {
        assert FileOk(own, dir[o.slot], o.slot, clusterSize) && FileOk(own', dir[o.slot], o.slot, clusterSize);
      }
      if o in own && o in own' {
        OwnedChain(fat, own, place, own', place', o);
      }
    }
  }

  /** After a failed overwrite the entry names a free cluster: no layout explains that. */
  lemma DanglingNotWellFormed(fat: seq<nat>, dir: seq<DirEntry>, root: nat, clusterSize: nat, p: nat)
    requires p < |dir| && Dangles(fat, dir[p])
    ensures !WellFormed(fat, dir, root, clusterSize)
  {
    hide Value, IsFile, ClustersFor;
    forall own, place
      ensures !Describes(own, place, fat, dir, root, clusterSize)
    {
      if Laid(fat, own, place) && Slot(p) in own {
        ChainEntries(fat, own, place, Slot(p));
      }
    }
  }

  /** A chain without an entry is a leak, unless it is empty. */
  lemma OrphanIff(fat: seq<nat>, dir: seq<DirEntry>, root: nat, clusterSize: nat, own: Layout, place: Places)
    requires clusterSize > 0 && Laid(fat, own, place) && Owners(own, dir, false) && FilesOk(own, dir, clusterSize)
    requires FirstOf(own[Directory]) == root
    ensures WellFormed(fat, dir, root, clusterSize) <==> LeakedOf(own) == {}
  {
    hide Value, IsFile, ClustersFor, Laid, LeakedOf;
    if LeakedOf(own) == {} {
      var own' := DropLost(fat, own, place);
      assert Describes(own', place, fat, dir, root, clusterSize);
    } else {
      var c :| c in LeakedOf(own);
      forall own', place'
        ensures !Describes(own', place', fat, dir, root, clusterSize)
      {
        OrphanUnowned(fat, dir, root, clusterSize, own, place, own', place', c);
      }
    }
  }

  lemma OrphanUnowned(fat: seq<nat>, dir: seq<DirEntry>, root: nat, clusterSize: nat, own: Layout, place: Places,
                      own': Layout, place': Places,
                      c: nat)
    requires clusterSize > 0 && Laid(fat, own, place) && Owners(own, dir, false) && FilesOk(own, dir, clusterSize)
    requires FirstOf(own[Directory]) == root
    requires c in LeakedOf(own)
    ensures !Describes(own', place', fat, dir, root, clusterSize)
  {
    hide Value, Laid, Owners, FilesOk;
    if Describes(own', place', fat, dir, root, clusterSize) {
      var lost := LeakedOwner(own, c);
      ChainEntries(fat, own, place, lost);
      var o, i := UsedCluster(fat, own, place, own', place', c);
      SharedChain(fat, dir, root, clusterSize, own, place, own', place', o);
      PlaceOf(fat, own, place, o, i);
    }
  }

  /** Another layout of the same table has to place the cluster somewhere. */
  lemma UsedCluster(fat: seq<nat>, own: Layout, place: Places, own': Layout, place': Places, c: nat)
    returns (o: Owner, i: nat)
    requires Laid(fat, own, place) && Laid(fat, own', place') && c in place
    ensures InChain(own', o, i) && own'[o][i] == c
  {
    hide Value;
    assert InChain(own, place[c].0, place[c].1) && LinkOk(fat, own[place[c].0], place[c].1);
    o, i := place'[c].0, place'[c].1;
  }

  lemma PlaceOf(fat: seq<nat>, own: Layout, place: Places, o: Owner, i: nat)
    requires Laid(fat, own, place) && InChain(own, o, i)
    ensures own[o][i] in place && place[own[o][i]] == (o, i)
  {
    hide Value;
  }

  lemma SharedChain(fat: seq<nat>, dir: seq<DirEntry>, root: nat, clusterSize: nat, own: Layout, place: Places,
                    own': Layout, place': Places, o: Owner)
    requires clusterSize > 0 && Laid(fat, own, place) && Owners(own, dir, false) && FilesOk(own, dir, clusterSize)
    requires FirstOf(own[Directory]) == root
    requires Describes(own', place', fat, dir, root, clusterSize) && o in own'
    ensures o in own && !o.Lost? && own[o] == own'[o]
  {
    hide Laid, IsFile, ClustersFor;
    if o.Slot? {
      assert FileOk(own, dir[o.slot], o.slot, clusterSize) && FileOk(own', dir[o.slot], o.slot, clusterSize);
    }
    OwnedChain(fat, own, place, own', place', o);
  }

  /** Slot p has a new chain and size; its name stays. */
  ghost predicate Resized(dir: seq<DirEntry>, dir': seq<DirEntry>, p: nat, size: nat)
  {
    |dir'| == |dir| && p < |dir| && dir' == dir[p := dir[p].(cluster := dir'[p].cluster, size := size)]
  }

  lemma ResizedIsFile(e: DirEntry, cluster: nat, size: nat)
    ensures IsFile(e.(cluster := cluster, size := size)) <==> IsFile(e)
  {
  }

  /** An entry that names a free cluster. */
  ghost predicate Dangles(fat: seq<nat>, e: DirEntry)
  {
    IsFile(e) && 2 <= e.cluster < |fat| && Value(fat[e.cluster]) == CLUSTER_FREE
  }

  lemma SlotFacts(own: Layout, dir: seq<DirEntry>, p: nat, clusterSize: nat)
    requires clusterSize > 0 && Owners(own, dir, false) && FilesOk(own, dir, clusterSize) && DirOk(dir) && p < |dir|
    requires IsFile(dir[p])
    ensures Slot(p) in own && FirstOf(own[Slot(p)]) == dir[p].cluster
    ensures |own[Slot(p)]| == ClustersFor(dir[p].size, clusterSize)
    ensures Fresh !in own && Directory in own && !AtEnd(dir[p]) && !HasBit(dir[p].attr, ATTR_DIRECTORY)
    ensures forall q | 0 <= q < |dir| :: |dir[q].name| == 11
  {
    hide ClustersFor, HasBit;
  }

  /** Releasing a chain gains as many free clusters as it has. */
  lemma ReleasedCount(fat: seq<nat>, own: Layout, place: Places, o: Owner)
    requires Laid(fat, own, place) && o in own
    ensures |FreeSet(fat) + Clusters(own[o])| == |FreeSet(fat)| + |own[o]| && |Clusters(own[o])| == |own[o]|
  {
    hide Value, Links, Matched;
    ChainEntries(fat, own, place, o);
    ChainSize(own, place, o, |own[o]|);
    assert own[o][..|own[o]|] == own[o];
    assert FreeSet(fat) !! Clusters(own[o]);
  }

  lemma {:induction false} ChainSize(own: Layout, place: Places, o: Owner, n: nat)
    requires Matched(own, place) && o in own && n <= |own[o]|
    ensures |Clusters(own[o][..n])| == n
  {
    hide Matched;
    if n > 0 {
      ChainSize(own, place, o, n - 1);
      NotBefore(own, place, o, n - 1);
      ClustersSnoc(own[o], n - 1);
    }
  }

  lemma ClustersSnoc(chain: seq<nat>, n: nat)
    requires n < |chain|
    ensures Clusters(chain[..n + 1]) == Clusters(chain[..n]) + {chain[n]}
    ensures chain[n] !in chain[..n] ==> chain[n] !in Clusters(chain[..n])
  {
    assert chain[..n + 1] == chain[..n] + [chain[n]];
  }

  ghost predicate SameBut(files: map<nat, seq<byte>>, files': map<nat, seq<byte>>, p: nat, c: seq<byte>)
  {
    files[p := c] == files'[p := c]
  }

  lemma FilesButSlot(own: Layout, dir: seq<DirEntry>, p: nat, clusterSize: nat, data: map<nat, seq<byte>>)
    requires clusterSize > 0 && Owners(own, dir, false) && FilesOk(own, dir, clusterSize) && p < |dir|
    ensures OwnersBut(own - {Slot(p)}, dir, p) && FilesBut(own - {Slot(p)}, dir, p, clusterSize)
    ensures forall c: seq<byte> :: SameBut(FilesOf(data, dir, own), FilesOf(data, dir, own - {Slot(p)}), p, c)
    ensures FilesOf(data, dir, own) - {p} == FilesOf(data, dir, own - {Slot(p)})
  {
    hide ClustersFor, IsFile, Flatten, Prefix;
  }

  lemma RestoreOwner(fat: seq<nat>, own: Layout, less: Layout, place: Places, o: Owner)
    requires Laid(fat, less, place) && o in own && own[o] == [] && less == own - {o}
    ensures Laid(fat, own, place)
  {
    hide Laid;
    StartOwner(fat, less, place, o);
    assert less[o := []] == own;
  }

  lemma FilesRestored(own: Layout, less: Layout, dir: seq<DirEntry>, p: nat, data: map<nat, seq<byte>>)
    requires Slot(p) in own && own[Slot(p)] == [] && less == own - {Slot(p)} && p < |dir|
    ensures IsFile(dir[p]) ==> FilesOf(data, dir, own) == FilesOf(data, dir, less)[p := []]
  {
    hide IsFile;
  }

  lemma FreedDangles(fat: seq<nat>, own: Layout, p: nat, e: DirEntry)
    requires Slot(p) in own && FirstOf(own[Slot(p)]) == e.cluster >= 2 && IsFile(e)
    requires Clusters(own[Slot(p)]) <= FreeSet(fat)
    ensures Dangles(fat, e)
  {
    hide Value, IsFile;
    assert e.cluster in Clusters(own[Slot(p)]);
  }

  lemma OverwriteOwners(own1: Layout, own: Layout, dir: seq<DirEntry>, p: nat, clusterSize: nat)
    requires clusterSize > 0 && OwnersBut(own1, dir, p) && FilesBut(own1, dir, p, clusterSize) && own - {Fresh} == own1
    requires Fresh in own
    ensures OwnersBut(own - {Fresh}, dir, p) && FilesBut(own, dir, p, clusterSize) && own[Directory] == own1[Directory]
    ensures Slot(p) !in own
  {
    hide ClustersFor, IsFile;
    forall o | o != Fresh
      ensures o in own <==> o in own1
      ensures o in own ==> own[o] == own1[o]
    {
      assert o in own - {Fresh} <==> o in own1;
    }
  }

  lemma FilesReplaced(own1: Layout, own: Layout, dir: seq<DirEntry>, p: nat, e: DirEntry, data: map<nat, seq<byte>>)
    requires own - {Fresh} == own1 && Fresh in own && Slot(p) !in own1 && p < |dir| && IsFile(e)
    ensures FilesOf(data, dir[p := e], Renamed(own, Fresh, Slot(p))) ==
              FilesOf(data, dir, own1)[p := Prefix(Flatten(data, own[Fresh]), e.size)]
  {
    hide IsFile, Flatten, Prefix;
    var own' := Renamed(own, Fresh, Slot(p));
    forall q: nat | q != p
      ensures Slot(q) in own' <==> Slot(q) in own1
      ensures Slot(q) in own' ==> own'[Slot(q)] == own1[Slot(q)]
    {
      assert Slot(q) in own - {Fresh} <==> Slot(q) in own1;
    }
  }

  /** So many more, and none fewer. */
  ghost predicate Grown(before: set<nat>, after: set<nat>, n: nat)
  {
    before <= after && |after - before| == n
  }

  lemma GrownNot(clusters: set<nat>)
    ensures forall after :: Grown(clusters, after, 0) <==> after == clusters
  {
    assert clusters - clusters == {};
    forall after | Grown(clusters, after, 0)
      ensures after == clusters
    {
      assert after - clusters == {};
    }
  }

  /** A chain handed over to nobody is leaked, each of its clusters. */
  lemma LeakedGrows(fat: seq<nat>, own: Layout, place: Places, own': Layout, o: Owner)
    requires Laid(fat, own, place) && HandedOver(own, own', o) && o.Lost?
    ensures Grown(LeakedOf(own), LeakedOf(own'), |own[Fresh]|)
  {
    hide Laid, LeakedOf, Clusters;
    LeakedMore(fat, own, place, own', o);
    ReleasedCount(fat, own, place, Fresh);
    assert LeakedOf(own') - LeakedOf(own) == Clusters(own[Fresh]);
  }

  lemma FilesWithFresh(own: Layout, mid: Layout, dir: seq<DirEntry>, data: map<nat, seq<byte>>)
    requires mid - {Fresh} == own
    ensures FilesOf(data, dir, mid) == FilesOf(data, dir, own)
  {
    hide Flatten, Prefix, IsFile;
    forall q: nat
      ensures Slot(q) in own <==> Slot(q) in mid
      ensures Slot(q) in own ==> own[Slot(q)] == mid[Slot(q)]
    {
      assert Slot(q) in mid - {Fresh} <==> Slot(q) in own;
    }
  }

  /** A new entry adds one file. */
  lemma FilesEntered(mid: Layout, own: Layout, dir: seq<DirEntry>, dir': seq<DirEntry>, p: nat, e: DirEntry,
                     perCluster: nat,
                     data: map<nat, seq<byte>>)
    requires Entered(dir, dir', p, e, perCluster) && IsFile(e) && Fresh in mid
    requires HandedOver(mid, own, Slot(p))
    ensures p !in FilesOf(data, dir, mid)
    ensures FilesOf(data, dir', own) == FilesOf(data, dir, mid)[p := Prefix(Flatten(data, mid[Fresh]), e.size)]
  {
    hide Flatten, Prefix, HasVacant, HasBit;
    forall q: nat | q != p
      ensures Slot(q) in own <==> Slot(q) in mid
      ensures Slot(q) in own ==> own[Slot(q)] == mid[Slot(q)]
      ensures q < |dir'| && IsFile(dir'[q]) <==> q < |dir| && IsFile(dir[q])
      ensures q < |dir| ==> q < |dir'| && dir'[q] == dir[q]
    {
      assert Slot(q) in own - {Directory, Slot(p)} <==> Slot(q) in mid - {Directory, Fresh};
    }
  }

  /** An entry that counts as deleted adds no file. */
  lemma FilesOrphaned(mid: Layout, own: Layout, dir: seq<DirEntry>, dir': seq<DirEntry>, p: nat, e: DirEntry,
                      perCluster: nat,
                      data: map<nat, seq<byte>>, o: Owner)
    requires Entered(dir, dir', p, e, perCluster) && Vacant(e) && HandedOver(mid, own, o) && o.Lost?
    ensures FilesOf(data, dir', own) == FilesOf(data, dir, mid)
  {
    hide Flatten, Prefix, HasVacant, HasBit;
    forall q: nat
      ensures Slot(q) in own <==> Slot(q) in mid
      ensures Slot(q) in own ==> own[Slot(q)] == mid[Slot(q)]
      ensures q < |dir'| && IsFile(dir'[q]) <==> q < |dir| && IsFile(dir[q])
      ensures q < |dir| && q != p ==> q < |dir'| && dir'[q] == dir[q]
    {
      assert Slot(q) in own - {Directory, o} <==> Slot(q) in mid - {Directory, Fresh};
    }
  }

  lemma OwnedNow(own: Layout, dir: seq<DirEntry>)
    requires Owners(own, dir, false)
    ensures Directory in own && Fresh !in own
  {
  }

  /** A generated name never starts with the end mark. */
  lemma GeneratedStart(name: seq<byte>)
    requires IsString(name)
    ensures Generate(name)[0] != 0
  {
  }

  lemma EnteredAt(dir: seq<DirEntry>, dir': seq<DirEntry>, p: nat, e: DirEntry, perCluster: nat)
    requires Entered(dir, dir', p, e, perCluster)
    ensures p < |dir'| && dir'[p] == e
  {
    hide HasVacant;
  }

  /** A chain in use keeps its contents. */
  lemma ChainKept(fat: seq<nat>, own: Layout, place: Places, data: map<nat, seq<byte>>, data': map<nat, seq<byte>>,
                  o: Owner)
    requires Laid(fat, own, place) && o in own && Agree(place, data, data')
    ensures Flatten(data, own[o]) == Flatten(data', own[o])
  {
    hide Laid, Flatten;
    ChainInPlace(fat, own, place, o);
    FlattenSame(data, data', own[o]);
  }

  lemma FreshKept(own: Layout, place: Places, data: map<nat, seq<byte>>, data': map<nat, seq<byte>>, fat: seq<nat>)
    requires Laid(fat, own, place) && Fresh in own && Agree(place, data, data')
    ensures Flatten(data, own[Fresh]) == Flatten(data', own[Fresh])
  {
    hide Laid, Flatten;
    ChainKept(fat, own, place, data, data', Fresh);
  }

  /** All files keep their contents. */
  lemma FilesKept(own: Layout, dir: seq<DirEntry>, place: Places, data: map<nat, seq<byte>>, data': map<nat, seq<byte>>,
                  fat: seq<nat>)
    requires Laid(fat, own, place) && Agree(place, data, data')
    ensures FilesOf(data', dir, own) == FilesOf(data, dir, own)
  {
    hide Laid, Flatten, Agree, Prefix, IsFile;
    forall o | o in own
      ensures Flatten(data, own[o]) == Flatten(data', own[o])
    {
      ChainKept(fat, own, place, data, data', o);
    }
  }

  lemma LongNameIsNoFile(e: DirEntry)
    ensures IsFile(e) ==> e.attr != ATTR_LONG_NAME
  {
  }

  lemma ArchiveIsFile()
    ensures !HasBit(ATTR_ARCHIVE, ATTR_VOLUME_ID) && !HasBit(ATTR_ARCHIVE, ATTR_DIRECTORY)
  {
  }

  lemma NoEndBefore(dir: seq<DirEntry>, dir': seq<DirEntry>, p: nat)
    requires p <= |dir| <= |dir'| && dir <= dir' && forall q | 0 <= q < p :: !Vacant(dir[q])
    ensures forall q | 0 <= q < p :: !AtEnd(dir'[q])
  {
  }

  lemma OrphanStep(own: Layout, dir: seq<DirEntry>, p: nat, e: DirEntry, o: Owner, clusterSize: nat)
    requires clusterSize > 0 && Owners(own, dir, true) && FilesOk(own, dir, clusterSize) && DirOk(dir) && p < |dir|
    requires Vacant(dir[p])
    requires |e.name| == 11 && e.name[0] == DELETED && !HasBit(e.attr, ATTR_DIRECTORY)
              && forall q | 0 <= q < p :: !AtEnd(dir[q])
    requires o.Lost? && o !in own
    ensures var own' := Renamed(own, Fresh, o);
            && Owners(own', dir[p := e], false) && FilesOk(own', dir[p := e], clusterSize) && DirOk(dir[p := e])
            && own'[Directory] == own[Directory]
  {
    hide ClustersFor, HasBit;
    var own', dir' := Renamed(own, Fresh, o), dir[p := e];
    forall q: nat
      ensures Slot(q) in own' <==> q < |dir'| && IsFile(dir'[q])
    {
    }
    forall x, y | 0 <= x < y < |dir'| && AtEnd(dir'[x])
      ensures AtEnd(dir'[y])
    {
      assert AtEnd(dir[x]) && AtEnd(dir[y]);
    }
  }

  ghost predicate HasVacant(dir: seq<DirEntry>)
  {
    exists p :: 0 <= p < |dir| && Vacant(dir[p])
  }

  lemma VacantIff(dir: seq<DirEntry>, p: nat)
    requires p <= |dir| && (forall q | 0 <= q < p :: !Vacant(dir[q])) && (p < |dir| ==> Vacant(dir[p]))
    ensures HasVacant(dir) <==> p < |dir|
    ensures forall q | 0 <= q < p :: !AtEnd(dir[q])
  {
  }

  lemma OwnersFresh(own: Layout, dir: seq<DirEntry>, p: nat, clusterSize: nat)
    requires clusterSize > 0 && Owners(own, dir, true) && FilesOk(own, dir, clusterSize) && p < |dir| && Vacant(dir[p])
    ensures OwnersBut(own - {Fresh}, dir, p) && FilesBut(own, dir, p, clusterSize)
    ensures Slot(p) !in own && Directory in own && Fresh in own
  {
    hide ClustersFor;
  }

  /** The chain under construction has gone to o; no other chain has changed, but the directory may have grown. */
  ghost predicate HandedOver(own: Layout, own': Layout, o: Owner)
  {
    && Fresh in own && o !in own && o in own' && own'[o] == own[Fresh]
    && own' - {Directory, o} == own - {Directory, Fresh}
  }

  lemma FreshKeptBy(own: Layout, mid: Layout)
    requires Fresh in own && Fresh in mid && mid - {Directory} == own - {Directory}
    ensures mid[Fresh] == own[Fresh]
  {
    assert Fresh in mid - {Directory} && (mid - {Directory})[Fresh] == (own - {Directory})[Fresh];
  }

  lemma RenamedRest(own: Layout, mid: Layout, o: Owner)
    requires Fresh in own && Fresh in mid && mid - {Directory} == own - {Directory} && o !in mid && o != Directory
    ensures HandedOver(own, Renamed(mid, Fresh, o), o)
  {
    var own' := Renamed(mid, Fresh, o);
    FreshKeptBy(own, mid);
    assert o !in mid - {Directory};
    assert own' - {Directory, o} == mid - {Directory} - {Fresh};
    assert own - {Directory, Fresh} == own - {Directory} - {Fresh};
  }

  /** Entry e went into the first vacant slot, in a new cluster if there was none. */
  ghost predicate Entered(dir: seq<DirEntry>, dir': seq<DirEntry>, p: nat, e: DirEntry, perCluster: nat)
  {
    var room := if HasVacant(dir) then dir else dir + seq(perCluster, _ => ZERO_ENTRY);
    && p <= |dir| && p < |room| && Vacant(room[p]) && (forall q | 0 <= q < p :: !Vacant(dir[q]))
    && dir' == room[p := e]
  }

  /** Slot p aside, the owners are the files and the directory. */
  ghost predicate OwnersBut(own: Layout, dir: seq<DirEntry>, p: nat)
  {
    && Directory in own && Fresh !in own
    && (forall q: nat :: Slot(q) in own <==> q < |dir| && q != p && IsFile(dir[q]))
  }

  ghost predicate FilesBut(own: Layout, dir: seq<DirEntry>, p: nat, clusterSize: nat)
    requires clusterSize > 0
  {
    forall q | 0 <= q < |dir| && q != p && IsFile(dir[q]) :: FileOk(own, dir[q], q, clusterSize)
  }

  lemma AdoptStep(own: Layout, dir: seq<DirEntry>, p: nat, e: DirEntry, clusterSize: nat)
    requires clusterSize > 0 && p < |dir| && Fresh in own && Slot(p) !in own
    requires OwnersBut(own - {Fresh}, dir, p) && FilesBut(own, dir, p, clusterSize) && DirOk(dir)
    requires IsFile(e) && !HasBit(e.attr, ATTR_DIRECTORY) && e.cluster == FirstOf(own[Fresh])
    requires |own[Fresh]| == ClustersFor(e.size, clusterSize)
    requires AtEnd(dir[p]) ==> forall q | 0 <= q < p :: !AtEnd(dir[q])
    ensures var own' := Renamed(own, Fresh, Slot(p));
            && Owners(own', dir[p := e], false) && FilesOk(own', dir[p := e], clusterSize) && DirOk(dir[p := e])
            && own'[Directory] == own[Directory]
  {
    hide ClustersFor, HasBit;
    LongNameIsNoFile(e);
    var own', dir' := Renamed(own, Fresh, Slot(p)), dir[p := e];
    forall q: nat
      ensures Slot(q) in own' <==> q < |dir'| && IsFile(dir'[q])
    {
      assert Slot(q) in own - {Fresh} <==> Slot(q) in own;
    }
    forall q | 0 <= q < |dir'| && IsFile(dir'[q])
      ensures FileOk(own', dir'[q], q, clusterSize)
    {
      assert q != p ==> FileOk(own, dir[q], q, clusterSize);
    }
  }

  lemma DirectoryNotEmpty(chain: seq<nat>, root: nat)
    requires FirstOf(chain) == root && root >= 2
    ensures chain != [] && chain[0] == root
  {
  }

  lemma DirectoryOwned(own: Layout, dir: seq<DirEntry>, pending: bool)
    requires Owners(own, dir, pending)
    ensures Directory in own && (pending ==> Fresh in own)
  {
  }

  lemma ChainStep(fat: seq<nat>, own: Layout, place: Places, o: Owner, i: nat)
    requires Laid(fat, own, place) && InChain(own, o, i) && own[o][i] < |fat|
    ensures Value(fat[own[o][i]]) < CLUSTER_END_MIN <==> i + 1 < |own[o]|
    ensures i + 1 == |own[o]| ==> own[o][i] == LastOf(own[o])
    ensures i + 1 < |own[o]| ==> own[o][i + 1] < |fat|
  {
    hide Value;
    assert LinkOk(fat, own[o], i);
    assert i + 1 < |own[o]| ==> InChain(own, o, i + 1) && LinkOk(fat, own[o], i + 1);
  }

  lemma ExtendStep(own: Layout, own': Layout, dir: seq<DirEntry>, c: nat, perCluster: nat, clusterSize: nat)
    requires clusterSize > 0 && Owners(own, dir, true) && FilesOk(own, dir, clusterSize) && DirOk(dir)
    requires own' == own[Directory := own[Directory] + [c]] && |dir| == perCluster * |own[Directory]|
    requires own[Directory] != []
    ensures var dir' := dir + seq(perCluster, _ => ZERO_ENTRY);
            && Owners(own', dir', true) && FilesOk(own', dir', clusterSize) && DirOk(dir')
            && |dir'| == perCluster * |own'[Directory]| && FirstOf(own'[Directory]) == FirstOf(own[Directory])
            && own' - {Directory} == own - {Directory}
  {
    hide ClustersFor;
    var dir' := dir + seq(perCluster, _ => ZERO_ENTRY);
    assert perCluster * (|own[Directory]| + 1) == perCluster * |own[Directory]| + perCluster;
    assert !HasBit(0, ATTR_DIRECTORY);
  }

  lemma DataStored(data: map<nat, seq<byte>>, total: nat, clusterSize: nat, c: nat, bytes: seq<byte>)
    requires DataOk(data, total, clusterSize) && 2 <= c < total && |bytes| == clusterSize
    ensures DataOk(data[c := bytes], total, clusterSize)
  {
  }

  lemma ChunksSnoc(s: seq<byte>, clusterSize: nat, k: nat)
    ensures Chunks(s, clusterSize, k + 1) == Chunks(s, clusterSize, k) + Chunk(s, clusterSize, k)
  {
    hide Chunk;
  }

  lemma AgreeSelf(fat: seq<nat>, own: Layout, place: Places, data: map<nat, seq<byte>>, clusterSize: nat)
    requires Laid(fat, own, place) && DataOk(data, |fat|, clusterSize)
    ensures Agree(place, data, data)
  {
    hide Value;
    forall c | c in place
      ensures c in data
    {
      assert LinkOk(fat, own[place[c].0], place[c].1);
    }
  }

  lemma AgreeTrans(less: Places, more: Places, d0: map<nat, seq<byte>>, d1: map<nat, seq<byte>>,
                   d2: map<nat, seq<byte>>)
    requires Agree(less, d0, d1) && Agree(more, d1, d2) && less.Keys <= more.Keys
    ensures Agree(less, d0, d2)
  {
  }

  lemma ChainInPlace(fat: seq<nat>, own: Layout, place: Places, o: Owner)
    requires Laid(fat, own, place) && o in own
    ensures forall c | c in own[o] :: c in place
  {
    hide Value;
    ChainEntries(fat, own, place, o);
  }

  /** The files do not notice a chain under construction. */
  lemma WithFresh(before: Layout, own: Layout, dir: seq<DirEntry>, clusterSize: nat)
    requires clusterSize > 0 && Owners(before, dir, false) && FilesOk(before, dir, clusterSize) && Fresh in own
    requires own - {Fresh} == before
    ensures Owners(own, dir, true) && FilesOk(own, dir, clusterSize) && own[Directory] == before[Directory]
  {
    hide ClustersFor;
    forall o | o != Fresh
      ensures o in own <==> o in before
      ensures o in own ==> own[o] == before[o]
    {
      assert o in own - {Fresh} <==> o in before;
    }
  }

  lemma ClustersAppend(chain: seq<nat>, c: nat)
    ensures Clusters(chain + [c]) == Clusters(chain) + {c}
  {
  }

  /** The chain took its clusters out of the free ones. */
  ghost predicate Taken(free: set<nat>, free': set<nat>, chain: seq<nat>)
  {
    |free'| + |chain| == |free| && free' + Clusters(chain) == free
  }

  lemma TakenNone(free: set<nat>)
    ensures Taken(free, free, [])
  {
  }

  lemma TakenNext(free: set<nat>, free': set<nat>, chain: seq<nat>, c: nat)
    requires Taken(free, free', chain)
    ensures c in free' ==> Taken(free, free' - {c}, chain + [c])
    ensures free' == {} ==> |chain| == |free|
  {
    hide Clusters;
    ClustersAppend(chain, c);
  }

  lemma TakenAll(free: set<nat>, free': set<nat>, chain: seq<nat>)
    requires Taken(free, free', chain)
    ensures |free'| + |chain| == |free| && free' + Clusters(chain) == free
  {
  }

  /** The clusters in use kept their contents. */
  ghost predicate Agree(place: Places, data: map<nat, seq<byte>>, data': map<nat, seq<byte>>)
  {
    forall c | c in place :: c in data && c in data' && data[c] == data'[c]
  }

  lemma EmptyChain(fat: seq<nat>, own: Layout, place: Places, o: Owner)
    requires Laid(fat, own, place) && o in own && FirstOf(own[o]) < 2
    ensures own[o] == [] && Freed(fat, fat, own[o], |own[o]|)
  {
    hide Value;
    ChainBounds(fat, own, place, o);
  }

  /** A new owner starts with no clusters. */
  lemma StartOwner(fat: seq<nat>, own: Layout, place: Places, o: Owner)
    requires Laid(fat, own, place) && o !in own
    ensures Laid(fat, own[o := []], place) && own[o := []] - {o} == own
  {
    hide Value;
    assert Matched(own[o := []], place);
  }

  lemma FlattenNone(data: map<nat, seq<byte>>, contents: seq<byte>, clusterSize: nat)
    ensures Flatten(data, []) == Chunks(contents, clusterSize, 0)
  {
  }

  lemma FreedNone(fat: seq<nat>, chain: seq<nat>)
    ensures Freed(fat, fat, chain, 0)
  {
    hide Value;
  }

  lemma ChainBounds(fat: seq<nat>, own: Layout, place: Places, o: Owner)
    requires Laid(fat, own, place) && o in own
    ensures |fat| <= CLUSTER_RESERVED
    ensures forall i | 0 <= i < |own[o]| :: 2 <= own[o][i] < |fat|
  {
    hide Value;
    ChainEntries(fat, own, place, o);
  }

  lemma ChainNext(fat: seq<nat>, own: Layout, place: Places, o: Owner, i: nat)
    requires Laid(fat, own, place) && InChain(own, o, i)
    ensures 2 <= own[o][i] < |fat|
    ensures if i + 1 < |own[o]| then Value(fat[own[o][i]]) == own[o][i + 1]
              else Value(fat[own[o][i]]) >= CLUSTER_END_MIN
  {
    hide Value;
    assert LinkOk(fat, own[o], i);
  }

  /** Freeing the next cluster; its entry was still the old one. */
  lemma FreedNext(fat: seq<nat>, fat': seq<nat>, own: Layout, place: Places, o: Owner, i: nat)
    requires Laid(fat, own, place) && InChain(own, o, i) && Freed(fat, fat', own[o], i) && own[o][i] < |fat| == |fat'|
    ensures fat'[own[o][i]] == fat[own[o][i]]
    ensures Freed(fat, fat'[own[o][i] := Store(fat'[own[o][i]], CLUSTER_FREE)], own[o], i + 1)
  {
    hide Value, Store, Freed, Links, LeakFree, Matched;
    var c := own[o][i];
    StoreValue(fat'[c], CLUSTER_FREE);
    NotBefore(own, place, o, i);
    FreedExtend(fat, fat', own[o], i, Store(fat'[c], CLUSTER_FREE));
  }

  lemma FreedExtend(fat: seq<nat>, fat': seq<nat>, chain: seq<nat>, i: nat, entry: nat)
    requires i < |chain| && Freed(fat, fat', chain, i) && chain[i] < |fat| && chain[i] !in chain[..i]
    requires Value(entry) == CLUSTER_FREE
    ensures fat'[chain[i]] == fat[chain[i]] && Freed(fat, fat'[chain[i] := entry], chain, i + 1)
  {
    hide Value;
    assert chain[..i + 1] == chain[..i] + [chain[i]];
  }

  lemma NotBefore(own: Layout, place: Places, o: Owner, i: nat)
    requires Matched(own, place) && InChain(own, o, i)
    ensures own[o][i] !in own[o][..i]
  {
    forall j: nat | j < i
      ensures own[o][j] != own[o][i]
    {
      assert InChain(own, o, j);
    }
  }

  lemma FreeFacts(fat: seq<nat>, own: Layout, place: Places, c: nat)
    requires Laid(fat, own, place) && c in FreeSet(fat)
    ensures 2 <= c < |fat| && Value(fat[c]) == CLUSTER_FREE && c !in place
  {
    hide Value;
  }

  lemma LinkedUnfold(fat: seq<nat>, prev: nat, c: nat)
    requires c < |fat| && prev < |fat|
    ensures |Linked(fat, prev, c)| == |fat|
    ensures Linked(fat, prev, c) ==
            var ended := fat[c := Store(fat[c], CLUSTER_END)];
            if prev >= 2 then ended[prev := Store(ended[prev], c)] else ended
  {
  }
}

/** Paths on a volume whose only directory is the root, and the file operations. */
module Fat32 {
  import opened Bytes
  import opened Options
  import opened Fat32Names
  import opened Fat32Chains
  import opened Fat32Files

  const MAX_COMPONENT: nat := 255
  const SLASH: byte := 0x2f
  const BACKSLASH: byte := 0x5c

  predicate IsSeparator(c: byte)
  {
    c == SLASH || c == BACKSLASH
  }

  function SkipSeparators(path: seq<byte>): (r: seq<byte>)
    ensures |r| <= |path| && (r != [] ==> !IsSeparator(r[0]))
  {
    if path != [] && IsSeparator(path[0]) then SkipSeparators(path[1..]) else path
  }

  lemma {:induction false} Skipped(path: seq<byte>)
    ensures var k := |path| - |SkipSeparators(path)|;
            SkipSeparators(path) == path[k..] && forall i | 0 <= i < k :: IsSeparator(path[i])
  {
    if path != [] && IsSeparator(path[0]) {
      Skipped(path[1..]);
    }
  }

  /** The length of the first component. */
  function ComponentLength(path: seq<byte>): (n: nat)
    ensures n <= |path| && (forall i | 0 <= i < n :: !IsSeparator(path[i])) && (n < |path| ==> IsSeparator(path[n]))
  {
    if path != [] && !IsSeparator(path[0]) then 1 + ComponentLength(path[1..]) else 0
  }

  /** The file a path can name: its only component, as far as the buffer holds it. */
  function Target(path: seq<byte>): Option<seq<byte>>
  {
    var start := SkipSeparators(path);
    var n := ComponentLength(start);
    if start != [] && SkipSeparators(start[n..]) == [] then Some(start[..Least(n, 255)]) else None
  }

  predicate IsRoot(path: seq<byte>)
  {
    path != [] && SkipSeparators(path) == []
  }

  function LastSeparator(path: seq<byte>): (d: Option<nat>)
    ensures d.Some? ==>
              d.value < |path| && IsSeparator(path[d.value]) && forall i | d.value < i < |path| :: !IsSeparator(path[i])
    ensures d.None? ==> forall i | 0 <= i < |path| :: !IsSeparator(path[i])
  {
    if path == [] then None
    else if IsSeparator(path[|path| - 1]) then Some(|path| - 1)
    else LastSeparator(path[..|path| - 1])
  }

  function FileName(path: seq<byte>): seq<byte>
  {
    var last := LastSeparator(path);
    if last.Some? then path[last.value + 1..] else path
  }

  /** Where a new file's parent resolves to the root directory. */
  predicate ParentIsRoot(path: seq<byte>)
  {
    var last := LastSeparator(path);
    last.Some? ==> IsRoot(path[..Least(last.value, 255)])
  }

  // ------------------------------------------------------------ the file operations

  datatype Found = Missing | RootFound | Entry(slot: nat)

  /** fat32_lookup_path, where no entry of the root is a directory. */
  method LookupPath(volume: Volume, path: seq<byte>) returns (found: Found)
    requires volume.Valid() && IsString(path)
    ensures found.RootFound? <==> IsRoot(path)
    ensures found.Entry? ==> Target(path).Some? && FirstMatch(volume.dir, Target(path).value, found.slot)
    ensures found.Missing? && Target(path).Some? ==> NoMatch(volume.dir, Target(path).value)
  {
    hide Laid, Owners, FilesOk, Copies, DataOk, FirstMatch, NoMatch, SkipSeparators, ComponentLength;
    if path == [] {
      SkipNone(path);
      return Missing;
    }
    var start := SkipSeparators(path);
    if start == [] {
      return RootFound;
    }
    var n := ComponentLength(start);
    var component := start[..Least(n, MAX_COMPONENT)];
    var rest := SkipSeparators(start[n..]);
    Skipped(path);
    var found' := FindEntry(volume.dir, component);
    if found'.None? || rest != [] {
      return Missing;
    }
    return Entry(found'.value);
  }

  /** A file of this size can be read if it is empty or both buffers can be had. */
  predicate Readable(size: nat, buffer: bool, clusterBuffer: bool)
  {
    size == 0 || (buffer && clusterBuffer)
  }

  /** There is a match, and it can be read. */
  ghost predicate CanRead(dir: seq<DirEntry>, path: seq<byte>, buffer: bool, clusterBuffer: bool)
  {
    && Target(path).Some?
    && exists p: nat :: FirstMatch(dir, Target(path).value, p) && Readable(SizeAt(dir, p), buffer, clusterBuffer)
  }

  /** These are the contents of the first match. */
  ghost predicate Finds(volume: Volume, path: seq<byte>, contents: seq<byte>)
    reads volume
  {
    Target(path).Some? && exists p: nat :: FirstMatch(volume.dir, Target(path).value, p) && volume.Holds(p, contents)
  }

  lemma CanReadIff(dir: seq<DirEntry>, path: seq<byte>, p: nat, buffer: bool, clusterBuffer: bool)
    requires Target(path).Some? && FirstMatch(dir, Target(path).value, p)
    ensures CanRead(dir, path, buffer, clusterBuffer) <==> Readable(SizeAt(dir, p), buffer, clusterBuffer)
  {
    hide FirstMatch, Target, Readable, SizeAt;
    if CanRead(dir, path, buffer, clusterBuffer) {
      var q: nat :| FirstMatch(dir, Target(path).value, q) && Readable(SizeAt(dir, q), buffer, clusterBuffer);
      OneFirstMatch(dir, Target(path).value, p, q);
    }
  }

  lemma CannotRead(dir: seq<DirEntry>, path: seq<byte>, buffer: bool, clusterBuffer: bool)
    requires Target(path).Some? ==> NoMatch(dir, Target(path).value)
    ensures !CanRead(dir, path, buffer, clusterBuffer)
  {
    hide Target, Readable, SizeAt, Matches;
  }

  lemma FindsFirst(volume: Volume, path: seq<byte>, p: nat, contents: seq<byte>)
    requires Target(path).Some? && FirstMatch(volume.dir, Target(path).value, p)
    ensures Finds(volume, path, contents) <==> volume.Holds(p, contents)
  {
    hide FirstMatch, Target, Volume.Holds;
    if Finds(volume, path, contents) {
      var q: nat :| FirstMatch(volume.dir, Target(path).value, q) && volume.Holds(q, contents);
      OneFirstMatch(volume.dir, Target(path).value, p, q);
    }
  }

  /** fat32_read_file: the contents of the first entry that matches. */
  method ReadFile(volume: Volume, path: seq<byte>, buffer: bool, clusterBuffer: bool) returns (r: Option<seq<byte>>)
    requires volume.Valid() && IsString(path)
    ensures r.Some? <==> CanRead(volume.dir, path, buffer, clusterBuffer)
    ensures r.Some? ==> Finds(volume, path, r.value)
  {
    hide Laid, Owners, FilesOk, Copies, DataOk, NoMatch, SkipSeparators, ComponentLength, Flatten, Prefix, CanRead;
    hide Finds;
    var found := LookupPath(volume, path);
    if !found.Entry? {
      CannotRead(volume.dir, path, buffer, clusterBuffer);
      return None;
    }
    CanReadIff(volume.dir, path, found.slot, buffer, clusterBuffer);
    r := volume.ReadChain(found.slot, buffer, clusterBuffer);
    if r.Some? {
      volume.HoldsChain(found.slot, r.value);
      FindsFirst(volume, path, found.slot, r.value);
    }
  }

  /** What a successful write does: one file has the contents, every other file is as before. */
  ghost predicate Wrote(files: map<nat, seq<byte>>, files': map<nat, seq<byte>>, p: nat, contents: seq<byte>)
  {
    files' == files[p := contents]
  }

  /** fat32_write_file; `denied` are the positions in the file of the clusters for which no buffer could be had. */
  method WriteFile(volume: Volume, path: seq<byte>, contents: seq<byte>, denied: set<nat>)
    returns (ok: bool, ghost p: nat, ghost created: bool)
    requires volume.Valid() && IsString(path) && |contents| < 0x1_0000_0000
    modifies volume`fats, volume`data, volume`dir, volume`own, volume`place
    ensures created ==> IsRoot(path) || Target(path).None? || NoMatch(old(volume.dir), Target(path).value)
    ensures !created ==> Target(path).Some? && FirstMatch(old(volume.dir), Target(path).value, p)
    ensures ok && created ==> ParentIsRoot(path) && !IsRoot(path)
    ensures ok && created ==>
              Entered(old(volume.dir), volume.dir, p, NewEntry(path, ClusterAt(volume.dir, p), contents),
              volume.perCluster)
    ensures ok && !created ==> Resized(old(volume.dir), volume.dir, p, |contents|)
    ensures ok && !(created && Marked(path)) ==>
              volume.Valid()
              && Wrote(old(volume.Files()), volume.Files(), p, Kept(contents, volume.clusterSize, denied))
    ensures ok && created && Marked(path) ==> volume.Valid() && volume.Files() == old(volume.Files())
    ensures volume.fats != []
    ensures Grown(old(volume.Leaked()), volume.Leaked(), Leaks(ok && created, path, |contents|, volume.clusterSize))
    ensures ok ==> (WellFormed(volume.fats[0], volume.dir, volume.root, volume.clusterSize) <==>
                      old(volume.Leaked()) == {} && !(created && Marked(path) && contents != []))
    ensures !ok && created ==>
              volume.Valid() && volume.Files() == old(volume.Files()) && volume.Free() == old(volume.Free())
              && volume.dir == old(volume.dir)
    ensures created && !IsRoot(path) ==>
              (ok <==>
              ParentIsRoot(path) && RoomFor(|contents|, volume.clusterSize, old(volume.dir), |old(volume.Free())|))
    ensures !created ==> (ok <==> RoomInstead(|contents|, volume.clusterSize, old(volume.dir), p, |old(volume.Free())|))
    ensures ok ==>
              Spent(created, |contents|, volume.clusterSize, old(volume.dir), p, |old(volume.Free())|, |volume.Free()|)
    ensures !ok && !created ==> volume.dir == old(volume.dir)
    ensures !ok && !created && ClusterAt(old(volume.dir), p) < 2 ==>
              volume.Valid() && volume.Files() == old(volume.Files()) && volume.Free() == old(volume.Free())
    ensures !ok && !created && ClusterAt(old(volume.dir), p) >= 2 ==> DanglesAt(volume.fats, volume.dir, p)
  {
    hide Laid, Owners, FilesOk, Copies, DataOk, DirOk, FirstMatch, NoMatch, SkipSeparators, ComponentLength, Flatten;
    hide Prefix, FilesOf, Target;
    hide FreeSet, Generate, Entered, Resized, Dangles, ClustersFor, HasVacant, LastSeparator, WellFormed, Grown;
    var found := LookupPath(volume, path);
    p := 0;
    created := true;
    GrownNot(volume.Leaked());
    HasTable(volume);
    if found.RootFound? {
      return false, p, created;
    }
    if found.Entry? {
      p, created := found.slot, false;
      MatchIsFile(volume.dir, Target(path).value, p);
      ok := volume.Overwrite(found.slot, contents, denied);
      if ok {
        volume.LeakFreeIff();
      }
      return;
    }
    var last := LastSeparator(path);
    if last.Some? {
      var parent := LookupPath(volume, path[..Least(last.value, MAX_COMPONENT)]);
      if !parent.RootFound? {
        return false, p, created;
      }
    }
    FileNameIsString(path);
    var slot;
    ok, slot := volume.Create(FileName(path), contents, denied);
    p := slot;
    if ok {
      volume.LeakFreeIff();
      LeaksSome(old(volume.Leaked()), volume.Leaked(), |contents|, volume.clusterSize, Marked(path));
    }
  }

  lemma HasTable(volume: Volume)
    requires volume.Valid()
    ensures volume.fats != [] && volume.clusterSize > 0
  {
    hide Laid, Owners, FilesOk, DirOk, Copies, DataOk;
  }

  lemma LeaksSome(before: set<nat>, after: set<nat>, size: nat, clusterSize: nat, marked: bool)
    requires clusterSize > 0 && Grown(before, after, if marked then ClustersFor(size, clusterSize) else 0)
    ensures after == {} <==> before == {} && !(marked && size > 0)
  {
    EnoughClusters(size, clusterSize);
    assert after == before + (after - before);
  }

  /** Enough free clusters for the contents, and one more if the directory has to grow. */
  ghost predicate RoomFor(size: nat, clusterSize: nat, dir: seq<DirEntry>, free: nat)
  {
    clusterSize > 0 && ClustersFor(size, clusterSize) + (if HasVacant(dir) then 0 else 1) <= free
  }

  /** Enough free clusters for the contents once those of the file in slot p are free. */
  ghost predicate RoomInstead(size: nat, clusterSize: nat, dir: seq<DirEntry>, p: nat, free: nat)
  {
    clusterSize > 0 && p < |dir| && ClustersFor(size, clusterSize) <= free + ClustersFor(dir[p].size, clusterSize)
  }

  /**
   * A successful write takes the clusters of the contents, gives back those of the old file, and may extend the
   * directory.
   */
  ghost predicate Spent(created: bool, size: nat, clusterSize: nat, dir: seq<DirEntry>, p: nat, free: nat, free': nat)
  {
    && clusterSize > 0
    && free' + ClustersFor(size, clusterSize) ==
       if created then free - (if HasVacant(dir) then 0 else 1) else free + ClustersFor(SizeAt(dir, p), clusterSize)
  }

  function ClusterAt(dir: seq<DirEntry>, p: nat): nat
  {
    if p < |dir| then dir[p].cluster else 0
  }

  function SizeAt(dir: seq<DirEntry>, p: nat): nat
  {
    if p < |dir| then dir[p].size else 0
  }

  ghost predicate DanglesAt(fats: seq<seq<nat>>, dir: seq<DirEntry>, p: nat)
  {
    fats != [] && p < |dir| && Dangles(fats[0], dir[p])
  }

  function NewEntry(path: seq<byte>, cluster: nat, contents: seq<byte>): DirEntry
  {
    DirEntry(Generate(FileName(path)), 0x20, cluster, |contents|)
  }

  /** The new name would start with the deleted mark. */
  predicate Marked(path: seq<byte>)
  {
    Generate(FileName(path))[0] == DELETED
  }

  /** How many clusters a write leaks: all it takes, if it creates an entry that counts as deleted. */
  ghost function Leaks(created: bool, path: seq<byte>, size: nat, clusterSize: nat): nat
  {
    if created && Marked(path) && clusterSize > 0 then ClustersFor(size, clusterSize) else 0
  }

  lemma GeneratedFirst(name: seq<byte>)
    requires name != [] && forall i | 0 <= i < |name| :: name[i] != DOT && !IsSeparator(name[i])
    ensures FileName(name) == name && Generate(name)[0] == ToUpper(name[0])
  {
  }

  lemma MatchIsFile(dir: seq<DirEntry>, name: seq<byte>, p: nat)
    requires FirstMatch(dir, name, p)
    ensures p < |dir| && IsFile(dir[p])
  {
  }

  lemma FileNameIsString(path: seq<byte>)
    requires IsString(path)
    ensures IsString(FileName(path))
  {
  }

  /** fat32_unlink_file */
  method UnlinkFile(volume: Volume, path: seq<byte>) returns (ok: bool, ghost p: nat)
    requires volume.Valid() && IsString(path)
    modifies volume`fats, volume`dir, volume`own, volume`place
    ensures volume.Valid() && volume.Leaked() == old(volume.Leaked())
    ensures ok ==>
              Target(path).Some? && FirstMatch(old(volume.dir), Target(path).value, p)
              && volume.Files() == old(volume.Files()) - {p}
    ensures ok ==>
              p < |old(volume.dir)|
              && |volume.Free()| == |old(volume.Free())| + ClustersFor(old(volume.dir)[p].size, volume.clusterSize)
    ensures !ok ==>
              volume.dir == old(volume.dir) && volume.Files() == old(volume.Files())
              && volume.Free() == old(volume.Free())
    ensures !ok ==> (Target(path).Some? ==> NoMatch(volume.dir, Target(path).value))
  {
    hide Laid, Owners, FilesOk, Copies, DataOk, DirOk, FirstMatch, NoMatch, SkipSeparators, ComponentLength, Flatten;
    hide Prefix, FilesOf, FreeSet, ClustersFor;
    var found := LookupPath(volume, path);
    p := 0;
    if !found.Entry? {
      return false, p;
    }
    p := found.slot;
    MatchIsFile(volume.dir, Target(path).value, p);
    volume.Remove(found.slot);
    ok := true;
  }

  // ------------------------------------------------------------ reading back

  /** Matching looks at the case-folded name only. */
  lemma MatchesAnyCase(e: DirEntry, name: seq<byte>, name': seq<byte>)
    requires Upper(name) == Upper(name')
    ensures Matches(e, name) <==> Matches(e, name')
  {
    hide IsFile, ShortName, Upper;
  }

  lemma FirstAfterEntered(dir: seq<DirEntry>, dir': seq<DirEntry>, p: nat, e: DirEntry, perCluster: nat,
                          name: seq<byte>, name': seq<byte>)
    requires Entered(dir, dir', p, e, perCluster) && NoMatch(dir, name) && Matches(e, name')
    requires Upper(name) == Upper(name')
    ensures FirstMatch(dir', name', p)
  {
    hide Matches, HasVacant, Upper, Vacant;
    forall q | 0 <= q < p
      ensures !Matches(dir'[q], name')
    {
      assert dir'[q] == dir[q];
      MatchesAnyCase(dir[q], name, name');
    }
  }

  lemma FirstAfterResized(dir: seq<DirEntry>, dir': seq<DirEntry>, p: nat, size: nat, name: seq<byte>, name': seq<byte>)
    requires Resized(dir, dir', p, size) && FirstMatch(dir, name, p) && Upper(name) == Upper(name')
    ensures FirstMatch(dir', name', p)
  {
    hide Upper, Format, Cut, HasBit;
  }

  /** The entry of a written file carries the size of the contents. */
  lemma WrittenSize(dir: seq<DirEntry>, dir': seq<DirEntry>, p: nat, path: seq<byte>, contents: seq<byte>,
                    perCluster: nat)
    requires Entered(dir, dir', p, NewEntry(path, ClusterAt(dir', p), contents), perCluster)
              || Resized(dir, dir', p, |contents|)
    ensures SizeAt(dir', p) == |contents|
  {
    hide HasVacant, Generate, FileName;
  }

  lemma OneFirstMatch(dir: seq<DirEntry>, name: seq<byte>, p: nat, q: nat)
    requires FirstMatch(dir, name, p) && FirstMatch(dir, name, q)
    ensures p == q
  {
    hide Matches;
  }

  predicate EndsInSeparator(path: seq<byte>)
  {
    path != [] && IsSeparator(path[|path| - 1])
  }

  /** The names under which a new file can be found again. */
  ghost predicate Recorded(path: seq<byte>)
  {
    Target(path).Some? && Representable(Target(path).value) && !Marked(path) && !EndsInSeparator(path)
  }

  /** The entry of a new file matches its path exactly if the path is one that can be found again. */
  lemma NewEntryMatchesIff(path: seq<byte>, name': seq<byte>, cluster: nat, contents: seq<byte>)
    requires IsString(path) && Target(path).Some? && Upper(Target(path).value) == Upper(name')
    ensures Matches(NewEntry(path, cluster, contents), name') <==> Recorded(path)
  {
    hide Upper, Format, Generate, Cut, Representable, FileName, HasBit, Target, IsString, EndsInSeparator;
    var made := FileName(path);
    FileNameIsString(path);
    FormattedPlain(made);
    CutIsString(Format(Generate(made)));
    GeneratedStart(made);
    ArchiveIsFile();
    FormattedIff(path);
  }

  /** The name made for a path reads as the name it is looked up by exactly if it is representable and ends the path. */
  lemma FormattedIff(path: seq<byte>)
    requires Target(path).Some?
    ensures Format(Generate(FileName(path))) == Upper(Target(path).value) <==>
              Representable(Target(path).value) && !EndsInSeparator(path)
  {
    hide Upper, Format, Generate, Representable, FileName, Target, EndsInSeparator, SkipSeparators;
    var name, made := Target(path).value, FileName(path);
    CreatedName(path, name);
    RoundTripIff(made);
    RoundTripIff(name);
    UpperLength(name);
    FormattedLength(Generate(made));
    FormattedLength(Generate(name));
    if EndsInSeparator(path) {
      NoName();
    }
  }

  lemma NoName()
    ensures Format(Generate([])) == []
  {
    hide Format, Generate;
    RoundTripIff([]);
  }

  lemma EnteredNoMatch(dir: seq<DirEntry>, dir': seq<DirEntry>, p: nat, e: DirEntry, perCluster: nat, name: seq<byte>,
                       name': seq<byte>)
    requires Entered(dir, dir', p, e, perCluster) && NoMatch(dir, name) && !Matches(e, name')
    requires Upper(name) == Upper(name')
    ensures NoMatch(dir', name')
  {
    hide HasVacant, Upper, ShortName;
    forall q | 0 <= q < |dir'|
      ensures !Matches(dir'[q], name')
    {
      if q < |dir| && q != p {
        MatchesAnyCase(dir[q], name, name');
      }
    }
  }

  /**
   * What was written is read back under any casing of the name, as far as there were buffers; a new file exactly if its
   * path is one that can be found again.
   */
  method WriteThenRead(volume: Volume, path: seq<byte>, path': seq<byte>, contents: seq<byte>, denied: set<nat>,
                       buffer: bool, clusterBuffer: bool)
    returns (ok: bool, r: Option<seq<byte>>)
    requires volume.Valid() && IsString(path) && IsString(path') && |contents| < 0x1_0000_0000
    requires Target(path).Some? && Target(path').Some? && Upper(Target(path).value) == Upper(Target(path').value)
    modifies volume`fats, volume`data, volume`dir, volume`own, volume`place
    ensures ok ==> volume.Valid()
    ensures ok ==>
              (r.Some? <==>
              Readable(|contents|, buffer, clusterBuffer)
              && (Recorded(path) || !NoMatch(old(volume.dir), Target(path).value)))
    ensures r.Some? ==> ok && r.value == Kept(contents, volume.clusterSize, denied)
    ensures r.Some? && denied == {} ==> r == Some(contents)
  {
    hide Laid, Owners, FilesOk, Copies, DataOk, DirOk, FirstMatch, NoMatch, SkipSeparators, ComponentLength, Flatten;
    hide Prefix, FilesOf, FreeSet;
    hide Generate, Entered, Resized, Dangles, ClustersFor, HasVacant, LastSeparator, Upper, Matches, ParentIsRoot;
    hide Marked;
    hide FileName, NewEntry, CanRead, Finds, Representable, EndsInSeparator, Grown, WellFormed;
    ghost var name, name' := Target(path).value, Target(path').value;
    ghost var before := volume.dir;
    ghost var p, created;
    ok, p, created := WriteFile(volume, path, contents, denied);
    r := None;
    if !ok {
      return;
    }
    r := ReadFile(volume, path', buffer, clusterBuffer);
    if created {
      TargetIsNotRoot(path);
      ghost var e := NewEntry(path, ClusterAt(volume.dir, p), contents);
      NewEntryMatchesIff(path, name', ClusterAt(volume.dir, p), contents);
      if Recorded(path) {
        FirstAfterEntered(before, volume.dir, p, e, volume.perCluster, name, name');
      } else {
        EnteredNoMatch(before, volume.dir, p, e, volume.perCluster, name, name');
        CannotRead(volume.dir, path', buffer, clusterBuffer);
      }
    } else {
      MatchMeansSome(before, name, p);
      FirstAfterResized(before, volume.dir, p, |contents|, name, name');
    }
    WrittenSize(before, volume.dir, p, path, contents, volume.perCluster);
    KeptIff(contents, volume.clusterSize, denied);
    if !created || Recorded(path) {
      CanReadIff(volume.dir, path', p, buffer, clusterBuffer);
      if r.Some? {
        FindsFirst(volume, path', p, r.value);
      }
    }
  }

  /**
   * A file written under a plain 8.3 name is read back under every spelling of it that differs in the case of letters
   * only, with every byte in its place.
   */
  method WriteThenReadPlain(volume: Volume, base: seq<byte>, ext: seq<byte>, name: seq<byte>, contents: seq<byte>)
    returns (ok: bool, r: Option<seq<byte>>)
    requires volume.Valid() && PlainName(base, ext) && SameIgnoringCase(Joined(base, ext), name)
    requires |contents| < 0x1_0000_0000
    modifies volume`fats, volume`data, volume`dir, volume`own, volume`place
    ensures ok ==> volume.Valid() && r == Some(contents)
  {
    hide *;
    var path := Joined(base, ext);
    PlainFacts(base, ext);
    PlainTarget(base, ext, name);
    CaseIff(path, name);
    ok, r := WriteThenRead(volume, path, name, contents, {}, true, true);
    CanAlways(|contents|);
  }

  lemma CanAlways(size: nat)
    ensures Readable(size, true, true)
  {
  }

  lemma PlainTarget(base: seq<byte>, ext: seq<byte>, name: seq<byte>)
    requires PlainName(base, ext) && SameIgnoringCase(Joined(base, ext), name)
    ensures var path := Joined(base, ext);
            && Target(path) == Some(path) && Target(name) == Some(name) && IsString(path) && IsString(name)
                && Recorded(path)
  {
    hide Generate, Representable, SameLetter;
    var path := Joined(base, ext);
    PlainFacts(base, ext);
    assert forall i | 0 <= i < |path| :: path[i] != 0 && path[i] != 0x2f && path[i] != 0x5c;
    SameCasePlain(path, name);
    NoSeparators(path);
    NoSeparators(name);
    assert path[..|path|] == path && name[..|name|] == name;
    assert path[|path|..] == [] && name[|name|..] == [];
  }

  lemma TargetIsNotRoot(path: seq<byte>)
    ensures Target(path).Some? ==> !IsRoot(path)
  {
  }

  lemma MatchMeansSome(dir: seq<DirEntry>, name: seq<byte>, p: nat)
    requires FirstMatch(dir, name, p)
    ensures !NoMatch(dir, name)
  {
    hide Matches;
  }

  // ------------------------------------------------------------ runs

  datatype Op = Write(path: seq<byte>, contents: seq<byte>, denied: set<nat>) | Unlink(path: seq<byte>)

  /** What the callers can pass: strings, and contents whose length an entry can hold. */
  ghost predicate Admissible(op: Op)
  {
    IsString(op.path) && (op.Write? ==> |op.contents| < 0x1_0000_0000)
  }

  /**
   * What a request can see of a volume: the directory, the contents behind its slots, how many clusters are free and
   * leaked.
   */
  datatype Contents = Contents(dir: seq<DirEntry>, files: map<nat, seq<byte>>, free: nat, leaked: nat)

  ghost function Now(volume: Volume): Contents
    requires volume.Valid()
    reads volume
  {
    Contents(volume.dir, volume.Files(), |volume.Free()|, |volume.Leaked()|)
  }

  /** The effect of a request that succeeds: one file written or removed, all others as before. */
  ghost predicate Served(op: Op, c: Contents, c': Contents, perCluster: nat, clusterSize: nat)
  {
    match op
    case Write(path, contents, denied) =>
      exists p: nat :: Written(path, contents, denied, c, c', p, perCluster, clusterSize)
    case Unlink(path) =>
      && c'.leaked == c.leaked && Target(path).Some?
      && exists p: nat :: FirstMatch(c.dir, Target(path).value, p) && c'.files == c.files - {p}
                          && clusterSize > 0 && c'.free == c.free + ClustersFor(SizeAt(c.dir, p), clusterSize)
  }

  /** A write into slot p. A new entry that counts as deleted is no file, and what it takes is leaked. */
  ghost predicate Written(path: seq<byte>, contents: seq<byte>, denied: set<nat>, c: Contents, c': Contents, p: nat,
                          perCluster: nat, clusterSize: nat)
  {
    var created := !Matched(path, c.dir, p);
    && c'.files == (if created && Marked(path) then c.files else c.files[p := Kept(contents, clusterSize, denied)])
    && c'.leaked == c.leaked + Leaks(created, path, |contents|, clusterSize)
    && Placed(path, contents, c.dir, c'.dir, p, perCluster)
    && Spent(created, |contents|, clusterSize, c.dir, p, c.free, c'.free)
  }

  ghost predicate Matched(path: seq<byte>, dir: seq<DirEntry>, p: nat)
  {
    Target(path).Some? && FirstMatch(dir, Target(path).value, p)
  }

  /** The entry of a written file: the first match, resized, or a new entry in the first vacant slot. */
  ghost predicate Placed(path: seq<byte>, contents: seq<byte>, dir: seq<DirEntry>, dir': seq<DirEntry>, p: nat,
                         perCluster: nat)
  {
    if Matched(path, dir, p) then Resized(dir, dir', p, |contents|)
    else Entered(dir, dir', p, NewEntry(path, ClusterAt(dir', p), contents), perCluster)
  }

  /** When a request fails: no such file, no such directory, or not enough clusters. */
  ghost predicate Refused(op: Op, c: Contents, clusterSize: nat)
  {
    match op
    case Write(path, contents, _) =>
      || IsRoot(path)
      || (exists p: nat :: Matched(path, c.dir, p) && !RoomInstead(|contents|, clusterSize, c.dir, p, c.free))
      || ((Target(path).Some? ==> NoMatch(c.dir, Target(path).value))
          && !(ParentIsRoot(path) && RoomFor(|contents|, clusterSize, c.dir, c.free)))
    case Unlink(path) => Target(path).None? || NoMatch(c.dir, Target(path).value)
  }

  /** The one failure that does harm: new contents that do not fit, for a file that holds clusters. */
  ghost predicate Harmful(op: Op, c: Contents, clusterSize: nat)
  {
    op.Write? && exists p: nat :: Overflows(op.path, |op.contents|, c, p, clusterSize)
  }

  ghost predicate Overflows(path: seq<byte>, size: nat, c: Contents, p: nat, clusterSize: nat)
  {
    Matched(path, c.dir, p) && ClusterAt(c.dir, p) >= 2 && !RoomInstead(size, clusterSize, c.dir, p, c.free)
  }

  /** A request succeeds exactly if it is not refused, and changes nothing if it fails. */
  ghost predicate Step(op: Op, ok: bool, c: Contents, c': Contents, perCluster: nat, clusterSize: nat)
  {
    && (ok <==> !Refused(op, c, clusterSize))
    && if ok then Served(op, c, c', perCluster, clusterSize) else c' == c
  }

  /** The requests of a run with their answers and the contents between them. */
  ghost predicate Trace(ops: seq<Op>, oks: seq<bool>, cs: seq<Contents>, perCluster: nat, clusterSize: nat)
  {
    && |cs| == |oks| + 1 && |oks| <= |ops|
    && forall i, j | 0 <= i < |oks| && j == i + 1 :: Step(ops[i], oks[i], cs[i], cs[j], perCluster, clusterSize)
  }

  /** The write requests of a run. */
  method ServeWrite(volume: Volume, path: seq<byte>, contents: seq<byte>, denied: set<nat>)
    returns (ok: bool, harm: bool)
    requires volume.Valid() && Admissible(Write(path, contents, denied))
    modifies volume`fats, volume`data, volume`dir, volume`own, volume`place
    ensures harm <==> Harmful(Write(path, contents, denied), old(Now(volume)), volume.clusterSize)
    ensures harm ==> !ok && exists p: nat :: DanglesAt(volume.fats, volume.dir, p)
    ensures !harm ==> volume.Valid()
    ensures !harm ==>
              Step(Write(path, contents, denied), ok, old(Now(volume)), Now(volume), volume.perCluster,
              volume.clusterSize)
  {
    hide Volume.Inv, FilesOf, FirstMatch, NoMatch, Target, Entered, Resized, Generate, ParentIsRoot, IsRoot;
    hide ClustersFor, HasVacant, Kept;
    hide RoomFor, RoomInstead, Spent, Leaks, DanglesAt, Marked, WellFormed, Volume.Leaked, Volume.Free, ClusterAt;
    hide Refused, Harmful, Grown;
    ClustersHoldSomething(volume);
    var found := LookupPath(volume, path);
    ghost var p, created;
    ghost var c := Now(volume);
    ok, p, created := WriteFile(volume, path, contents, denied);
    harm := !ok && found.Entry? && ClusterAt(volume.dir, found.slot) >= 2;
    TargetIsNotRoot(path);
    SameSlot(c.dir, path, p, created, found);
    Answer(path, contents, denied, c, p, created, ok, volume.clusterSize);
    if ok {
      GrownBy(old(volume.Leaked()), volume.Leaked(), Leaks(created, path, |contents|, volume.clusterSize));
      assert Placed(path, contents, c.dir, volume.dir, p, volume.perCluster);
      assert Written(path, contents, denied, c, Now(volume), p, volume.perCluster, volume.clusterSize);
    } else if !harm {
      NoLeak(path, |contents|, volume.clusterSize);
      GrownNot(old(volume.Leaked()));
    }
  }

  lemma NoLeak(path: seq<byte>, size: nat, clusterSize: nat)
    ensures Leaks(false, path, size, clusterSize) == 0
  {
  }

  /** The slot a write replaces is the one a lookup finds. */
  lemma SameSlot(dir: seq<DirEntry>, path: seq<byte>, p: nat, created: bool, found: Found)
    requires created ==> IsRoot(path) || Target(path).None? || NoMatch(dir, Target(path).value)
    requires !created ==> Matched(path, dir, p)
    requires found.RootFound? <==> IsRoot(path)
    requires found.Entry? ==> Matched(path, dir, found.slot)
    requires found.Missing? && Target(path).Some? ==> NoMatch(dir, Target(path).value)
    ensures found.Entry? <==> !created
    ensures found.Entry? ==> found.slot == p
    ensures created <==> !Matched(path, dir, p)
  {
    hide FirstMatch, NoMatch, Target, IsRoot;
    TargetIsNotRoot(path);
    OneOrOther(dir, path, p);
    OnlyMatch(dir, path, p);
    if found.Entry? {
      OneOrOther(dir, path, found.slot);
    }
  }

  /** When a write succeeds and when it does harm, read off the contents before it. */
  lemma Answer(path: seq<byte>, contents: seq<byte>, denied: set<nat>, c: Contents, p: nat, created: bool, ok: bool,
               clusterSize: nat)
    requires created ==> IsRoot(path) || Target(path).None? || NoMatch(c.dir, Target(path).value)
    requires (created <==> !Matched(path, c.dir, p)) && (ok && created ==> !IsRoot(path))
    requires created && !IsRoot(path) ==>
              (ok <==> ParentIsRoot(path) && RoomFor(|contents|, clusterSize, c.dir, c.free))
    requires !created ==> (ok <==> RoomInstead(|contents|, clusterSize, c.dir, p, c.free))
    ensures ok <==> !Refused(Write(path, contents, denied), c, clusterSize)
    ensures Harmful(Write(path, contents, denied), c, clusterSize) <==> !ok && !created && ClusterAt(c.dir, p) >= 2
  {
    hide FirstMatch, NoMatch, Target, IsRoot, ParentIsRoot, RoomFor, RoomInstead, ClusterAt;
    TargetIsNotRoot(path);
    OnlyMatch(c.dir, path, p);
    forall q: nat | Matched(path, c.dir, q)
      ensures !created && q == p
    {
      OneOrOther(c.dir, path, q);
    }
    if !created {
      OneOrOther(c.dir, path, p);
      assert Overflows(path, |contents|, c, p, clusterSize) <==> !ok && ClusterAt(c.dir, p) >= 2;
    }
  }

  /** The unlink requests of a run. */
  method ServeUnlink(volume: Volume, path: seq<byte>) returns (ok: bool)
    requires volume.Valid() && Admissible(Unlink(path))
    modifies volume`fats, volume`dir, volume`own, volume`place
    ensures volume.Valid() && Step(Unlink(path), ok, old(Now(volume)), Now(volume), volume.perCluster,
              volume.clusterSize)
  {
    hide Volume.Inv, FilesOf, FirstMatch, NoMatch, Target, ClustersFor, Volume.Leaked, Volume.Free;
    ClustersHoldSomething(volume);
    ghost var p;
    ok, p := UnlinkFile(volume, path);
    OneOrOther(old(volume.dir), path, p);
  }

  lemma OnlyMatch(dir: seq<DirEntry>, path: seq<byte>, p: nat)
    ensures Matched(path, dir, p) ==> forall q: nat | Matched(path, dir, q) :: q == p
  {
    hide FirstMatch, Target;
    forall q: nat | Matched(path, dir, p) && Matched(path, dir, q)
      ensures q == p
    {
      OneFirstMatch(dir, Target(path).value, p, q);
    }
  }

  lemma GrownBy(before: set<nat>, after: set<nat>, n: nat)
    requires Grown(before, after, n)
    ensures |after| == |before| + n
  {
    assert after == before + (after - before);
  }

  /** One request. */
  method Serve(volume: Volume, op: Op) returns (ok: bool, harm: bool)
    requires volume.Valid() && Admissible(op)
    modifies volume`fats, volume`data, volume`dir, volume`own, volume`place
    ensures harm <==> Harmful(op, old(Now(volume)), volume.clusterSize)
    ensures harm ==> !ok && exists p: nat :: DanglesAt(volume.fats, volume.dir, p)
    ensures !harm ==>
              volume.Valid() && Step(op, ok, old(Now(volume)), Now(volume), volume.perCluster, volume.clusterSize)
  {
    hide Volume.Inv, FilesOf, Step, Volume.Leaked, Volume.Free, DanglesAt, Overflows;
    match op
    case Write(path, contents, denied) =>
      ok, harm := ServeWrite(volume, path, contents, denied);
    case Unlink(path) =>
      ok := ServeUnlink(volume, path);
      harm := false;
  }

  lemma ClustersHoldSomething(volume: Volume)
    requires volume.Valid()
    ensures volume.clusterSize > 0
  {
    hide Laid, Owners, FilesOk, DirOk, Copies, DataOk;
  }

  lemma OneOrOther(dir: seq<DirEntry>, path: seq<byte>, p: nat)
    ensures Target(path).Some? && FirstMatch(dir, Target(path).value, p) ==> !NoMatch(dir, Target(path).value)
  {
    hide FirstMatch, NoMatch, Target;
    if Target(path).Some? && FirstMatch(dir, Target(path).value, p) {
      MatchMeansSome(dir, Target(path).value, p);
    }
  }

  /**
   * Any run of requests, up to the first overwrite that does not fit and does harm. The volume stays laid out in
   * disjoint chains; clusters leak exactly with new names that count as deleted.
   */
  method Run(volume: Volume, ops: seq<Op>) returns (oks: seq<bool>, ghost cs: seq<Contents>)
    requires volume.Valid() && forall i | 0 <= i < |ops| :: Admissible(ops[i])
    modifies volume`fats, volume`data, volume`dir, volume`own, volume`place
    ensures Trace(ops, oks, cs, volume.perCluster, volume.clusterSize) && cs[0] == old(Now(volume))
    ensures |oks| == |ops| ==> volume.Valid() && cs[|ops|] == Now(volume)
    ensures |oks| < |ops| ==> Harmful(ops[|oks|], cs[|oks|], volume.clusterSize)
    ensures forall i | 0 <= i < |oks| :: !Harmful(ops[i], cs[i], volume.clusterSize)
  {
    hide Volume.Inv, FilesOf, Step, Harmful;
    cs, oks := [Now(volume)], [];
    for i := 0 to |ops|
      invariant volume.Valid() && |oks| == i && |cs| == i + 1 && cs[0] == old(Now(volume)) && cs[i] == Now(volume)
      invariant Trace(ops, oks, cs, volume.perCluster, volume.clusterSize)
      invariant forall j | 0 <= j < i :: !Harmful(ops[j], cs[j], volume.clusterSize)
    {
      assert Admissible(ops[i]);
      var ok, harm := Serve(volume, ops[i]);
      if harm {
        return;
      }
      cs, oks := cs + [Now(volume)], oks + [ok];
    }
  }

  // ------------------------------------------------------------ what paths mean

  lemma SkipNone(path: seq<byte>)
    requires path == [] || !IsSeparator(path[0])
    ensures SkipSeparators(path) == path
  {
  }

  lemma {:induction false} SkipAll(path: seq<byte>, rest: seq<byte>)
    requires (forall i | 0 <= i < |path| :: IsSeparator(path[i])) && (rest == [] || !IsSeparator(rest[0]))
    ensures SkipSeparators(path + rest) == rest
  {
    if path != [] {
      assert (path + rest)[1..] == path[1..] + rest;
      SkipAll(path[1..], rest);
    } else {
      assert path + rest == rest;
    }
  }

  lemma {:induction false} WholeComponent(name: seq<byte>)
    requires forall i | 0 <= i < |name| :: !IsSeparator(name[i])
    ensures ComponentLength(name) == |name|
  {
    if name != [] {
      WholeComponent(name[1..]);
    }
  }

  /**
   * A new entry gets the name its path is looked up by exactly if nothing follows the name and the lookup does not cut
   * it.
   */
  lemma CreatedName(path: seq<byte>, name: seq<byte>)
    requires Target(path) == Some(name)
    ensures name != [] && (FileName(path) == name <==>
              !EndsInSeparator(path) && |SkipSeparators(path)| <= MAX_COMPONENT)
    ensures EndsInSeparator(path) ==> FileName(path) == []
    ensures !EndsInSeparator(path) ==>
              FileName(path) == SkipSeparators(path) && name == FileName(path)[..Least(|FileName(path)|, MAX_COMPONENT)]
    ensures ParentIsRoot(path) && |path| <= MAX_COMPONENT ==> FileName(path) == name
  {
    hide SkipSeparators, ComponentLength, LastSeparator, IsSeparator, FileName;
    if EndsInSeparator(path) {
      NothingNamed(path);
    } else {
      NothingBehind(path);
    }
  }

  lemma LastSkipped(path: seq<byte>)
    requires SkipSeparators(path) == [] && path != []
    ensures EndsInSeparator(path)
  {
    hide SkipSeparators;
    Skipped(path);
  }

  /** Without a separator at the end the only component is all that follows the leading separators. */
  lemma NothingBehind(path: seq<byte>)
    requires Target(path).Some? && !EndsInSeparator(path)
    ensures var start := SkipSeparators(path); FileName(path) == start && ComponentLength(start) == |start|
  {
    hide SkipSeparators, ComponentLength, LastSeparator, IsSeparator;
    var start, last := SkipSeparators(path), LastSeparator(path);
    var n, k := ComponentLength(start), |path| - |start|;
    Skipped(path);
    if n < |start| {
      LastSkipped(start[n..]);
    }
    assert k > 0 ==> IsSeparator(path[k - 1]);
    assert forall i | k <= i < |path| :: path[i] == start[i - k];
  }

  /** With one the new entry would get no name; up to the length of a component the parent is then not the root. */
  lemma NothingNamed(path: seq<byte>)
    requires Target(path).Some? && EndsInSeparator(path)
    ensures FileName(path) == [] && (ParentIsRoot(path) ==> |path| > MAX_COMPONENT)
  {
    hide SkipSeparators, ComponentLength, LastSeparator, IsSeparator;
    var start, last := SkipSeparators(path), LastSeparator(path);
    Skipped(path);
    assert last.Some? && last.value == |path| - 1;
    if |path| <= MAX_COMPONENT {
      var parent := path[..last.value];
      Skipped(parent);
      assert !IsSeparator(start[0]) && start[0] == path[|path| - |start|];
    }
  }

  lemma NoSeparators(path: seq<byte>)
    requires forall i | 0 <= i < |path| :: !IsSeparator(path[i])
    ensures SkipSeparators(path) == path && ComponentLength(path) == |path|
  {
    WholeComponent(path);
  }

  function Separators(k: nat): (s: seq<byte>)
    ensures |s| == k
  {
    seq(k, _ => SLASH)
  }

  /** A plain name can be created with no leading separator or with several, but not with exactly one. */
  lemma LeadingSeparators(k: nat, name: seq<byte>)
    requires name != [] && (forall i | 0 <= i < |name| :: !IsSeparator(name[i]))
    ensures ParentIsRoot(Separators(k) + name) <==> k != 1
  {
    hide LastSeparator, SkipSeparators;
    var path := Separators(k) + name;
    var last := LastSeparator(path);
    assert k > 0 ==> IsSeparator(path[k - 1]);
    assert forall i | k <= i < |path| :: path[i] == name[i - k];
    if k > 0 {
      var m := Least(k - 1, MAX_COMPONENT);
      assert path[..m] == Separators(m);
      SkipAll(Separators(m), []);
      assert Separators(m) + [] == Separators(m);
    }
  }
}
