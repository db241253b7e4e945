/**
 * The write-back block cache: a fixed array of entries, an LRU list and hash chains in front of a disk.
 * The cache is proved indistinguishable from the plain disk for every hash function and every number of entries, on all
 * blocks the device has and accepts; what becomes of the others is said as well.
 */
module BlockCache {
  import opened Bytes
  import opened Lists
  import opened Options

  datatype Device = Null | Device(id: nat)

  datatype Key = Key(dev: Device, lba: nat)

  type Block = s: seq<byte> | |s| == 512 witness seq(512, _ => 0)

  datatype Entry = Entry(key: Key, data: Block, valid: bool, dirty: bool)

  datatype Stats = Stats(hits: nat, misses: nat, readCount: nat, writeCount: nat, flushes: nat, evictions: nat)

  type Disk = map<Key, Block>

  // ------------------------------------------------------------ invariants

  ghost predicate Indexed(es: seq<Entry>, index: map<Key, nat>)
  {
    && (forall k | k in index :: index[k] < |es| && es[index[k]].valid && es[index[k]].key == k)
    && (forall s | 0 <= s < |es| && es[s].valid :: es[s].key in index && index[es[s].key] == s)
  }

  /** Clean entries agree with the disk. */
  ghost predicate Coherent(es: seq<Entry>, disk: Disk)
  {
    forall s | 0 <= s < |es| && es[s].valid ::
      es[s].key.dev.Device? && (!es[s].dirty ==> es[s].key in disk && es[s].data == disk[es[s].key])
  }

  ghost predicate Linked(es: seq<Entry>, pending: int, s: nat)
    requires s < |es|
  {
    es[s].valid || s == pending
  }

  /** Each linked entry sits in the chain of its key and nowhere else; `pending` is being filled. */
  ghost predicate Chains(es: seq<Entry>, bs: seq<seq<nat>>, hash: Key -> nat, pending: int)
  {
    && (forall b | 0 <= b < |bs| :: NoDup(bs[b]))
    && (forall b, i | 0 <= b < |bs| && 0 <= i < |bs[b]| :: bs[b][i] < |es|)
    && (forall b, s | 0 <= b < |bs| && 0 <= s < |es| :: s in bs[b] <==> Linked(es, pending, s) && hash(es[s].key) == b)
  }

  /** The LRU list holds every slot once. */
  ghost predicate Permutation(lru: seq<nat>, n: nat)
  {
    NoDup(lru) && (forall i | 0 <= i < |lru| :: lru[i] < n) && forall s: nat | s < n :: s in lru
  }

  /** Valid entries come in the order of their last use, most recent first. */
  ghost predicate Recent(es: seq<Entry>, lru: seq<nat>, lastUse: map<Key, nat>, now: nat)
    requires forall i | 0 <= i < |lru| :: lru[i] < |es|
  {
    && (forall k | k in lastUse :: lastUse[k] < now)
    && (forall s | 0 <= s < |es| && es[s].valid :: es[s].key in lastUse)
    && (forall i, j | 0 <= i < j < |lru| && es[lru[i]].valid && es[lru[j]].valid ::
          lastUse[es[lru[j]].key] < lastUse[es[lru[i]].key])
  }

  ghost function BlockOf(es: seq<Entry>, index: map<Key, nat>, disk: Disk, k: Key): Block
  {
    if k in index && index[k] < |es| then es[index[k]].data else if k in disk then disk[k] else seq(512, _ => 0)
  }

  /** What is cached, and the disk behind it. */
  ghost function ViewOf(es: seq<Entry>, index: map<Key, nat>, disk: Disk): Disk
  {
    map k | k in disk.Keys + index.Keys :: BlockOf(es, index, disk, k)
  }

  /** A block leaves the cache without being written back. */
  ghost function Forget(view: Disk, disk: Disk, k: Key): Disk
  {
    if k in disk then view[k := disk[k]] else view - {k}
  }

  /** The device has the block and does not refuse it. */
  predicate Accepts(keys: set<Key>, broken: set<Key>, k: Key)
  {
    k in keys && k !in broken
  }

  /** What the device refuses in each turn of a request; nothing beyond the list. */
  type Faults = seq<set<Key>>

  function Turn(faults: Faults, i: nat): set<Key>
  {
    if i < |faults| then faults[i] else {}
  }

  /** What it refuses in some turn. */
  function AllFaults(faults: Faults): (r: set<Key>)
    ensures forall i: nat :: Turn(faults, i) <= r
  {
    if faults == [] then {}
    else
      var init := AllFaults(faults[..|faults| - 1]);
      assert forall i: nat | i < |faults| - 1 :: Turn(faults[..|faults| - 1], i) == Turn(faults, i);
      init + faults[|faults| - 1]
  }

  /** The device takes the block in one of the first n turns. */
  ghost predicate SometimesAccepts(keys: set<Key>, faults: Faults, n: nat, k: Key)
  {
    exists i: nat :: i < n && Accepts(keys, Turn(faults, i), k)
  }

  /** The same contents but for the lost blocks. */
  ghost predicate Agree(view: Disk, view': Disk, lost: set<Key>)
  {
    forall k | k !in lost :: (k in view <==> k in view') && (k in view ==> view'[k] == view[k])
  }

  /** Only blocks the device does not accept. */
  ghost predicate AtRisk(lost: set<Key>, keys: set<Key>, broken: set<Key>)
  {
    forall k | k in lost :: !Accepts(keys, broken, k)
  }

  /** A block of the view, or one that was lost and then read from the device again. */
  ghost predicate FreshOr(view: Disk, b: Block, k: Key, lost: set<Key>, keys: set<Key>, faults: Faults, n: nat)
  {
    (k in view && b == view[k]) || (k in lost && SometimesAccepts(keys, faults, n, k))
  }

  lemma NextTurn(keys: set<Key>, faults: Faults, i: nat)
    ensures forall k | SometimesAccepts(keys, faults, i, k) || Accepts(keys, Turn(faults, i), k) ::
              SometimesAccepts(keys, faults, i + 1, k)
    ensures forall k | !Accepts(keys, Turn(faults, i), k) :: !Accepts(keys, AllFaults(faults), k)
  {
    hide AllFaults;
  }

  /** These are the blocks at the numbers from lba on, but for the lost ones. */
  ghost predicate BlocksAt(view: Disk, dev: Device, lba: nat, blocks: seq<Block>, lost: set<Key>)
  {
    forall n: nat | lba <= n < lba + |blocks| && Key(dev, n) !in lost ::
        BlockIn(view, Key(dev, n)) == Some(blocks[n - lba])
  }

  lemma ReadAt(view: Disk, dev: Device, lba: nat, blocks: seq<Block>, lost: set<Key>, keys: set<Key>, faults: Faults)
    requires forall i: nat | i < |blocks| :: FreshOr(view, blocks[i], KeyAt(dev, lba, i), lost, keys, faults, |blocks|)
    requires AtRisk(lost, keys, AllFaults(faults))
    ensures InNumbers(lba, |blocks|) ==> BlocksAt(view, dev, lba, blocks, lost)
    ensures InNumbers(lba, |blocks|) && AllFaults(faults) == {} ==> BlocksAt(view, dev, lba, blocks, {})
  {
    hide AllFaults;
    forall n: nat | InNumbers(lba, |blocks|) && lba <= n < lba + |blocks|
      ensures Key(dev, n) in lost || BlockIn(view, Key(dev, n)) == Some(blocks[n - lba])
      ensures AllFaults(faults) == {} ==> BlockIn(view, Key(dev, n)) == Some(blocks[n - lba])
    {
      assert KeyAt(dev, lba, n - lba) == Key(dev, n);
      assert FreshOr(view, blocks[n - lba], KeyAt(dev, lba, n - lba), lost, keys, faults, |blocks|);
    }
  }

  lemma AgreeNone(view: Disk, view': Disk)
    ensures Agree(view, view', {}) <==> view' == view
  {
  }

  lemma AgreeAt(view: Disk, view': Disk, lost: set<Key>, k: Key)
    requires Agree(view, view', lost) && k !in lost
    ensures (k in view <==> k in view') && (k in view ==> view'[k] == view[k])
  {
  }

  lemma AgreeTrans(a: Disk, b: Disk, c: Disk, lost: set<Key>, more: set<Key>)
    requires Agree(a, b, lost) && Agree(b, c, more)
    ensures Agree(a, c, lost + more)
  {
  }

  /** Writing a block brings it back, if it had been lost. */
  lemma AgreeWrite(a: Disk, b: Disk, c: Disk, k: Key, d: Block, lost: set<Key>, more: set<Key>)
    requires Agree(a, b, lost) && Agree(b[k := d], c, more) && k !in more
    ensures Agree(a[k := d], c, lost - {k} + more)
  {
  }

  /** What the hash chains, the LRU list and the entries satisfy between operations. */
  ghost predicate Consistent(es: seq<Entry>, bs: seq<seq<nat>>, hash: Key -> nat, lru: seq<nat>, index: map<Key, nat>,
                             disk: Disk, lastUse: map<Key, nat>, now: nat, pending: int)
  {
    && Indexed(es, index) && Coherent(es, disk) && Chains(es, bs, hash, pending)
    && Permutation(lru, |es|) && Recent(es, lru, lastUse, now)
  }

  lemma LostWrite(lost: set<Key>, more: set<Key>, cached: set<Key>, cached': set<Key>, known: set<Key>, k: Key)
    requires lost !! cached && lost + cached <= known && more <= cached - cached' && k in cached'
    requires cached' <= cached + {k}
    ensures (lost - {k} + more) !! cached' && lost - {k} + more + cached' <= known + {k}
  {
  }

  lemma LostDirty(lost: set<Key>, more: set<Key>, dirty: set<Key>, dirty': set<Key>, known: set<Key>, k: Key)
    requires lost + dirty <= known && more <= dirty && dirty' <= dirty + {k}
    ensures lost - {k} + more + dirty' <= known + {k}
  {
  }

  // ------------------------------------------------------------ single steps

  /** list_del followed by list_add at the head. */
  function ToFront(q: seq<nat>, s: nat): seq<nat>
    requires s in q
  {
    [s] + Without(q, s)
  }

  lemma FrontPermutation(lru: seq<nat>, s: nat, n: nat)
    requires s < n && Permutation(lru, n)
    ensures s in lru && Permutation(ToFront(lru, s), n)
  {
    WithoutMembers(lru, s);
    var f := ToFront(lru, s);
    forall i | 0 <= i < |f|
      ensures f[i] < n
    {
      assert f[i] == s || f[i] in Without(lru, s);
    }
  }

  /** Two entries of the new list that were already ordered stay ordered. */
  lemma FrontOrder(lru: seq<nat>, s: nat, i: nat, j: nat)
    requires s in lru && 0 < i < j < |ToFront(lru, s)|
    ensures var f := ToFront(lru, s);
            exists i', j' :: 0 <= i' < j' < |lru| && lru[i'] == f[i] && lru[j'] == f[j]
  {
    hide Without;
    WithoutOrder(lru, s, i - 1, j - 1);
  }

  /** Touching a valid entry. */
  lemma TouchStep(es: seq<Entry>, index: map<Key, nat>, lru: seq<nat>, s: nat, lastUse: map<Key, nat>, now: nat)
    requires s < |es| && es[s].valid && Indexed(es, index) && Permutation(lru, |es|) && Recent(es, lru, lastUse, now)
    ensures s in lru && Permutation(ToFront(lru, s), |es|)
    ensures Recent(es, ToFront(lru, s), lastUse[es[s].key := now], now + 1)
  {
    hide ToFront;
    FrontPermutation(lru, s, |es|);
    FrontHead(lru, s);
    var f, use := ToFront(lru, s), lastUse[es[s].key := now];
    forall i, j | 0 <= i < j < |f| && es[f[i]].valid && es[f[j]].valid
      ensures use[es[f[j]].key] < use[es[f[i]].key]
    {
      assert f[j] != s;
      if i > 0 {
        FrontOrder(lru, s, i, j);
        assert f[i] != s;
      }
    }
  }

  lemma FrontHead(lru: seq<nat>, s: nat)
    requires s in lru
    ensures ToFront(lru, s) != [] && ToFront(lru, s)[0] == s
  {
  }

  /** Moving an entry that is not valid changes no order. */
  lemma FrontOfInvalid(es: seq<Entry>, lru: seq<nat>, s: nat, lastUse: map<Key, nat>, now: nat)
    requires s < |es| && !es[s].valid && Permutation(lru, |es|) && Recent(es, lru, lastUse, now)
    ensures s in lru && Permutation(ToFront(lru, s), |es|) && Recent(es, ToFront(lru, s), lastUse, now)
  {
    hide ToFront;
    FrontPermutation(lru, s, |es|);
    FrontHead(lru, s);
    var f := ToFront(lru, s);
    forall i, j | 0 <= i < j < |f| && es[f[i]].valid && es[f[j]].valid
      ensures lastUse[es[f[j]].key] < lastUse[es[f[i]].key]
    {
      FrontOrder(lru, s, i, j);
    }
  }

  /** The chains only depend on which entries are linked and on their keys. */
  lemma ChainsSame(es: seq<Entry>, p: int, es': seq<Entry>, p': int, bs: seq<seq<nat>>, hash: Key -> nat)
    requires |es| == |es'| && Chains(es, bs, hash, p)
    requires forall t: nat | t < |es| :: Linked(es, p, t) == Linked(es', p', t) && es[t].key == es'[t].key
    ensures Chains(es', bs, hash, p')
  {
    forall c, t | 0 <= c < |bs| && 0 <= t < |es'|
      ensures t in bs[c] <==> Linked(es', p', t) && hash(es'[t].key) == c
    {
      assert t in bs[c] <==> Linked(es, p, t) && hash(es[t].key) == c;
    }
  }

  /** cache_flush_entry_locked on a dirty entry: the disk changes, the logical contents do not. */
  lemma FlushStep(es: seq<Entry>, bs: seq<seq<nat>>, hash: Key -> nat, lru: seq<nat>, index: map<Key, nat>, disk: Disk,
                  lastUse: map<Key, nat>, now: nat, s: nat)
    requires s < |es| && es[s].valid && es[s].key in disk
    requires Consistent(es, bs, hash, lru, index, disk, lastUse, now, -1)
    ensures var es', disk' := es[s := es[s].(dirty := false)], disk[es[s].key := es[s].data];
            && Consistent(es', bs, hash, lru, index, disk', lastUse, now, -1)
            && ViewOf(es', index, disk') == ViewOf(es, index, disk)
            && disk'.Keys == disk.Keys
  {
    hide Chains, ViewOf, Recent, Permutation;
    var es', disk' := es[s := es[s].(dirty := false)], disk[es[s].key := es[s].data];
    ChainsSame(es, -1, es', -1, bs, hash);
    RecentFewer(es, es', lru, lastUse, now);
    assert Indexed(es', index) && Coherent(es', disk');
    FlushView(es, index, disk, s);
  }

  lemma FlushView(es: seq<Entry>, index: map<Key, nat>, disk: Disk, s: nat)
    requires s < |es| && es[s].valid && es[s].key in disk && Indexed(es, index) && Coherent(es, disk)
    ensures ViewOf(es[s := es[s].(dirty := false)], index, disk[es[s].key := es[s].data]) == ViewOf(es, index, disk)
  {
  }

  /** Dropping an entry: the chain shrinks, and what was not written back is forgotten. */
  lemma DropStep(es: seq<Entry>, bs: seq<seq<nat>>, hash: Key -> nat, lru: seq<nat>, index: map<Key, nat>, disk: Disk,
                 lastUse: map<Key, nat>, now: nat, s: nat, e: Entry)
    requires s < |es| && es[s].valid && !e.valid && hash(es[s].key) < |bs|
    requires Consistent(es, bs, hash, lru, index, disk, lastUse, now, -1)
    ensures var b := hash(es[s].key);
            && s in bs[b]
            && Consistent(es[s := e], bs[b := Without(bs[b], s)], hash, lru, index - {es[s].key}, disk, lastUse, now,
                -1)
            && ViewOf(es[s := e], index - {es[s].key}, disk) == Forget(ViewOf(es, index, disk), disk, es[s].key)
  {
    hide Chains, ViewOf, Recent, Permutation;
    ChainWithout(es, bs, hash, -1, s, e);
    RecentFewer(es, es[s := e], lru, lastUse, now);
    DropIndexed(es, index, s, e);
    DropView(es, index, disk, s, e);
  }

  lemma DropIndexed(es: seq<Entry>, index: map<Key, nat>, s: nat, e: Entry)
    requires s < |es| && es[s].valid && !e.valid && Indexed(es, index)
    ensures Indexed(es[s := e], index - {es[s].key})
  {
  }

  lemma DropView(es: seq<Entry>, index: map<Key, nat>, disk: Disk, s: nat, e: Entry)
    requires s < |es| && es[s].valid && Indexed(es, index)
    ensures ViewOf(es[s := e], index - {es[s].key}, disk) == Forget(ViewOf(es, index, disk), disk, es[s].key)
  {
  }

  /** Nothing is forgotten with a clean entry. */
  lemma ForgetClean(es: seq<Entry>, index: map<Key, nat>, disk: Disk, s: nat)
    requires s < |es| && es[s].valid && Indexed(es, index) && Coherent(es, disk)
    ensures !es[s].dirty ==> Forget(ViewOf(es, index, disk), disk, es[s].key) == ViewOf(es, index, disk)
    ensures Agree(ViewOf(es, index, disk), Forget(ViewOf(es, index, disk), disk, es[s].key), {es[s].key})
  {
  }

  lemma ChainWithout(es: seq<Entry>, bs: seq<seq<nat>>, hash: Key -> nat, pending: int, s: nat, e: Entry)
    requires s < |es| && Linked(es, pending, s) && !e.valid && hash(es[s].key) < |bs| && (pending == -1 || pending == s)
    requires Chains(es, bs, hash, pending)
    ensures var b := hash(es[s].key);
            s in bs[b] && Chains(es[s := e], bs[b := Without(bs[b], s)], hash, -1)
  {
    var b := hash(es[s].key);
    WithoutMembers(bs[b], s);
    var es', bs' := es[s := e], bs[b := Without(bs[b], s)];
    forall c, i | 0 <= c < |bs'| && 0 <= i < |bs'[c]|
      ensures bs'[c][i] < |es'|
    {
      assert bs'[c][i] in bs[c];
    }
  }

  /** Giving an unlinked slot to a new key: at the head of its chain and of the LRU list, not yet valid. */
  lemma AssociateStep(es: seq<Entry>, bs: seq<seq<nat>>, hash: Key -> nat, lru: seq<nat>, index: map<Key, nat>,
                      disk: Disk,
                      lastUse: map<Key, nat>, now: nat, s: nat, e: Entry)
    requires s < |es| && !es[s].valid && !e.valid && hash(e.key) < |bs|
    requires Consistent(es, bs, hash, lru, index, disk, lastUse, now, -1)
    ensures var b := hash(e.key);
            && s in lru && ToFront(lru, s) != [] && ToFront(lru, s)[0] == s
            && Consistent(es[s := e], bs[b := [s] + bs[b]], hash, ToFront(lru, s), index, disk, lastUse, now, s)
            && ViewOf(es[s := e], index, disk) == ViewOf(es, index, disk)
  {
    hide Chains, ViewOf, Recent, Permutation;
    ChainWith(es, bs, hash, s, e);
    RecentFewer(es, es[s := e], lru, lastUse, now);
    FrontOfInvalid(es[s := e], lru, s, lastUse, now);
    FrontHead(lru, s);
    AssociateView(es, index, disk, s, e);
  }

  lemma AssociateView(es: seq<Entry>, index: map<Key, nat>, disk: Disk, s: nat, e: Entry)
    requires s < |es| && !es[s].valid && Indexed(es, index)
    ensures ViewOf(es[s := e], index, disk) == ViewOf(es, index, disk)
  {
  }

  lemma ChainWith(es: seq<Entry>, bs: seq<seq<nat>>, hash: Key -> nat, s: nat, e: Entry)
    requires s < |es| && !es[s].valid && !e.valid && hash(e.key) < |bs| && Chains(es, bs, hash, -1)
    ensures var b := hash(e.key);
            Chains(es[s := e], bs[b := [s] + bs[b]], hash, s)
  {
    var b := hash(e.key);
    var es', bs' := es[s := e], bs[b := [s] + bs[b]];
    forall c, t | 0 <= c < |bs'| && 0 <= t < |es'|
      ensures t in bs'[c] <==> Linked(es', s, t) && hash(es'[t].key) == c
    {
      assert t in bs[c] <==> Linked(es, -1, t) && hash(es[t].key) == c;
    }
  }

  /** Filling the pending slot at the head of the LRU list makes its key cached. */
  lemma FillStep(es: seq<Entry>, bs: seq<seq<nat>>, hash: Key -> nat, lru: seq<nat>, index: map<Key, nat>, disk: Disk,
                 lastUse: map<Key, nat>, now: nat, s: nat, d: Block, dirty: bool)
    requires s < |es| && !es[s].valid && es[s].key !in index && es[s].key.dev.Device? && lru != [] && lru[0] == s
    requires Consistent(es, bs, hash, lru, index, disk, lastUse, now, s)
    requires dirty || (es[s].key in disk && d == disk[es[s].key])
    ensures var k := es[s].key;
            var es' := es[s := Entry(k, d, true, dirty)];
            && Consistent(es', bs, hash, lru, index[k := s], disk, lastUse[k := now], now + 1, -1)
            && ViewOf(es', index[k := s], disk) == ViewOf(es, index, disk)[k := d]
  {
    hide Chains, ViewOf, Recent, Permutation;
    var e := Entry(es[s].key, d, true, dirty);
    ChainsSame(es, s, es[s := e], -1, bs, hash);
    RecentFilled(es, s, e, index, lru, lastUse, now);
    FillIndexed(es, index, s, e);
    FillView(es, index, disk, s, e);
  }

  lemma FillIndexed(es: seq<Entry>, index: map<Key, nat>, s: nat, e: Entry)
    requires s < |es| && !es[s].valid && e.valid && e.key !in index && Indexed(es, index)
    ensures Indexed(es[s := e], index[e.key := s])
  {
  }

  lemma FillView(es: seq<Entry>, index: map<Key, nat>, disk: Disk, s: nat, e: Entry)
    requires s < |es| && !es[s].valid && e.key !in index && Indexed(es, index)
    ensures ViewOf(es[s := e], index[e.key := s], disk) == ViewOf(es, index, disk)[e.key := e.data]
  {
  }

  /** Giving up a pending slot. */
  lemma AbandonStep(es: seq<Entry>, bs: seq<seq<nat>>, hash: Key -> nat, lru: seq<nat>, index: map<Key, nat>,
                    disk: Disk,
                    lastUse: map<Key, nat>, now: nat, s: nat)
    requires s < |es| && !es[s].valid && hash(es[s].key) < |bs|
    requires Consistent(es, bs, hash, lru, index, disk, lastUse, now, s)
    ensures var b := hash(es[s].key);
            s in bs[b] && Consistent(es, bs[b := Without(bs[b], s)], hash, lru, index, disk, lastUse, now, -1)
  {
    hide Chains;
    ChainWithout(es, bs, hash, s, s, es[s]);
    assert es[s := es[s]] == es;
  }

  /** Overwriting a cached block. */
  lemma OverwriteStep(es: seq<Entry>, bs: seq<seq<nat>>, hash: Key -> nat, lru: seq<nat>, index: map<Key, nat>,
                      disk: Disk,
                      lastUse: map<Key, nat>, now: nat, s: nat, d: Block)
    requires s < |es| && es[s].valid && Consistent(es, bs, hash, lru, index, disk, lastUse, now, -1)
    ensures var es' := es[s := es[s].(data := d, dirty := true)];
            && Consistent(es', bs, hash, lru, index, disk, lastUse, now, -1)
            && ViewOf(es', index, disk) == ViewOf(es, index, disk)[es[s].key := d]
  {
    hide Chains, ViewOf, Recent, Permutation;
    var es' := es[s := es[s].(data := d, dirty := true)];
    ChainsSame(es, -1, es', -1, bs, hash);
    RecentFewer(es, es', lru, lastUse, now);
    assert Indexed(es', index);
    OverwriteView(es, index, disk, s, es'[s]);
  }

  lemma OverwriteView(es: seq<Entry>, index: map<Key, nat>, disk: Disk, s: nat, e: Entry)
    requires s < |es| && es[s].valid && e.key == es[s].key && Indexed(es, index)
    ensures ViewOf(es[s := e], index, disk) == ViewOf(es, index, disk)[e.key := e.data]
  {
  }

  /** The order survives when entries only become invalid. */
  lemma RecentFewer(es: seq<Entry>, es': seq<Entry>, lru: seq<nat>, lastUse: map<Key, nat>, now: nat)
    requires |es| == |es'| && Permutation(lru, |es|) && Recent(es, lru, lastUse, now)
    requires forall s | 0 <= s < |es| && es'[s].valid :: es[s].valid && es[s].key == es'[s].key
    ensures Recent(es', lru, lastUse, now)
  {
  }

  /** A newly filled slot at the head is the most recently used. */
  lemma RecentFilled(es: seq<Entry>, s: nat, e: Entry, index: map<Key, nat>, lru: seq<nat>, lastUse: map<Key, nat>,
                     now: nat)
    requires s < |es| && !es[s].valid && e.valid && Indexed(es, index) && e.key !in index
    requires Permutation(lru, |es|) && lru != [] && lru[0] == s && Recent(es, lru, lastUse, now)
    ensures Recent(es[s := e], lru, lastUse[e.key := now], now + 1)
  {
  }

  /** The tail of a full list is the least recently used key. */
  lemma TailIsOldest(es: seq<Entry>, index: map<Key, nat>, lru: seq<nat>, lastUse: map<Key, nat>, now: nat)
    requires Indexed(es, index) && Permutation(lru, |es|) && Recent(es, lru, lastUse, now) && lru != []
    requires forall s | 0 <= s < |es| :: es[s].valid
    ensures LeastUsed(index, lastUse, es[lru[|lru| - 1]].key)
  {
    var v := es[lru[|lru| - 1]].key;
    forall k | k in index
      ensures k in lastUse && lastUse[v] <= lastUse[k]
    {
      var i := IndexOf(lru, index[k]);
      assert es[lru[i]].key == k;
    }
  }

  ghost predicate LeastUsed(index: map<Key, nat>, lastUse: map<Key, nat>, v: Key)
  {
    v in index && v in lastUse && forall k | k in index :: k in lastUse && lastUse[v] <= lastUse[k]
  }

  /** What making room does to the set of cached keys: nothing below capacity, else the least recently used key goes. */
  ghost predicate MadeRoom(index: map<Key, nat>, lastUse: map<Key, nat>, capacity: nat, index': map<Key, nat>)
  {
    if |index| < capacity then index' == index
    else exists v :: LeastUsed(index, lastUse, v) && index' == index - {v}
  }

  /** Cached keys after an access to k. */
  ghost predicate Cached(index: map<Key, nat>, lastUse: map<Key, nat>, capacity: nat, k: Key, index': map<Key, nat>)
  {
    if k in index then index' == index
    else exists room :: MadeRoom(index, lastUse, capacity, room) && index'.Keys == room.Keys + {k}
  }

  lemma IndexedPrefix(es: seq<Entry>, index: map<Key, nat>)
    requires Indexed(es, index) && es != []
    ensures var n := |es| - 1;
            Indexed(es[..n], if es[n].valid then index - {es[n].key} else index)
    ensures es[|es| - 1].valid ==> es[|es| - 1].key in index
  {
  }

  lemma EmptyIndex(index: map<Key, nat>)
    requires Indexed([], index)
    ensures index == map[]
  {
  }

  lemma InChain(es: seq<Entry>, bs: seq<seq<nat>>, hash: Key -> nat, index: map<Key, nat>, k: Key)
    requires Indexed(es, index) && Chains(es, bs, hash, -1) && hash(k) < |bs|
    ensures k in index ==> index[k] in bs[hash(k)]
  {
  }

  /** The access to k is later than every access before; nothing else changes. */
  ghost predicate LastUsed(use: map<Key, nat>, use': map<Key, nat>, k: Key)
  {
    use'.Keys == use.Keys + {k} && (forall u | u in use && u != k :: use'[u] == use[u])
        && forall u | u in use :: use[u] < use'[k]
  }

  /** A cache is full when every slot is valid. */
  lemma {:induction false} FullIff(es: seq<Entry>, index: map<Key, nat>)
    requires Indexed(es, index)
    ensures |index| <= |es|
    ensures |index| == |es| <==> forall s | 0 <= s < |es| :: es[s].valid
  {
    hide Indexed;
    if es == [] {
      EmptyIndex(index);
    } else {
      var n := |es| - 1;
      var index' := if es[n].valid then index - {es[n].key} else index;
      IndexedPrefix(es, index);
      FullIff(es[..n], index');
      assert es[n].valid ==> index.Keys == index'.Keys + {es[n].key};
    }
  }

  // ------------------------------------------------------------ the plain disk

  function KeyAt(dev: Device, lba: nat, i: nat): Key
  {
    Key(dev, (lba + i) % W64)
  }

  ghost predicate InRange(disk: Disk, dev: Device, lba: nat, count: nat)
  {
    forall i: nat | i < count :: KeyAt(dev, lba, i) in disk
  }

  ghost function PlainRead(disk: Disk, dev: Device, lba: nat, count: nat): Option<seq<Block>>
  {
    if dev.Device? && count > 0 && InRange(disk, dev, lba, count)
    then Some(seq(count, i requires 0 <= i < count => disk[KeyAt(dev, lba, i)]))
    else None
  }

  /** The blocks a request of `count` blocks names. */
  ghost function KeysAt(dev: Device, lba: nat, count: nat): (r: set<Key>)
    ensures forall i: nat | i < count :: KeyAt(dev, lba, i) in r
    ensures forall k | k in r :: exists i: nat :: i < count && k == KeyAt(dev, lba, i)
  {
    if count == 0 then {} else KeysAt(dev, lba, count - 1) + {KeyAt(dev, lba, count - 1)}
  }

  lemma KeysNone(dev: Device, lba: nat)
    ensures KeysAt(dev, lba, 0) == {}
  {
  }

  lemma KeysNext(dev: Device, lba: nat, i: nat)
    ensures KeysAt(dev, lba, i + 1) == KeysAt(dev, lba, i) + {KeyAt(dev, lba, i)}
  {
  }

  ghost function PlainWrite(disk: Disk, dev: Device, lba: nat, blocks: seq<Block>): Disk
  {
    if dev.Null? || blocks == [] then disk
    else PlainWrite(disk, dev, lba, blocks[..|blocks| - 1])[KeyAt(dev, lba, |blocks| - 1) := blocks[|blocks| - 1]]
  }

  /** The request ends before the block numbers do. */
  predicate InNumbers(lba: nat, count: nat)
  {
    lba + count <= 0x1_0000_0000_0000_0000
  }

  /** What block k holds after `blocks` went to the places from lba on, one after the other. */
  ghost function BlockAfter(disk: Disk, dev: Device, lba: nat, blocks: seq<Block>, k: Key): Option<Block>
  {
    if dev.Device? && k.dev == dev && lba <= k.lba < lba + |blocks| then Some(blocks[k.lba - lba])
    else if k in disk then Some(disk[k])
    else None
  }

  ghost function BlockIn(disk: Disk, k: Key): Option<Block>
  {
    if k in disk then Some(disk[k]) else None
  }

  /** A write puts each block at its own number and touches no other. */
  lemma {:induction false} PlainWriteAt(disk: Disk, dev: Device, lba: nat, blocks: seq<Block>, k: Key)
    requires InNumbers(lba, |blocks|)
    ensures BlockIn(PlainWrite(disk, dev, lba, blocks), k) == BlockAfter(disk, dev, lba, blocks, k)
    decreases |blocks|
  {
    if dev.Device? && blocks != [] {
      PlainWriteAt(disk, dev, lba, blocks[..|blocks| - 1], k);
    }
  }

  /** A read answers with the blocks at the numbers from lba on, exactly if they are all there. */
  lemma PlainReadAt(disk: Disk, dev: Device, lba: nat, count: nat)
    requires InNumbers(lba, count)
    ensures PlainRead(disk, dev, lba, count).Some? <==>
              dev.Device? && count > 0 && forall n: nat | lba <= n < lba + count :: Key(dev, n) in disk
    ensures var r := PlainRead(disk, dev, lba, count);
            r.Some? ==>
              && |r.value| == count
              && forall n: nat | lba <= n < lba + count :: BlockIn(disk, Key(dev, n)) == Some(r.value[n - lba])
  {
    forall n: nat | lba <= n < lba + count
      ensures KeyAt(dev, lba, n - lba) == Key(dev, n)
    {
    }
    if InRange(disk, dev, lba, count) {
      forall n: nat | lba <= n < lba + count
        ensures Key(dev, n) in disk
      {
        assert KeyAt(dev, lba, n - lba) in disk;
      }
    }
    if forall n: nat | lba <= n < lba + count :: Key(dev, n) in disk {
      forall i: nat | i < count
        ensures KeyAt(dev, lba, i) in disk
      {
        assert Key(dev, lba + i) in disk;
      }
    }
  }

  /** What was written is read back. */
  lemma PlainReadBack(disk: Disk, dev: Device, lba: nat, blocks: seq<Block>)
    requires InNumbers(lba, |blocks|) && dev.Device? && blocks != []
    ensures PlainRead(PlainWrite(disk, dev, lba, blocks), dev, lba, |blocks|) == Some(blocks)
  {
    hide PlainWrite, PlainRead;
    var disk' := PlainWrite(disk, dev, lba, blocks);
    forall n: nat | lba <= n < lba + |blocks|
      ensures BlockIn(disk', Key(dev, n)) == Some(blocks[n - lba]) && Key(dev, n) in disk'
    {
      PlainWriteAt(disk, dev, lba, blocks, Key(dev, n));
    }
    PlainReadAt(disk', dev, lba, |blocks|);
    var r := PlainRead(disk', dev, lba, |blocks|);
    forall i | 0 <= i < |blocks|
      ensures r.value[i] == blocks[i]
    {
      assert BlockIn(disk', Key(dev, lba + i)) == Some(r.value[lba + i - lba]);
    }
    assert r.value == blocks;
  }

  lemma WrittenAt(view: Disk, view': Disk, dev: Device, lba: nat, blocks: seq<Block>, lost: set<Key>)
    requires Agree(PlainWrite(view, dev, lba, blocks), view', lost)
    ensures InNumbers(lba, |blocks|) ==>
              forall k | k !in lost :: BlockIn(view', k) == BlockAfter(view, dev, lba, blocks, k)
  {
    hide PlainWrite, BlockAfter;
    forall k | InNumbers(lba, |blocks|) && k !in lost
      ensures BlockIn(view', k) == BlockAfter(view, dev, lba, blocks, k)
    {
      PlainWriteAt(view, dev, lba, blocks, k);
    }
  }

  // ------------------------------------------------------------ the cache

  lemma Identity(n: nat)
    ensures Permutation(seq(n, i requires 0 <= i => i), n)
  {
    var q: seq<nat> := seq(n, i requires 0 <= i => i);
    forall s: nat | s < n
      ensures s in q
    {
      assert q[s] == s;
    }
  }

  lemma EmptyCache(es: seq<Entry>, bs: seq<seq<nat>>, hash: Key -> nat, lru: seq<nat>, disk: Disk)
    requires (forall s | 0 <= s < |es| :: !es[s].valid) && (forall b | 0 <= b < |bs| :: bs[b] == [])
    requires Permutation(lru, |es|)
    ensures Consistent(es, bs, hash, lru, map[], disk, map[], 0, -1) && ViewOf(es, map[], disk) == disk
  {
  }

  /** A dirty entry of the device (of any device for Null). */
  predicate ToFlush(e: Entry, dev: Device)
  {
    e.valid && e.dirty && (dev.Null? || e.key.dev == dev)
  }

  /** The device accepts whatever is dirty below i. */
  ghost predicate AllAccepted(es: seq<Entry>, i: nat, dev: Device, keys: set<Key>, broken: set<Key>)
  {
    forall s | 0 <= s < i && s < |es| && ToFlush(es[s], dev) :: Accepts(keys, broken, es[s].key)
  }

  lemma AcceptedNone(es: seq<Entry>, dev: Device, keys: set<Key>, broken: set<Key>)
    ensures AllAccepted(es, 0, dev, keys, broken)
  {
  }

  lemma AcceptedStep(es: seq<Entry>, i: nat, dev: Device, keys: set<Key>, broken: set<Key>)
    requires i < |es|
    ensures AllAccepted(es, i + 1, dev, keys, broken) <==>
              AllAccepted(es, i, dev, keys, broken) && (ToFlush(es[i], dev) ==> Accepts(keys, broken, es[i].key))
  {
  }

  /** The blocks whose contents the device does not have yet. */
  ghost function DirtyOf(es: seq<Entry>): set<Key>
  {
    set s | 0 <= s < |es| && es[s].valid && es[s].dirty :: es[s].key
  }

  lemma DirtyUpdate(es: seq<Entry>, s: nat, e: Entry)
    requires s < |es|
    ensures DirtyOf(es[s := e]) <= DirtyOf(es) + if e.valid && e.dirty then {e.key} else {}
    ensures es[s].valid && es[s].dirty ==> es[s].key in DirtyOf(es)
  {
  }

  class Cache {
    const hash: Key -> nat
    var entries: array<Entry>
    var buckets: array<seq<nat>>
    var lru: seq<nat>
    var stats: Stats
    var disk: Disk
    ghost var index: map<Key, nat>
    ghost var lastUse: map<Key, nat>
    ghost var now: nat

    ghost predicate Shape()
      reads this`entries, this`buckets, this`disk
    {
      && entries.Length > 0 && buckets.Length > 0
      && (forall k :: hash(k) < buckets.Length)
      && (forall k | k in disk :: k.dev.Device?)
    }

    ghost predicate Inv(pending: int)
      reads this`entries, this`buckets, this`lru, this`disk, this`index, this`lastUse, this`now, entries, buckets
    {
      && Shape()
      && Consistent(entries[..], buckets[..], hash, lru, index, disk, lastUse, now, pending)
    }

    ghost predicate Valid()
      reads this, entries, buckets
    {
      Inv(-1) && stats.hits + stats.misses == stats.readCount
    }

    /** The contents as a user of the cache sees them. */
    ghost function View(): Disk
      reads this`entries, this`disk, this`index, entries
    {
      ViewOf(entries[..], index, disk)
    }

    ghost function Dirty(): set<Key>
      reads this`entries, entries
    {
      DirtyOf(entries[..])
    }

    /** block_cache_init, for any number of slots and buckets and any hash into the buckets. */
    constructor (capacity: nat, bucketCount: nat, hash: Key -> nat, disk: Disk)
      requires capacity > 0 && bucketCount > 0 && (forall k :: hash(k) < bucketCount)
      requires forall k | k in disk :: k.dev.Device?
      ensures Valid() && fresh(entries) && fresh(buckets) && entries.Length == capacity
      ensures View() == disk && this.disk == disk && index == map[] && this.hash == hash
    {
      this.hash := hash;
      entries := new Entry[capacity](_ => Entry(Key(Null, 0), seq(512, _ => 0), false, false));
      buckets := new seq<nat>[bucketCount](_ => []);
      lru := seq(capacity, i requires 0 <= i => i);
      Identity(capacity);
      stats := Stats(0, 0, 0, 0, 0, 0);
      this.disk := disk;
      index, lastUse, now := map[], map[], 0;
      new;
      hide Consistent, ViewOf, Permutation;
      EmptyCache(entries[..], buckets[..], hash, lru, disk);
    }

    /**
     * In every reachable state a key has at most one valid entry, in its own chain, and clean ones agree with the disk.
     */
    lemma Coherence(s: nat, t: nat)
      requires Valid() && s < entries.Length && t < entries.Length && entries[s].valid
      ensures s in buckets[hash(entries[s].key)]
      ensures !entries[s].dirty ==> entries[s].key in disk && entries[s].data == disk[entries[s].key]
      ensures entries[t].valid && entries[t].key == entries[s].key ==> s == t
      ensures forall b | 0 <= b < buckets.Length && t in buckets[b] :: entries[t].valid && b == hash(entries[t].key)
    {
      hide Recent, Permutation;
      InChain(entries[..], buckets[..], hash, index, entries[s].key);
      SlotFacts(s);
      SlotFacts(t);
      forall b | 0 <= b < buckets.Length && t in buckets[b]
        ensures entries[t].valid && b == hash(entries[t].key)
      {
        assert t in buckets[..][b];
        assert Linked(entries[..], -1, t);
      }
    }

    /** cache_lookup_locked */
    method Lookup(k: Key) returns (slot: Option<nat>)
      requires Inv(-1)
      ensures slot.Some? <==> k in index
      ensures slot.Some? ==> slot.value == index[k]
    {
      InChain(entries[..], buckets[..], hash, index, k);
      var chain := buckets[hash(k)];
      for i := 0 to |chain|
        invariant forall j | 0 <= j < i :: !(entries[chain[j]].valid && entries[chain[j]].key == k)
      {
        var e := entries[chain[i]];
        if e.valid && e.key == k {
          return Some(chain[i]);
        }
      }
      return None;
    }

    /** block_write of one block: the device takes it unless it lies beyond the end or is one of the broken ones. */
    method DeviceWrite(k: Key, d: Block, broken: set<Key>) returns (ok: bool)
      modifies this`disk
      ensures ok <==> Accepts(old(disk.Keys), broken, k)
      ensures disk == if ok then old(disk)[k := d] else old(disk)
    {
      ok := k in disk && k !in broken;
      if ok {
        disk := disk[k := d];
      }
    }

    /** cache_flush_entry_locked: clean afterwards exactly if the device accepts the block. */
    method FlushEntry(s: nat, broken: set<Key>) returns (ok: bool)
      requires Inv(-1) && s < entries.Length
      modifies this`disk, this`stats, entries
      ensures Inv(-1) && View() == old(View()) && disk.Keys == old(disk.Keys)
      ensures ok <==>
                (old(entries[s]).valid && old(entries[s]).dirty ==> Accepts(disk.Keys, broken, old(entries[s]).key))
      ensures entries[..] == old(entries[..])[s :=
                old(entries[s]).(dirty := old(entries[s]).dirty && !(ok && old(entries[s]).valid))]
      ensures Dirty() <= old(Dirty())
      ensures old(entries[s]).valid && ok ==> disk == old(disk)[entries[s].key := entries[s].data]
      ensures !old(entries[s]).valid || !ok ==> disk == old(disk)
      ensures stats == old(stats).(flushes := old(stats).flushes + if ok && old(entries[s]).valid
                && old(entries[s]).dirty then 1 else 0)
    {
      hide Consistent, ViewOf, DirtyOf;
      var e := entries[s];
      SlotFacts(s);
      assert entries[..][s := e] == entries[..];
      DirtyUpdate(entries[..], s, e.(dirty := false));
      if !e.valid || !e.dirty || e.key.dev.Null? {
        return true;
      }
      if Accepts(disk.Keys, broken, e.key) {
        FlushStep(entries[..], buckets[..], hash, lru, index, disk, lastUse, now, s);
      }
      ok := DeviceWrite(e.key, e.data, broken);
      if !ok {
        return;
      }
      entries[s] := e.(dirty := false);
      stats := stats.(flushes := stats.flushes + 1);
      assert entries[..] == old(entries[..])[s := e.(dirty := false)];
    }

    lemma SlotFacts(s: nat)
      requires Inv(-1) && s < entries.Length
      ensures entries[s].valid ==> entries[s].key.dev.Device?
      ensures entries[s].valid ==> entries[s].key in index && index[entries[s].key] == s
      ensures entries[s].valid && !entries[s].dirty ==>
                entries[s].key in disk && disk[entries[s].key] == entries[s].data
    {
      assert entries[..][s] == entries[s];
    }

    /**
     * Taking a valid entry out of its chain; list_del and list_init of its hash node. What is still dirty is forgotten.
     */
    method Drop(s: nat, e: Entry)
      requires Inv(-1) && s < entries.Length && entries[s].valid && !e.valid
      modifies this`index, entries, buckets
      ensures Inv(-1) && Agree(old(View()), View(), if old(entries[s]).dirty then {old(entries[s]).key} else {})
      ensures entries[..] == old(entries[..])[s := e] && index == old(index) - {old(entries[s].key)}
      ensures Dirty() <= old(Dirty())
    {
      hide Consistent, ViewOf, Without, DirtyOf;
      DirtyUpdate(entries[..], s, e);
      DropStep(entries[..], buckets[..], hash, lru, index, disk, lastUse, now, s, e);
      DropForgets(s);
      var b := hash(entries[s].key);
      buckets[b] := Without(buckets[b], s);
      index := index - {entries[s].key};
      entries[s] := e;
      assert entries[..] == old(entries[..])[s := e];
      assert buckets[..] == old(buckets[..])[b := Without(old(buckets[b]), s)];
    }

    lemma DropForgets(s: nat)
      requires Inv(-1) && s < entries.Length && entries[s].valid
      ensures Agree(View(), Forget(View(), disk, entries[s].key), if entries[s].dirty then {entries[s].key} else {})
    {
      hide Chains, Recent, Permutation, ViewOf, Forget, Agree;
      ForgetClean(entries[..], index, disk, s);
      AgreeNone(View(), View());
    }

    /** The search for a slot that is not valid, from the tail of the LRU list. */
    method FindInvalid() returns (slot: Option<nat>)
      requires Inv(-1)
      ensures slot.Some? ==> slot.value < entries.Length && !entries[slot.value].valid
      ensures slot.None? ==> forall s | 0 <= s < entries.Length :: entries[s].valid
    {
      hide Chains, Recent, Indexed, Coherent;
      var i := |lru|;
      while i > 0
        invariant 0 <= i <= |lru|
        invariant forall j | i <= j < |lru| :: entries[lru[j]].valid
      {
        i := i - 1;
        if !entries[lru[i]].valid {
          return Some(lru[i]);
        }
      }
      forall s | 0 <= s < entries.Length
        ensures entries[s].valid
      {
        assert lru[IndexOf(lru, s)] == s;
      }
      return None;
    }

    /**
     * Evicting the tail of a full cache: its contents are lost exactly if they are dirty and the device does not accept
     * them.
     */
    method Evict(broken: set<Key>) returns (s: nat, ghost lost: set<Key>)
      requires Inv(-1) && forall t | 0 <= t < entries.Length :: entries[t].valid
      modifies this`disk, this`stats, this`index, entries, buckets
      ensures Inv(-1) && Agree(old(View()), View(), lost) && disk.Keys == old(disk.Keys)
      ensures s < entries.Length && !entries[s].valid && index == old(index) - {old(entries[s]).key}
      ensures var v := old(entries[s]); lost == if v.dirty && !Accepts(disk.Keys, broken, v.key) then {v.key} else {}
      ensures lost <= old(Dirty()) && Dirty() <= old(Dirty())
      ensures old(entries[s]).key in old(index) && MadeRoom(old(index), lastUse, entries.Length, index)
      ensures stats == old(stats).(flushes := stats.flushes, evictions := old(stats).evictions + 1)
    {
      hide Consistent, ViewOf, Agree, DirtyOf;
      TailFacts();
      s := lru[|lru| - 1];
      lost := {};
      DirtyUpdate(entries[..], s, entries[s]);
      var ok := FlushEntry(s, broken);
      if !ok {
        lost := {entries[s].key};
      }
      assert entries[s].valid && entries[s].dirty == !ok;
      Drop(s, entries[s].(valid := false));
      stats := stats.(evictions := stats.evictions + 1);
    }

    lemma TailFacts()
      requires Inv(-1) && forall t | 0 <= t < entries.Length :: entries[t].valid
      ensures lru != [] && lru[|lru| - 1] < entries.Length
      ensures LeastUsed(index, lastUse, entries[lru[|lru| - 1]].key) && |index| == entries.Length
    {
      assert 0 in lru;
      FullIff(entries[..], index);
      TailIsOldest(entries[..], index, lru, lastUse, now);
    }

    /** cache_allocate_slot_locked: a slot for `k` at the head of its chain and of the LRU list, not yet valid. */
    method AllocateSlot(k: Key, broken: set<Key>) returns (s: nat, ghost lost: set<Key>)
      requires Inv(-1) && k !in index
      modifies this`disk, this`stats, this`index, this`lru, entries, buckets
      ensures s < entries.Length && Inv(s) && Agree(old(View()), View(), lost) && disk.Keys == old(disk.Keys)
      ensures AtRisk(lost, disk.Keys, broken) && lost <= old(index).Keys - index.Keys && index.Keys <= old(index).Keys
      ensures lost <= old(Dirty()) && Dirty() <= old(Dirty())
      ensures !entries[s].valid && entries[s].key == k && k !in index && lru != [] && lru[0] == s
      ensures MadeRoom(old(index), lastUse, entries.Length, index)
      ensures stats == old(stats).(flushes := stats.flushes, evictions := stats.evictions)
    {
      hide Consistent, ViewOf, ToFront, Agree, DirtyOf;
      lost := {};
      AgreeNone(View(), View());
      var free := FindInvalid();
      if free.Some? {
        s := free.value;
        NotFull(s);
      } else {
        s, lost := Evict(broken);
      }
      var e := Entry(k, entries[s].data, false, false);
      Associate(s, e);
    }

    lemma NotFull(s: nat)
      requires Inv(-1) && s < entries.Length && !entries[s].valid
      ensures |index| < entries.Length
    {
      FullIff(entries[..], index);
      assert !entries[..][s].valid;
    }

    /** The end of cache_allocate_slot_locked. */
    method Associate(s: nat, e: Entry)
      requires Inv(-1) && s < entries.Length && !entries[s].valid && !e.valid
      modifies this`lru, entries, buckets
      ensures Inv(s) && View() == old(View()) && entries[s] == e && lru != [] && lru[0] == s && Dirty() <= old(Dirty())
    {
      hide Consistent, ViewOf, ToFront, DirtyOf;
      DirtyUpdate(entries[..], s, e);
      AssociateStep(entries[..], buckets[..], hash, lru, index, disk, lastUse, now, s, e);
      var b := hash(e.key);
      entries[s] := e;
      buckets[b] := [s] + buckets[b];
      lru := ToFront(lru, s);
      assert entries[..] == old(entries[..])[s := e];
      assert buckets[..] == old(buckets[..])[b := [s] + old(buckets[b])];
    }

    /** Making the pending slot valid with contents `d`. */
    method Fill(s: nat, d: Block, dirty: bool)
      requires s < entries.Length && Inv(s) && !entries[s].valid && entries[s].key !in index
      requires entries[s].key.dev.Device?
      requires lru != [] && lru[0] == s && (dirty || (entries[s].key in disk && d == disk[entries[s].key]))
      modifies this`index, this`lastUse, this`now, entries
      ensures Inv(-1) && View() == old(View())[old(entries[s].key) := d]
      ensures index == old(index)[old(entries[s].key) := s]
      ensures Dirty() <= old(Dirty()) + if dirty then {old(entries[s].key)} else {}
      ensures entries[s] == Entry(old(entries[s].key), d, true, dirty)
      ensures lastUse == old(lastUse)[old(entries[s].key) := old(now)] && now == old(now) + 1
    {
      hide Consistent, ViewOf, DirtyOf;
      DirtyUpdate(entries[..], s, Entry(entries[s].key, d, true, dirty));
      FillStep(entries[..], buckets[..], hash, lru, index, disk, lastUse, now, s, d, dirty);
      var k := entries[s].key;
      entries[s] := Entry(k, d, true, dirty);
      index := index[k := s];
      lastUse := lastUse[k := now];
      now := now + 1;
      assert entries[..] == old(entries[..])[s := Entry(k, d, true, dirty)];
    }

    /** cache_touch_locked; the ghost clock records the access. */
    method Touch(s: nat)
      requires Inv(-1) && s < entries.Length && entries[s].valid
      modifies this`lru, this`lastUse, this`now
      ensures Inv(-1) && View() == old(View()) && lastUse == old(lastUse)[entries[s].key := old(now)]
      ensures now == old(now) + 1
    {
      hide Chains, Recent, Indexed, Coherent, Permutation, ToFront, ViewOf;
      TouchStep(entries[..], index, lru, s, lastUse, now);
      lastUse := lastUse[entries[s].key := now];
      now := now + 1;
      lru := ToFront(lru, s);
    }

    lemma ViewAt(pending: int, k: Key)
      requires Inv(pending)
      ensures View().Keys == disk.Keys + index.Keys
      ensures k in disk || k in index ==> k.dev.Device?
      ensures k in index ==> index[k] < entries.Length && View()[k] == entries[index[k]].data
      ensures k in index ==> entries[index[k]].valid && entries[index[k]].key == k
      ensures k in disk && k !in index ==> View()[k] == disk[k]
    {
    }

    /** Giving up the pending slot after a failed read. */
    method Abandon(s: nat)
      requires s < entries.Length && Inv(s) && !entries[s].valid
      modifies buckets
      ensures Inv(-1) && View() == old(View())
    {
      hide Consistent, ViewOf, Without;
      AbandonStep(entries[..], buckets[..], hash, lru, index, disk, lastUse, now, s);
      var b := hash(entries[s].key);
      buckets[b] := Without(buckets[b], s);
      assert buckets[..] == old(buckets[..])[b := Without(old(buckets[b]), s)];
    }

    /** Copying new contents into a cached block. */
    method Overwrite(s: nat, d: Block)
      requires Inv(-1) && s < entries.Length && entries[s].valid
      modifies entries
      ensures Inv(-1) && View() == old(View())[entries[s].key := d]
      ensures entries[s].valid && entries[s].key == old(entries[s].key) && Dirty() <= old(Dirty()) + {entries[s].key}
    {
      hide Consistent, ViewOf, DirtyOf;
      DirtyUpdate(entries[..], s, entries[s].(data := d, dirty := true));
      OverwriteStep(entries[..], buckets[..], hash, lru, index, disk, lastUse, now, s, d);
      entries[s] := entries[s].(data := d, dirty := true);
      assert entries[..] == old(entries[..])[s := entries[s]];
    }

    /** A miss: the block is fetched into a slot, or the read fails. */
    method ReadMiss(k: Key, broken: set<Key>) returns (r: Option<Block>, ghost lost: set<Key>)
      requires Inv(-1) && k !in index
      modifies this`disk, this`stats, this`index, this`lru, this`lastUse, this`now, entries, buckets
      ensures Inv(-1) && Agree(old(View()), View(), lost) && disk.Keys == old(disk.Keys)
      ensures AtRisk(lost, disk.Keys, broken) && lost <= old(index).Keys - index.Keys
      ensures index.Keys <= old(index).Keys + if r.Some? then {k} else {}
      ensures lost <= old(Dirty()) && Dirty() <= old(Dirty())
      ensures k in old(View()) <==> k in disk
      ensures r == if Accepts(disk.Keys, broken, k) then Some(old(View())[k]) else None
      ensures r.Some? ==> Cached(old(index), old(lastUse), entries.Length, k, index)
      ensures r.Some? ==> LastUsed(old(lastUse), lastUse, k)
      ensures stats == old(stats).(flushes := stats.flushes, evictions := stats.evictions)
    {
      hide Cache.Inv, Cache.View, Cache.Dirty, MadeRoom, LastUsed;
      ViewAt(-1, k);
      var s;
      s, lost := AllocateSlot(k, broken);
      ViewAt(s, k);
      Clock(s, k);
      if k !in disk || k in broken {
        Abandon(s);
        return None, lost;
      }
      r := Some(disk[k]);
      assert View()[k := disk[k]] == View();
      Fill(s, disk[k], false);
    }

    lemma Clock(pending: int, k: Key)
      requires Inv(pending)
      ensures LastUsed(lastUse, lastUse[k := now], k)
      ensures LastUsed(lastUse, lastUse[k := now][k := now + 1], k)
    {
    }

    /** The turn of block_cache_read for one block. */
    method ReadBlock(k: Key, broken: set<Key>) returns (r: Option<Block>, ghost lost: set<Key>)
      requires Valid()
      modifies this`disk, this`stats, this`index, this`lru, this`lastUse, this`now, entries, buckets
      ensures Valid() && Agree(old(View()), View(), lost) && disk.Keys == old(disk.Keys)
      ensures AtRisk(lost, disk.Keys, broken) && lost <= old(index).Keys - index.Keys
      ensures index.Keys <= old(index).Keys + if r.Some? then {k} else {}
      ensures lost <= old(Dirty()) && Dirty() <= old(Dirty())
      ensures old(View()).Keys == disk.Keys + old(index).Keys
      ensures r == if k in old(index) || Accepts(disk.Keys, broken, k) then Some(old(View())[k]) else None
      ensures r.Some? ==> Cached(old(index), old(lastUse), entries.Length, k, index)
      ensures r.Some? ==> LastUsed(old(lastUse), lastUse, k)
      ensures stats.readCount == old(stats).readCount + 1
      ensures stats.hits == old(stats).hits + if k in old(index) then 1 else 0
      ensures stats.writeCount == old(stats).writeCount
    {
      hide Cache.Inv, Cache.View, Cache.Dirty, MadeRoom, LastUsed, Agree;
      stats := stats.(readCount := stats.readCount + 1);
      lost := {};
      AgreeNone(View(), View());
      ViewAt(-1, k);
      Clock(-1, k);
      var found := Lookup(k);
      if found.Some? {
        stats := stats.(hits := stats.hits + 1);
        r := Some(entries[found.value].data);
        Touch(found.value);
      } else {
        stats := stats.(misses := stats.misses + 1);
        r, lost := ReadMiss(k, broken);
      }
    }

    /** A write miss: the block takes a slot without being fetched. */
    method WriteMiss(k: Key, d: Block, broken: set<Key>) returns (s: nat, ghost lost: set<Key>)
      requires Inv(-1) && k !in index && k.dev.Device?
      modifies this`disk, this`stats, this`index, this`lru, this`lastUse, this`now, entries, buckets
      ensures Inv(-1) && Agree(old(View())[k := d], View(), lost) && disk.Keys == old(disk.Keys)
      ensures AtRisk(lost, disk.Keys, broken) && lost <= old(index).Keys - index.Keys
      ensures k in index && index.Keys <= old(index).Keys + {k}
      ensures lost <= old(Dirty()) && Dirty() <= old(Dirty()) + {k}
      ensures s < entries.Length && entries[s].valid && entries[s].key == k
      ensures Cached(old(index), old(lastUse), entries.Length, k, index)
      ensures lastUse == old(lastUse)[k := old(now)] && now == old(now) + 1
      ensures stats == old(stats).(flushes := stats.flushes, evictions := stats.evictions)
    {
      hide Cache.Inv, Cache.View, Cache.Dirty, MadeRoom, LastUsed;
      s, lost := AllocateSlot(k, broken);
      Fill(s, d, true);
    }

    /** The turn of block_cache_write for one block, on the device or beyond its end. */
    method WriteBlock(k: Key, d: Block, broken: set<Key>) returns (ghost lost: set<Key>)
      requires Valid() && k.dev.Device?
      modifies this`disk, this`stats, this`index, this`lru, this`lastUse, this`now, entries, buckets
      ensures Valid() && Agree(old(View())[k := d], View(), lost) && disk.Keys == old(disk.Keys)
      ensures AtRisk(lost, disk.Keys, broken) && lost <= old(index).Keys - index.Keys
      ensures k in index && index.Keys <= old(index).Keys + {k}
      ensures lost <= old(Dirty()) && Dirty() <= old(Dirty()) + {k}
      ensures Cached(old(index), old(lastUse), entries.Length, k, index)
      ensures LastUsed(old(lastUse), lastUse, k)
      ensures stats == old(stats).(writeCount := old(stats).writeCount + 1, flushes := stats.flushes,
                          evictions := stats.evictions)
    {
      hide Cache.Inv, Cache.View, Cache.Dirty, MadeRoom, LastUsed, Agree;
      stats := stats.(writeCount := stats.writeCount + 1);
      lost := {};
      AgreeNone(View()[k := d], View()[k := d]);
      ViewAt(-1, k);
      Clock(-1, k);
      var found := Lookup(k);
      var s;
      if found.Some? {
        s := found.value;
        Overwrite(s, d);
      } else {
        s, lost := WriteMiss(k, d, broken);
      }
      Touch(s);
    }

    /**
     * block_cache_read: what the plain disk would answer, or a failure if the device does not accept one of the blocks.
     * A block can come out of date only if it is lost in one turn of the request and accepted in another.
     */
    method Read(dev: Device, lba: nat, count: nat, faults: Faults) returns (r: Option<seq<Block>>, ghost lost: set<Key>)
      requires Valid()
      modifies this`disk, this`stats, this`index, this`lru, this`lastUse, this`now, entries, buckets
      ensures Valid() && Agree(old(View()), View(), lost) && disk.Keys == old(disk.Keys)
      ensures AtRisk(lost, disk.Keys, AllFaults(faults)) && index.Keys <= old(index).Keys + disk.Keys
      ensures lost + Dirty() <= old(Dirty())
      ensures r.Some? ==>
                dev.Device? && count > 0 && |r.value| == count && stats.readCount == old(stats).readCount + count
      ensures stats.writeCount == old(stats).writeCount
      ensures r.Some? ==>
                forall i: nat | i < count ::
                FreshOr(old(View()), r.value[i], KeyAt(dev, lba, i), lost, disk.Keys, faults, count)
      ensures r.Some? && InNumbers(lba, count) ==> BlocksAt(old(View()), dev, lba, r.value, lost)
      ensures r.Some? && InNumbers(lba, count) && AllFaults(faults) == {} ==>
                BlocksAt(old(View()), dev, lba, r.value, {})
      ensures r.None? ==>
                || dev.Null? || count == 0
                || exists i: nat :: i < count && !Accepts(disk.Keys, Turn(faults, i), KeyAt(dev, lba, i))
    {
      hide Cache.Inv, Cache.View, Cache.Dirty, Cached, LastUsed, Agree, AllFaults, SometimesAccepts;
      lost := {};
      AgreeNone(View(), View());
      if dev.Null? || count == 0 {
        return None, lost;
      }
      var blocks: seq<Block> := [];
      for i := 0 to count
        invariant Valid() && Agree(old(View()), View(), lost) && disk.Keys == old(disk.Keys) && |blocks| == i
        invariant AtRisk(lost, disk.Keys, AllFaults(faults)) && index.Keys <= old(index).Keys + disk.Keys
        invariant lost + Dirty() <= old(Dirty())
        invariant stats.readCount == old(stats).readCount + i && stats.writeCount == old(stats).writeCount
        invariant forall k | k in index && (k in lost || k !in old(index)) :: SometimesAccepts(disk.Keys, faults, i, k)
        invariant forall j: nat | j < i ::
                  FreshOr(old(View()), blocks[j], KeyAt(dev, lba, j), lost, disk.Keys, faults, i)
      {
        ghost var view := View();
        var b;
        ghost var more;
        b, more := ReadBlock(KeyAt(dev, lba, i), Turn(faults, i));
        NextTurn(disk.Keys, faults, i);
        if KeyAt(dev, lba, i) !in lost {
          AgreeAt(old(View()), view, lost, KeyAt(dev, lba, i));
        }
        AgreeTrans(old(View()), view, View(), lost, more);
        lost := lost + more;
        if b.None? {
          return None, lost;
        }
        blocks := blocks + [b.value];
      }
      ReadAt(old(View()), dev, lba, blocks, lost, disk.Keys, faults);
      return Some(blocks), lost;
    }

    /** block_cache_write: the logical contents change as the plain disk would, also beyond the end of the device. */
    method Write(dev: Device, lba: nat, blocks: seq<Block>, faults: Faults) returns (ok: bool, ghost lost: set<Key>)
      requires Valid()
      modifies this`disk, this`stats, this`index, this`lru, this`lastUse, this`now, entries, buckets
      ensures Valid() && Agree(PlainWrite(old(View()), dev, lba, blocks), View(), lost) && disk.Keys == old(disk.Keys)
      ensures AtRisk(lost, disk.Keys, AllFaults(faults)) && lost !! index.Keys
      ensures lost + index.Keys <= old(index).Keys + if ok then KeysAt(dev, lba, |blocks|) else {}
      ensures lost + Dirty() <= old(Dirty()) + if ok then KeysAt(dev, lba, |blocks|) else {}
      ensures ok <==> dev.Device? && blocks != []
      ensures InNumbers(lba, |blocks|) ==>
                forall k | k !in lost :: BlockIn(View(), k) == BlockAfter(old(View()), dev, lba, blocks, k)
      ensures ok ==> KeyAt(dev, lba, |blocks| - 1) in index
      ensures stats.writeCount == old(stats).writeCount + if ok then |blocks| else 0
      ensures stats.readCount == old(stats).readCount && stats.hits == old(stats).hits
    {
      hide Cache.Inv, Cache.View, Cache.Dirty, Cached, LastUsed, Agree, AllFaults, KeysAt;
      lost := {};
      AgreeNone(View(), View());
      KeysNone(dev, lba);
      if dev.Null? || blocks == [] {
        WrittenAt(old(View()), View(), dev, lba, blocks, lost);
        return false, lost;
      }
      for i := 0 to |blocks|
        invariant Valid() && disk.Keys == old(disk.Keys)
        invariant Agree(PlainWrite(old(View()), dev, lba, blocks[..i]), View(), lost)
        invariant AtRisk(lost, disk.Keys, AllFaults(faults)) && lost !! index.Keys
        invariant lost + index.Keys <= old(index).Keys + KeysAt(dev, lba, i)
        invariant lost + Dirty() <= old(Dirty()) + KeysAt(dev, lba, i)
        invariant i > 0 ==> KeyAt(dev, lba, i - 1) in index
        invariant stats.writeCount == old(stats).writeCount + i
        invariant stats.readCount == old(stats).readCount && stats.hits == old(stats).hits
      {
        ghost var view, before, dirty := View(), index.Keys, Dirty();
        var k := KeyAt(dev, lba, i);
        ghost var more := WriteBlock(k, blocks[i], Turn(faults, i));
        NextTurn(disk.Keys, faults, i);
        assert blocks[..i + 1][..i] == blocks[..i];
        AgreeWrite(PlainWrite(old(View()), dev, lba, blocks[..i]), view, View(), k, blocks[i], lost, more);
        KeysNext(dev, lba, i);
        LostWrite(lost, more, before, index.Keys, old(index).Keys + KeysAt(dev, lba, i), k);
        LostDirty(lost, more, dirty, Dirty(), old(Dirty()) + KeysAt(dev, lba, i), k);
        lost := lost - {k} + more;
      }
      assert blocks[..|blocks|] == blocks;
      WrittenAt(old(View()), View(), dev, lba, blocks, lost);
      return true, lost;
    }

    /** Slots below i hold nothing dirty for this device that it accepts. */
    ghost predicate Flushed(dev: Device, i: nat, except: set<Key>)
      reads this`entries, this`disk, entries
    {
      forall s | 0 <= s < i && s < entries.Length && ToFlush(entries[s], dev) ::
          !Accepts(disk.Keys, except, entries[s].key)
    }

    /** The disk holds the logical contents of a device (of all devices for Null), apart from the exceptions. */
    ghost predicate Stored(dev: Device, except: set<Key>)
      reads this`entries, this`disk, this`index, entries
    {
      forall k | k in disk && k !in except && (dev.Null? || k.dev == dev) :: k in View() && disk[k] == View()[k]
    }

    lemma FlushedIsStored(dev: Device, except: set<Key>)
      requires Inv(-1) && Flushed(dev, entries.Length, except)
      ensures Stored(dev, except)
    {
      hide Chains, Recent, Permutation;
    }

    /**
     * block_cache_flush_device; Null stands for all devices (block_cache_sync). The disk then holds the contents of
     * every accepted block, and success is reported exactly if every dirty block was one.
     */
    method FlushDevice(dev: Device, broken: set<Key>) returns (ok: bool)
      requires Valid()
      modifies this`disk, this`stats, entries
      ensures Valid() && View() == old(View()) && disk.Keys == old(disk.Keys)
      ensures Stored(dev, broken) && (ok ==> Stored(dev, {}))
      ensures ok <==> AllAccepted(old(entries[..]), entries.Length, dev, disk.Keys, broken)
    {
      hide Cache.Inv, Cache.View, Cache.Dirty, Cache.Stored, AllAccepted, Accepts;
      ok := true;
      ghost var es := entries[..];
      AcceptedNone(es, dev, disk.Keys, broken);
      for i := 0 to entries.Length
        invariant Valid() && View() == old(View()) && disk.Keys == old(disk.Keys)
        invariant Flushed(dev, i, broken) && (ok ==> Flushed(dev, i, {}))
        invariant ok <==> AllAccepted(es, i, dev, disk.Keys, broken)
        invariant forall s | i <= s < entries.Length :: entries[s] == es[s]
      {
        AcceptedStep(es, i, dev, disk.Keys, broken);
        if ToFlush(entries[i], dev) {
          ghost var before := entries[..];
          var done := FlushEntry(i, broken);
          assert forall s | 0 <= s < entries.Length && s != i :: entries[s] == entries[..][s] == before[s];
          if !done {
            ok := false;
          }
        }
      }
      FlushedIsStored(dev, broken);
      if ok {
        FlushedIsStored(dev, {});
      }
    }

    /**
     * block_cache_invalidate_device: the device's blocks leave the cache; the disk holds those it accepts, the others
     * are lost.
     */
    method InvalidateDevice(dev: Device, broken: set<Key>) returns (ghost lost: set<Key>)
      requires Valid()
      modifies this`disk, this`stats, this`index, entries, buckets
      ensures Valid() && Agree(old(View()), View(), lost) && disk.Keys == old(disk.Keys)
      ensures AtRisk(lost, disk.Keys, broken) && lost <= old(index).Keys - index.Keys && index.Keys <= old(index).Keys
      ensures dev.Device? ==> Stored(dev, {}) && forall k | k in index :: k.dev != dev
      ensures lost <= old(Dirty()) && forall k | k in lost :: k.dev == dev
    {
      hide Cache.Inv, Cache.View, Cache.Dirty, Cache.Stored, Agree;
      lost := {};
      AgreeNone(View(), View());
      if dev.Null? {
        return;
      }
      for i := 0 to entries.Length
        invariant Valid() && Agree(old(View()), View(), lost) && disk.Keys == old(disk.Keys)
        invariant AtRisk(lost, disk.Keys, broken) && lost <= old(index).Keys - index.Keys
        invariant index.Keys <= old(index).Keys
        invariant lost + Dirty() <= old(Dirty()) && forall k | k in lost :: k.dev == dev
        invariant forall s | 0 <= s < i && entries[s].valid :: entries[s].key.dev != dev
      {
        var e := entries[i];
        if e.valid && e.key.dev == dev {
          ghost var view := View();
          SlotFacts(i);
          var ok := FlushEntry(i, broken);
          assert forall s | 0 <= s < entries.Length :: entries[s] == entries[..][s];
          ghost var more := if entries[i].dirty then {e.key} else {};
          DirtySlot(i);
          Drop(i, e.(valid := false, dirty := false, key := Key(Null, e.key.lba)));
          assert forall s | 0 <= s < entries.Length :: entries[s] == entries[..][s];
          AgreeTrans(old(View()), view, View(), lost, more);
          lost := lost + more;
        }
      }
      FlushedIsStored(dev, {});
      NoneLeft(dev);
    }

    lemma DirtySlot(s: nat)
      requires s < entries.Length
      ensures entries[s].valid && entries[s].dirty ==> entries[s].key in Dirty()
    {
      assert entries[..][s] == entries[s];
    }

    lemma NoneLeft(dev: Device)
      requires Inv(-1) && forall s | 0 <= s < entries.Length && entries[s].valid :: entries[s].key.dev != dev
      ensures forall k | k in index :: k.dev != dev
    {
      hide Chains, Recent, Permutation, Coherent;
    }

    /** Nothing is cached that the device does not have. */
    ghost predicate Contained()
      reads this`disk, this`index
    {
      index.Keys <= disk.Keys
    }

    /** One request. */
    method Serve(op: Op, faults: Faults) returns (reply: Reply, ghost lost: set<Key>)
      requires Valid()
      modifies this`disk, this`stats, this`index, this`lru, this`lastUse, this`now, entries, buckets
      ensures Valid() && disk.Keys == old(disk.Keys) && Served(old(View()), View(), op, reply, disk.Keys, faults, lost)
      ensures View().Keys == disk.Keys + index.Keys
      ensures old(Contained()) && Admissible(disk.Keys, op) ==> Contained() && lost <= disk.Keys
    {
      hide Cache.Inv, Cache.View, Cache.Dirty, Cache.Stored, PlainWrite, PlainRead, Agree, AllFaults, FreshOr;
      ViewKeys();
      match op
      case Read(dev, lba, count) =>
        var r;
        r, lost := Read(dev, lba, count, faults);
        reply := Contents(r);
        ViewKeys();
      case Write(dev, lba, blocks) =>
        var ok;
        ok, lost := Write(dev, lba, blocks, faults);
        reply := Done(ok);
        ViewKeys();
      case Flush(dev) =>
        DirtyKeys(dev);
        var ok := FlushDevice(dev, AllFaults(faults));
        reply, lost := Done(ok), {};
        AgreeNone(View(), View());
        ViewKeys();
      case Invalidate(dev) =>
        lost := InvalidateDevice(dev, AllFaults(faults));
        reply := Done(true);
        ViewKeys();
    }

    lemma ViewKeys()
      requires Valid()
      ensures View().Keys == disk.Keys + index.Keys && Dirty() <= index.Keys
    {
      ViewAt(-1, Key(Null, 0));
    }

    lemma DirtyKeys(dev: Device)
      requires Valid()
      ensures Contained() ==> AllAccepted(entries[..], entries.Length, dev, disk.Keys, {})
    {
      hide Chains, Recent, Permutation, Coherent;
    }

    /**
     * Any run of requests. Blocks the device accepts throughout are answered as the plain disk answers them and hold
     * the same contents in the end; without faults and writes beyond the device, everything is.
     */
    method Run(requests: seq<Request>) returns (replies: seq<Reply>)
      requires Valid()
      modifies this`disk, this`stats, this`index, this`lru, this`lastUse, this`now, entries, buckets
      ensures Valid() && disk.Keys == old(disk.Keys)
      ensures RunSound(old(View()), requests, View(), replies, disk.Keys, Broken(requests))
      ensures old(Contained()) && AllQuiet(disk.Keys, requests) ==>
                Contained() && (View(), replies) == PlainRun(old(View()), requests)
    {
      hide Cache.Inv, Cache.View, Cache.Dirty, Cache.Stored, Served, RunSound, PlainRun, Broken;
      replies := [];
      ghost var start, quiet := View(), Contained() && AllQuiet(disk.Keys, requests);
      ViewKeys();
      RunStart(start, disk.Keys, Broken(requests));
      for i := 0 to |requests|
        invariant Valid() && disk.Keys == old(disk.Keys) && View().Keys == disk.Keys + index.Keys
        invariant RunSound(start, requests[..i], View(), replies, disk.Keys, Broken(requests))
        invariant quiet ==> Contained() && (View(), replies) == PlainRun(start, requests[..i])
      {
        ghost var view := View();
        var reply;
        ghost var lost;
        reply, lost := Serve(requests[i].op, requests[i].faults);
        assert requests[..i + 1] == requests[..i] + [requests[i]];
        BrokenMember(requests, i);
        RunStep(start, requests[..i], requests[i], view, View(), replies, reply, disk.Keys, Broken(requests), lost);
        if quiet {
          RunExactly(start, requests[..i], requests[i], view, View(), replies, reply, disk.Keys, lost);
        }
        replies := replies + [reply];
      }
      assert requests[..|requests|] == requests;
    }
  }

  datatype Op =
    | Read(dev: Device, lba: nat, count: nat)
    | Write(dev: Device, lba: nat, blocks: seq<Block>)
    | Flush(dev: Device)
    | Invalidate(dev: Device)

  datatype Reply = Contents(blocks: Option<seq<Block>>) | Done(ok: bool)

  /** A request and the blocks the device refuses while it is served. */
  datatype Request = Request(op: Op, faults: Faults)

  /** Writes stay on the device. */
  ghost predicate Admissible(keys: set<Key>, op: Op)
  {
    op.Write? && op.dev.Device? ==> forall i: nat | i < |op.blocks| :: KeyAt(op.dev, op.lba, i) in keys
  }

  ghost predicate Quiet(keys: set<Key>, q: Request)
  {
    AllFaults(q.faults) == {} && Admissible(keys, q.op)
  }

  ghost predicate AllQuiet(keys: set<Key>, requests: seq<Request>)
  {
    forall q | q in requests :: Quiet(keys, q)
  }

  /** The blocks refused at some time. */
  ghost function Broken(requests: seq<Request>): set<Key>
  {
    if requests == [] then {} else Broken(requests[..|requests| - 1]) + AllFaults(requests[|requests| - 1].faults)
  }

  lemma {:induction false} BrokenMember(requests: seq<Request>, i: nat)
    requires i < |requests|
    ensures AllFaults(requests[i].faults) <= Broken(requests)
  {
    if i < |requests| - 1 {
      BrokenMember(requests[..|requests| - 1], i);
    }
  }

  /** How one request is served: as by the plain disk, but that unaccepted blocks may be lost and make a read fail. */
  ghost predicate Served(view: Disk, view': Disk, op: Op, reply: Reply, keys: set<Key>, faults: Faults, lost: set<Key>)
  {
    && Agree(PlainStep(view, op).0, view', lost) && AtRisk(lost, keys, AllFaults(faults))
    && match op
       case Read(dev, lba, count) =>
           reply.Contents? && ReadAnswer(view, dev, lba, count, reply.blocks, keys, faults, lost)
       case Flush(_) => reply.Done? && (view.Keys <= keys && AllFaults(faults) == {} ==> reply == PlainStep(view, op).1)
       case _ => reply == PlainStep(view, op).1
  }

  ghost predicate ReadAnswer(view: Disk, dev: Device, lba: nat, count: nat, r: Option<seq<Block>>, keys: set<Key>,
                             faults: Faults,
                             lost: set<Key>)
  {
    if r.Some? then
      && dev.Device? && count > 0 && |r.value| == count
      && forall i: nat | i < count :: FreshOr(view, r.value[i], KeyAt(dev, lba, i), lost, keys, faults, count)
    else
      dev.Null? || count == 0 || exists i: nat :: i < count && !Accepts(keys, Turn(faults, i), KeyAt(dev, lba, i))
  }

  /** The blocks the device accepts throughout have the same contents. */
  ghost predicate SameOnSound(plain: Disk, view: Disk, keys: set<Key>, broken: set<Key>)
  {
    forall k | Accepts(keys, broken, k) :: k in plain && k in view && view[k] == plain[k]
  }

  /** A read returns the plain disk's contents of sound blocks, and succeeds if all of its blocks are sound. */
  ghost predicate AnsweredSound(plain: Disk, op: Op, reply: Reply, keys: set<Key>, broken: set<Key>)
  {
    match op
    case Read(dev, lba, count) =>
      && reply.Contents?
      && (reply.blocks.Some? ==>
            && dev.Device? && count > 0 && |reply.blocks.value| == count
            && forall i: nat | i < count && Accepts(keys, broken, KeyAt(dev, lba, i)) ::
                 KeyAt(dev, lba, i) in plain && reply.blocks.value[i] == plain[KeyAt(dev, lba, i)])
      && (dev.Device? && count > 0 && (forall i: nat | i < count :: Accepts(keys, broken, KeyAt(dev, lba, i))) ==>
            reply == PlainStep(plain, op).1)
    case Flush(_) => reply.Done?
    case _ => reply == PlainStep(plain, op).1
  }

  lemma ServedSound(plain: Disk, view: Disk, view': Disk, q: Request, reply: Reply, keys: set<Key>, broken: set<Key>,
                    lost: set<Key>)
    requires SameOnSound(plain, view, keys, broken) && AllFaults(q.faults) <= broken
    requires Served(view, view', q.op, reply, keys, q.faults, lost)
    ensures SameOnSound(PlainStep(plain, q.op).0, view', keys, broken)
    ensures AnsweredSound(plain, q.op, reply, keys, broken)
  {
    hide AllFaults;
    if q.op.Read? {
      SameRead(plain, view, q.op.dev, q.op.lba, q.op.count, reply.blocks, keys, q.faults, broken, lost);
    } else if q.op.Write? {
      SameWrite(plain, view, q.op.dev, q.op.lba, q.op.blocks, keys, broken);
    }
  }

  lemma SameRead(plain: Disk, view: Disk, dev: Device, lba: nat, count: nat, r: Option<seq<Block>>, keys: set<Key>,
                 faults: Faults,
                 broken: set<Key>, lost: set<Key>)
    requires SameOnSound(plain, view, keys, broken) && AllFaults(faults) <= broken
    requires AtRisk(lost, keys, AllFaults(faults))
    requires ReadAnswer(view, dev, lba, count, r, keys, faults, lost)
    ensures AnsweredSound(plain, Op.Read(dev, lba, count), Contents(r), keys, broken)
  {
    hide AllFaults, SometimesAccepts;
    if dev.Device? && count > 0 && forall i: nat | i < count :: Accepts(keys, broken, KeyAt(dev, lba, i)) {
      forall i: nat | i < count
        ensures Accepts(keys, Turn(faults, i), KeyAt(dev, lba, i))
      {
        assert Accepts(keys, broken, KeyAt(dev, lba, i));
      }
      assert InRange(plain, dev, lba, count);
      assert r.value == PlainRead(plain, dev, lba, count).value;
    }
  }

  lemma {:induction false} SameWrite(plain: Disk, view: Disk, dev: Device, lba: nat, blocks: seq<Block>, keys: set<Key>,
                                     broken: set<Key>)
    requires SameOnSound(plain, view, keys, broken)
    ensures SameOnSound(PlainWrite(plain, dev, lba, blocks), PlainWrite(view, dev, lba, blocks), keys, broken)
  {
    if dev.Device? && blocks != [] {
      SameWrite(plain, view, dev, lba, blocks[..|blocks| - 1], keys, broken);
    }
  }

  lemma ServedExactly(view: Disk, view': Disk, q: Request, reply: Reply, keys: set<Key>, lost: set<Key>)
    requires keys == view.Keys && Quiet(keys, q) && lost <= keys
    requires Served(view, view', q.op, reply, keys, q.faults, lost)
    ensures (view', reply) == PlainStep(view, q.op)
  {
    hide AllFaults, PlainWrite, SometimesAccepts;
    assert lost == {} by {
      assert forall k | k in lost :: k in keys;
    }
    AgreeNone(PlainStep(view, q.op).0, view');
    match q.op
    case Read(dev, lba, count) =>
      if reply.blocks.Some? {
        assert InRange(view, dev, lba, count);
        assert reply.blocks.value == PlainRead(view, dev, lba, count).value;
      } else if dev.Device? && count > 0 {
        var i: nat :| i < count && !Accepts(keys, Turn(q.faults, i), KeyAt(dev, lba, i));
        assert KeyAt(dev, lba, i) !in view;
      }
    case _ =>
  }

  /** A disk without a cache. */
  ghost function PlainStep(disk: Disk, op: Op): (Disk, Reply)
  {
    match op
    case Read(dev, lba, count) => (disk, Contents(PlainRead(disk, dev, lba, count)))
    case Write(dev, lba, blocks) => (PlainWrite(disk, dev, lba, blocks), Done(dev.Device? && blocks != []))
    case Flush(_) => (disk, Done(true))
    case Invalidate(_) => (disk, Done(true))
  }

  ghost function PlainRun(disk: Disk, requests: seq<Request>): (Disk, seq<Reply>)
  {
    if requests == [] then (disk, [])
    else
      var (d, replies) := PlainRun(disk, requests[..|requests| - 1]);
      var (d', reply) := PlainStep(d, requests[|requests| - 1].op);
      (d', replies + [reply])
  }

  /** The block last written to place k by one of the requests, if there is one. */
  ghost function LastWritten(requests: seq<Request>, k: Key): Option<Block>
  {
    if requests == [] then None
    else
      var op := requests[|requests| - 1].op;
      if op.Write? && op.dev.Device? && k.dev == op.dev && op.lba <= k.lba < op.lba + |op.blocks|
      then Some(op.blocks[k.lba - op.lba])
      else LastWritten(requests[..|requests| - 1], k)
  }

  /** A plain disk holds at every number what was last written there. */
  lemma {:induction false} PlainRunHolds(disk: Disk, requests: seq<Request>, k: Key)
    requires forall q | q in requests :: q.op.Write? ==> InNumbers(q.op.lba, |q.op.blocks|)
    ensures BlockIn(PlainRun(disk, requests).0, k) ==
            if LastWritten(requests, k).Some? then LastWritten(requests, k) else BlockIn(disk, k)
    decreases |requests|
  {
    hide PlainWrite, PlainRead;
    if requests != [] {
      var init, q := requests[..|requests| - 1], requests[|requests| - 1];
      PlainRunHolds(disk, init, k);
      if q.op.Write? {
        assert q in requests;
        PlainWriteAt(PlainRun(disk, init).0, q.op.dev, q.op.lba, q.op.blocks, k);
      }
    }
  }

  /**
   * On the blocks the device accepts throughout, a run is answered as the plain disk answers it and leaves the same
   * contents.
   */
  ghost predicate RunSound(start: Disk, requests: seq<Request>, view: Disk, replies: seq<Reply>, keys: set<Key>,
                           broken: set<Key>)
  {
    && |replies| == |requests| && SameOnSound(PlainRun(start, requests).0, view, keys, broken)
    && forall i | 0 <= i < |requests| ::
        AnsweredSound(PlainRun(start, requests[..i]).0, requests[i].op, replies[i], keys, broken)
  }

  lemma RunStart(start: Disk, keys: set<Key>, broken: set<Key>)
    requires keys <= start.Keys
    ensures RunSound(start, [], start, [], keys, broken) && PlainRun(start, []) == (start, [])
  {
  }

  lemma RunStep(start: Disk, requests: seq<Request>, q: Request, view: Disk, view': Disk, replies: seq<Reply>,
                reply: Reply,
                keys: set<Key>, broken: set<Key>, lost: set<Key>)
    requires RunSound(start, requests, view, replies, keys, broken) && AllFaults(q.faults) <= broken
    requires Served(view, view', q.op, reply, keys, q.faults, lost)
    ensures RunSound(start, requests + [q], view', replies + [reply], keys, broken)
  {
    hide Served, SameOnSound, AnsweredSound, PlainStep;
    assert (requests + [q])[..|requests|] == requests;
    ServedSound(PlainRun(start, requests).0, view, view', q, reply, keys, broken, lost);
    forall i | 0 <= i < |requests|
      ensures (requests + [q])[..i] == requests[..i]
    {
    }
  }

  lemma RunExactly(start: Disk, requests: seq<Request>, q: Request, view: Disk, view': Disk, replies: seq<Reply>,
                   reply: Reply,
                   keys: set<Key>, lost: set<Key>)
    requires (view, replies) == PlainRun(start, requests) && keys == view.Keys && Quiet(keys, q) && lost <= keys
    requires Served(view, view', q.op, reply, keys, q.faults, lost)
    ensures (view', replies + [reply]) == PlainRun(start, requests + [q])
  {
    hide Served, PlainStep;
    assert (requests + [q])[..|requests|] == requests;
    ServedExactly(view, view', q, reply, keys, lost);
  }

  // ------------------------------------------------------------ a write that is lost

  /** A device of n zero blocks. */
  function ZeroDisk(n: nat): (disk: Disk)
    ensures forall k :: k in disk <==> k.dev == Device(0) && k.lba < n
  {
    if n == 0 then map[] else ZeroDisk(n - 1)[Key(Device(0), n - 1) := seq(512, _ => 0)]
  }

  /** Cached, and used before everything else that is. */
  ghost predicate Oldest(index: map<Key, nat>, lastUse: map<Key, nat>, k: Key)
  {
    k in index && k in lastUse && forall u | u in index && u != k :: u in lastUse && lastUse[k] < lastUse[u]
  }

  /** Reading a block that is not cached leaves the oldest one the oldest, or in a full cache drops it. */
  lemma OldestStep(index: map<Key, nat>, lastUse: map<Key, nat>, n: nat, k: Key, x: Key, index': map<Key, nat>,
                   lastUse': map<Key, nat>)
    requires Oldest(index, lastUse, k) && x !in index && |index| <= n
    requires Cached(index, lastUse, n, x, index') && LastUsed(lastUse, lastUse', x)
    ensures |index| < n ==> Oldest(index', lastUse', k) && |index'| == |index| + 1 && index'.Keys == index.Keys + {x}
    ensures |index| == n ==> k !in index'
  {
    var room :| MadeRoom(index, lastUse, n, room) && index'.Keys == room.Keys + {x};
    if |index| < n {
      assert |index'.Keys| == |index'| && |index.Keys| == |index|;
    } else {
      var v :| LeastUsed(index, lastUse, v) && room == index - {v};
      assert v == k;
    }
  }

  /** Reads of as many other blocks as the cache has room for push a block out. */
  method ReadOthers(c: Cache, k: Key)
    requires c.Valid() && c.index.Keys == {k} && k.lba >= c.entries.Length && k in c.lastUse
    requires forall i: nat | i < c.entries.Length :: Key(Device(0), i) in c.disk
    modifies c`disk, c`stats, c`index, c`lru, c`lastUse, c`now, c.entries, c.buckets
    ensures c.Valid() && c.disk.Keys == old(c.disk.Keys) && k !in c.index
  {
    hide Cache.Inv, Cache.View, Cached, LastUsed, Oldest, Agree;
    assert Oldest(c.index, c.lastUse, k) && |c.index| == 1 by {
      OldestAlone(c.index, c.lastUse, k);
    }
    SomeSlots(c);
    for i := 0 to c.entries.Length
      invariant c.Valid() && c.disk.Keys == old(c.disk.Keys)
      invariant i < c.entries.Length ==> Oldest(c.index, c.lastUse, k) && |c.index| == i + 1
      invariant i < c.entries.Length ==> forall u | u in c.index :: u == k || u.lba < i
      invariant i == c.entries.Length ==> k !in c.index
    {
      ghost var index, lastUse := c.index, c.lastUse;
      var r;
      ghost var lost;
      assert Key(Device(0), i) in c.disk.Keys;
      r, lost := c.ReadBlock(Key(Device(0), i), {});
      OldestStep(index, lastUse, c.entries.Length, k, Key(Device(0), i), c.index, c.lastUse);
    }
  }

  lemma OldestAlone(index: map<Key, nat>, lastUse: map<Key, nat>, k: Key)
    requires index.Keys == {k} && k in lastUse
    ensures Oldest(index, lastUse, k) && |index| == 1
  {
    assert |index| == |index.Keys|;
  }

  lemma SomeSlots(c: Cache)
    requires c.Valid()
    ensures c.entries.Length > 0
  {
  }

  lemma WroteOne(view: Disk, view': Disk, dev: Device, lba: nat, d: Block, cached: set<Key>, lost: set<Key>)
    requires dev.Device? && Agree(PlainWrite(view, dev, lba, [d]), view', lost) && KeyAt(dev, lba, 0) in cached
    requires lost !! cached && lost + cached <= KeysAt(dev, lba, 1)
    ensures var k := KeyAt(dev, lba, 0); cached == {k} && k in view' && view'[k] == d
  {
    assert KeysAt(dev, lba, 1) == {KeyAt(dev, lba, 0)};
    assert [d][..0] == [];
  }

  lemma StillCached(index: map<Key, nat>, lastUse: map<Key, nat>, n: nat, k: Key, index': map<Key, nat>,
                    lastUse': map<Key, nat>)
    requires k in index && Cached(index, lastUse, n, k, index') && LastUsed(lastUse, lastUse', k)
    ensures index' == index && k in lastUse'
  {
  }

  /** A block written into an empty cache reads back, whether or not the device has it. */
  method ReadsBack(c: Cache, dev: Device, lba: nat, d: Block) returns (written: bool, read: Option<Block>)
    requires c.Valid() && c.index == map[] && dev.Device?
    modifies c`disk, c`stats, c`index, c`lru, c`lastUse, c`now, c.entries, c.buckets
    ensures c.Valid() && c.disk.Keys == old(c.disk.Keys) && written && read == Some(d)
    ensures c.index.Keys == {KeyAt(dev, lba, 0)} && KeyAt(dev, lba, 0) in c.lastUse
  {
    hide Cache.Inv, Cache.View, Cache.Dirty, Cache.Valid, Cached, LastUsed, AtRisk, Agree, PlainWrite, KeysAt;
    ghost var lost;
    written, lost := c.Write(dev, lba, [d], []);
    WroteOne(old(c.View()), c.View(), dev, lba, d, c.index.Keys, lost);
    ghost var index, lastUse := c.index, c.lastUse;
    read, lost := c.ReadBlock(KeyAt(dev, lba, 0), {});
    StillCached(index, lastUse, c.entries.Length, KeyAt(dev, lba, 0), c.index, c.lastUse);
  }

  /**
   * In a cache of any size and with any hash a block written beyond the end of the device is reported as written and
   * reads back, until as many other blocks have been read as the cache holds; then it is gone and reading it fails.
   */
  method LostWriteExample(capacity: nat, bucketCount: nat, hash: Key -> nat, d: Block)
    returns (written: bool, before: Option<Block>, after: Option<Block>)
    requires 0 < capacity < W64 && bucketCount > 0 && forall k :: hash(k) < bucketCount
    ensures written && before == Some(d) && after == None
  {
    hide Cache.Inv, Cache.View, Cache.Dirty, Cache.Valid, Cached, LastUsed, AtRisk, Agree;
    var c := new Cache(capacity, bucketCount, hash, ZeroDisk(capacity));
    written, before := ReadsBack(c, Device(0), capacity, d);
    ReadOthers(c, KeyAt(Device(0), capacity, 0));
    ghost var lost;
    after, lost := c.ReadBlock(KeyAt(Device(0), capacity, 0), {});
  }
}
