/** Cluster chains in the file allocation table. */
module Fat32Chains {

  const CLUSTER_FREE: nat := 0
  const CLUSTER_RESERVED: nat := 0x0fff_fff0
  const CLUSTER_END_MIN: nat := 0x0fff_fff8
  const CLUSTER_END: nat := 0x0fff_ffff

  /** An entry is 28 bits wide; the four bits above are kept. */
  function Value(entry: nat): nat
  {
    entry % 0x1000_0000
  }

  function Store(entry: nat, value: nat): nat
  {
    entry - entry % 0x1000_0000 + value % 0x1000_0000
  }

  lemma StoreValue(entry: nat, value: nat)
    requires value < 0x1000_0000
    ensures Value(Store(entry, value)) == value && Store(entry, value) / 0x1000_0000 == entry / 0x1000_0000
  {
  }

  /** What holds a chain: the directory, a directory slot, a file being written, or nothing any more. */
  datatype Owner = Directory | Slot(slot: nat) | Fresh | Lost(number: nat)

  type Layout = map<Owner, seq<nat>>

  /** Where each used cluster belongs: its owner and its position in the owner's chain. */
  type Places = map<nat, (Owner, nat)>

  ghost predicate InChain(own: Layout, o: Owner, i: nat)
  {
    o in own && i < |own[o]|
  }

  /** Chains and places describe each other, so chains are duplicate-free and disjoint. */
  ghost predicate Matched(own: Layout, place: Places)
  {
    && (forall o, i: nat | InChain(own, o, i) :: own[o][i] in place && place[own[o][i]] == (o, i))
    && (forall c | c in place :: InChain(own, place[c].0, place[c].1) && own[place[c].0][place[c].1] == c)
  }

  /** The entry of the i-th cluster of a chain. */
  ghost predicate LinkOk(fat: seq<nat>, chain: seq<nat>, i: nat)
    requires i < |chain|
  {
    && 2 <= chain[i] < |fat|
    && if i + 1 < |chain| then Value(fat[chain[i]]) == chain[i + 1] else 0x0fff_fff8 <= Value(fat[chain[i]])
  }

  ghost predicate Links(fat: seq<nat>, own: Layout)
  {
    forall o, i: nat | InChain(own, o, i) :: LinkOk(fat, own[o], i)
  }

  /** Used clusters are exactly those in chains; bad ones stay aside. */
  ghost predicate LeakFree(fat: seq<nat>, place: Places)
  {
    forall c: nat | 2 <= c < |fat| :: c in place <==> Value(fat[c]) != 0 && Value(fat[c]) != 0x0fff_fff7
  }

  /** The table is laid out as these chains. */
  ghost predicate Laid(fat: seq<nat>, own: Layout, place: Places)
  {
    |fat| <= CLUSTER_RESERVED && Matched(own, place) && Links(fat, own) && LeakFree(fat, place)
  }

  ghost function FreeSet(fat: seq<nat>): set<nat>
  {
    set c: nat | 2 <= c < |fat| && Value(fat[c]) == 0
  }

  /** Each chain is acyclic and no cluster is in two chains. */
  lemma ChainsDisjoint(fat: seq<nat>, own: Layout, place: Places, o: Owner, i: nat, o': Owner, i': nat)
    requires Laid(fat, own, place) && InChain(own, o, i) && InChain(own, o', i') && own[o][i] == own[o'][i']
    ensures o == o' && i == i'
  {
  }

  // ------------------------------------------------------------ taking a cluster

  /** The table after cluster c is appended to the chain that ends in `prev` (nothing when prev < 2). */
  function Linked(fat: seq<nat>, prev: nat, c: nat): seq<nat>
    requires c < |fat| && prev < |fat|
  {
    var ended := fat[c := Store(fat[c], CLUSTER_END)];
    if prev >= 2 then ended[prev := Store(ended[prev], c)] else ended
  }

  ghost function Clusters(chain: seq<nat>): set<nat>
  {
    set c | c in chain
  }

  ghost function LastOf(chain: seq<nat>): nat
  {
    if chain == [] then 0 else chain[|chain| - 1]
  }

  ghost function FirstOf(chain: seq<nat>): nat
  {
    if chain == [] then 0 else chain[0]
  }

  lemma AppendMatched(own: Layout, place: Places, o: Owner, c: nat)
    requires Matched(own, place) && o in own && c !in place
    ensures Matched(own[o := own[o] + [c]], place[c := (o, |own[o]|)])
  {
  }

  lemma LinkedValues(fat: seq<nat>, prev: nat, c: nat)
    requires c < |fat| <= CLUSTER_RESERVED && prev < |fat| && prev != c
    ensures var fat' := Linked(fat, prev, c);
            && |fat'| == |fat| && Value(fat'[c]) == CLUSTER_END && (prev >= 2 ==> Value(fat'[prev]) == c)
            && (forall x | 0 <= x < |fat| && x != c && (x != prev || prev < 2) :: fat'[x] == fat[x])
  {
    hide Value, Store;
    StoreValue(fat[c], CLUSTER_END);
    StoreValue(fat[prev], c);
  }

  lemma AppendStep(fat: seq<nat>, own: Layout, place: Places, o: Owner, c: nat)
    requires Laid(fat, own, place) && o in own && 2 <= c < |fat| && Value(fat[c]) == CLUSTER_FREE
    ensures LastOf(own[o]) < |fat|
    ensures var fat' := Linked(fat, LastOf(own[o]), c);
            && Laid(fat', own[o := own[o] + [c]], place[c := (o, |own[o]|)])
            && FreeSet(fat') == FreeSet(fat) - {c} && c in FreeSet(fat)
  {
    hide Matched, Value, Links, Linked;
    LastInside(fat, own, place, o);
    var prev := LastOf(own[o]);
    assert c !in place;
    AppendMatched(own, place, o, c);
    LinkedValues(fat, prev, c);
    var fat' := Linked(fat, prev, c);
    AppendLinks(fat, fat', own, place, o, c);
    assert LeakFree(fat', place[c := (o, |own[o]|)]);
  }

  lemma LastInside(fat: seq<nat>, own: Layout, place: Places, o: Owner)
    requires Laid(fat, own, place) && o in own
    ensures own[o] != [] ==> 2 <= LastOf(own[o]) < |fat| && LastOf(own[o]) in place
  {
    assert own[o] != [] ==> InChain(own, o, |own[o]| - 1) && LinkOk(fat, own[o], |own[o]| - 1);
  }

  lemma AppendLinks(fat: seq<nat>, fat': seq<nat>, own: Layout, place: Places, o: Owner, c: nat)
    requires Links(fat, own) && Matched(own, place) && o in own && c !in place && 2 <= c < |fat| == |fat'|
    requires Value(fat'[c]) == CLUSTER_END
    requires own[o] != [] ==> LastOf(own[o]) < |fat| && Value(fat'[LastOf(own[o])]) == c
    requires forall x | 0 <= x < |fat| && x != c && (x != LastOf(own[o]) || own[o] == []) :: fat'[x] == fat[x]
    ensures Links(fat', own[o := own[o] + [c]])
  {
    var own' := own[o := own[o] + [c]];
    forall q, i: nat | InChain(own', q, i)
      ensures LinkOk(fat', own'[q], i)
    {
      if !(q == o && i == |own[o]|) {
        AppendLinkAt(fat, fat', own, place, o, c, q, i);
      }
    }
  }

  lemma AppendLinkAt(fat: seq<nat>, fat': seq<nat>, own: Layout, place: Places, o: Owner, c: nat, q: Owner, i: nat)
    requires Links(fat, own) && Matched(own, place) && o in own && c !in place && 2 <= c < |fat| == |fat'|
    requires own[o] != [] ==> LastOf(own[o]) < |fat| && Value(fat'[LastOf(own[o])]) == c
    requires forall x | 0 <= x < |fat| && x != c && (x != LastOf(own[o]) || own[o] == []) :: fat'[x] == fat[x]
    requires InChain(own, q, i)
    ensures LinkOk(fat', if q == o then own[o] + [c] else own[q], i)
  {
    hide Value;
    assert LinkOk(fat, own[q], i);
    assert own[q][i] in place && place[own[q][i]] == (q, i);
    if own[o] != [] {
      assert InChain(own, o, |own[o]| - 1);
      assert place[LastOf(own[o])] == (o, |own[o]| - 1);
    }
  }

  // ------------------------------------------------------------ freeing a chain

  /** The table after the first k clusters of a chain are freed. */
  ghost predicate Freed(fat: seq<nat>, fat': seq<nat>, chain: seq<nat>, k: nat)
    requires k <= |chain|
  {
    && |fat'| == |fat|
    && (forall c | 0 <= c < |fat| :: if c in chain[..k] then Value(fat'[c]) == CLUSTER_FREE else fat'[c] == fat[c])
  }

  ghost function Without(place: Places, chain: seq<nat>): Places
  {
    map c | c in place && c !in chain :: place[c]
  }

  lemma FreeStep(fat: seq<nat>, fat': seq<nat>, own: Layout, place: Places, o: Owner)
    requires Laid(fat, own, place) && o in own && Freed(fat, fat', own[o], |own[o]|)
    ensures Laid(fat', own - {o}, Without(place, own[o]))
    ensures Laid(fat', own[o := []], Without(place, own[o]))
    ensures FreeSet(fat') == FreeSet(fat) + Clusters(own[o])
  {
    hide Value;
    var chain := own[o];
    assert chain[..|chain|] == chain;
    FreeMatched(own, place, o);
    FreeLinks(fat, fat', own, place, o);
    ChainEntries(fat, own, place, o);
    assert FreeSet(fat') == FreeSet(fat) + Clusters(chain);
  }

  /** The clusters of a chain are in range and not free. */
  lemma ChainEntries(fat: seq<nat>, own: Layout, place: Places, o: Owner)
    requires Laid(fat, own, place) && o in own
    ensures forall c | c in own[o] :: 2 <= c < |fat| && c in place && place[c].0 == o && Value(fat[c]) != CLUSTER_FREE
  {
    hide Value;
    forall c | c in own[o]
      ensures 2 <= c < |fat| && c in place && place[c].0 == o && Value(fat[c]) != CLUSTER_FREE
    {
      var i: nat :| i < |own[o]| && own[o][i] == c;
      assert InChain(own, o, i) && LinkOk(fat, own[o], i);
    }
  }

  lemma FreeMatched(own: Layout, place: Places, o: Owner)
    requires Matched(own, place) && o in own
    ensures Matched(own - {o}, Without(place, own[o])) && Matched(own[o := []], Without(place, own[o]))
  {
    var place' := Without(place, own[o]);
    forall q, i: nat | InChain(own, q, i) && q != o
      ensures own[q][i] in place' && place'[own[q][i]] == (q, i)
    {
      var c := own[q][i];
      if c in own[o] {
        var j: nat :| j < |own[o]| && own[o][j] == c;
        assert InChain(own, o, j);
      }
    }
    forall c | c in place'
      ensures place'[c].0 != o && InChain(own, place'[c].0, place'[c].1) && own[place'[c].0][place'[c].1] == c
    {
    }
  }

  lemma FreeLinks(fat: seq<nat>, fat': seq<nat>, own: Layout, place: Places, o: Owner)
    requires Links(fat, own) && Matched(own, place) && o in own && Freed(fat, fat', own[o], |own[o]|)
    ensures Links(fat', own - {o}) && Links(fat', own[o := []])
  {
    hide Value;
    assert own[o][..|own[o]|] == own[o];
    forall q, i: nat | InChain(own, q, i) && q != o
      ensures LinkOk(fat', own[q], i)
    {
      assert LinkOk(fat, own[q], i);
      var c := own[q][i];
      assert place[c] == (q, i);
      NotShared(own, place, o, c);
    }
  }

  lemma NotShared(own: Layout, place: Places, o: Owner, c: nat)
    requires Matched(own, place) && o in own && c in place && place[c].0 != o
    ensures c !in own[o]
  {
    if c in own[o] {
      var j: nat :| j < |own[o]| && own[o][j] == c;
      assert InChain(own, o, j);
    }
  }

  // ------------------------------------------------------------ handing a chain over

  ghost function Renamed(own: Layout, o: Owner, o': Owner): Layout
    requires o in own
  {
    (own - {o})[o' := own[o]]
  }

  ghost function RenamedPlaces(place: Places, o: Owner, o': Owner): Places
  {
    map c | c in place :: if place[c].0 == o then (o', place[c].1) else place[c]
  }

  lemma RenameStep(fat: seq<nat>, own: Layout, place: Places, o: Owner, o': Owner)
    requires Laid(fat, own, place) && o in own && o' !in own
    ensures Laid(fat, Renamed(own, o, o'), RenamedPlaces(place, o, o'))
  {
    hide Value, Matched, Links, Renamed;
    RenameMatched(own, place, o, o');
    RenameLinks(fat, own, o, o');
  }

  lemma RenameMatched(own: Layout, place: Places, o: Owner, o': Owner)
    requires Matched(own, place) && o in own && o' !in own
    ensures Matched(Renamed(own, o, o'), RenamedPlaces(place, o, o'))
  {
    var own', place' := Renamed(own, o, o'), RenamedPlaces(place, o, o');
    forall q, i: nat | InChain(own', q, i)
      ensures own'[q][i] in place' && place'[own'[q][i]] == (q, i)
    {
      assert InChain(own, if q == o' then o else q, i);
    }
  }

  lemma RenameLinks(fat: seq<nat>, own: Layout, o: Owner, o': Owner)
    requires Links(fat, own) && o in own && o' !in own
    ensures Links(fat, Renamed(own, o, o'))
  {
    hide LinkOk;
    var own' := Renamed(own, o, o');
    forall q, i: nat | InChain(own', q, i)
      ensures LinkOk(fat, own'[q], i)
    {
      assert InChain(own, if q == o' then o else q, i);
    }
  }

  // ------------------------------------------------------------ lost chains

  ghost predicate IsLost(own: Layout, o: Owner, c: nat)
  {
    o in own && o.Lost? && c in own[o]
  }

  /** The clusters in use that no entry leads to. */
  ghost function LeakedOf(own: Layout): set<nat>
  {
    set o, c | o in own && c in own[o] && IsLost(own, o, c) :: c
  }

  /** Lost chains stay as they are if only other owners change. */
  lemma LeakedKept(own: Layout, own': Layout, gone: set<Owner>, come: set<Owner>)
    requires own - gone == own' - come && forall o | o in gone + come :: !o.Lost?
    ensures LeakedOf(own) == LeakedOf(own')
  {
    forall o, c
      ensures IsLost(own, o, c) <==> IsLost(own', o, c)
    {
      assert o.Lost? ==> o !in gone && o !in come;
      assert o in own - gone <==> o in own' - come;
    }
  }

  /** The clusters of a chain whose owner is lost. */
  lemma LeakedMore(fat: seq<nat>, own: Layout, place: Places, own': Layout, o: Owner)
    requires Laid(fat, own, place) && Fresh in own && o.Lost? && o !in own && o in own' && own'[o] == own[Fresh]
    requires own' - {Directory, o} == own - {Directory, Fresh}
    ensures LeakedOf(own') == LeakedOf(own) + Clusters(own[Fresh]) && LeakedOf(own) !! Clusters(own[Fresh])
  {
    forall q, c | q != o
      ensures IsLost(own', q, c) <==> IsLost(own, q, c)
    {
      assert q in own' - {Directory, o} <==> q in own - {Directory, Fresh};
    }
    forall c | c in LeakedOf(own') + (LeakedOf(own) + Clusters(own[Fresh]))
      ensures c in LeakedOf(own') <==> c in LeakedOf(own) + Clusters(own[Fresh])
    {
      assert c in own'[o] <==> IsLost(own', o, c);
    }
    forall c | c in LeakedOf(own)
      ensures c !in Clusters(own[Fresh])
    {
      var q :| q in own && IsLost(own, q, c);
      ChainEntriesOwned(own, place, q, c);
      if c in own[Fresh] {
        ChainEntriesOwned(own, place, Fresh, c);
      }
    }
  }

  lemma ChainEntriesOwned(own: Layout, place: Places, o: Owner, c: nat)
    requires Matched(own, place) && o in own && c in own[o]
    ensures c in place && place[c].0 == o
  {
    var i: nat :| i < |own[o]| && own[o][i] == c;
    assert InChain(own, o, i);
  }

  /** There is always a number for one more lost chain. */
  lemma {:induction false} UnusedNumber(owners: set<Owner>) returns (n: nat)
    ensures forall m: nat | m >= n :: Lost(m) !in owners
    decreases |owners|
  {
    n := 0;
    if o :| o in owners && o.Lost? {
      n := UnusedNumber(owners - {o});
      if n <= o.number {
        n := o.number + 1;
      }
      forall m: nat | m >= n
        ensures Lost(m) !in owners
      {
        assert Lost(m) !in owners - {o};
      }
    }
  }

  lemma LostIsLeaked(own: Layout, o: Owner, i: nat)
    requires InChain(own, o, i) && o.Lost?
    ensures own[o][i] in LeakedOf(own)
  {
    assert IsLost(own, o, own[o][i]);
  }

  lemma LeakedOwner(own: Layout, c: nat) returns (o: Owner)
    requires c in LeakedOf(own)
    ensures o in own && o.Lost? && c in own[o]
  {
    o :| o in own && IsLost(own, o, c);
    assert IsLost(own, o, c);
  }

  lemma LeakedRenamed(own: Layout, o: Owner, o': Owner)
    requires o in own && o' !in own && !o.Lost? && !o'.Lost?
    ensures LeakedOf(Renamed(own, o, o')) == LeakedOf(own)
  {
    LeakedKept(own, Renamed(own, o, o'), {o}, {o'});
  }

  /** Lost chains that hold nothing can be left out. */
  lemma DropLost(fat: seq<nat>, own: Layout, place: Places) returns (own': Layout)
    requires Laid(fat, own, place) && LeakedOf(own) == {}
    ensures Laid(fat, own', place) && (forall o :: o in own' <==> o in own && !o.Lost?)
              && forall o | o in own' :: own'[o] == own[o]
  {
    hide Value, LinkOk;
    own' := map o | o in own && !o.Lost? :: own[o];
    forall o, i: nat | InChain(own, o, i)
      ensures InChain(own', o, i)
    {
      if o.Lost? {
        LostIsLeaked(own, o, i);
      }
    }
    forall o, i: nat | InChain(own', o, i)
      ensures LinkOk(fat, own'[o], i)
    {
      assert InChain(own, o, i);
    }
  }

  // ------------------------------------------------------------ the layout is determined by the disk

  /** Two chains with the same start follow the same entries. */
  lemma {:induction false} SameChain(fat: seq<nat>, a: seq<nat>, b: seq<nat>, i: nat)
    requires forall j: nat | j < |a| :: LinkOk(fat, a, j)
    requires forall j: nat | j < |b| :: LinkOk(fat, b, j)
    requires |fat| <= CLUSTER_RESERVED && FirstOf(a) == FirstOf(b) && i <= |a|
    ensures i <= |b| && a[..i] == b[..i]
  {
    hide Value;
    if i > 0 {
      SameChain(fat, a, b, i - 1);
      assert LinkOk(fat, a, i - 1);
      if i > 1 {
        assert LinkOk(fat, a, i - 2) && LinkOk(fat, b, i - 2);
        assert a[..i - 1][i - 2] == b[..i - 1][i - 2];
      }
      assert a[i - 1] == b[i - 1];
    }
  }

  lemma ChainUnique(fat: seq<nat>, a: seq<nat>, b: seq<nat>)
    requires forall j: nat | j < |a| :: LinkOk(fat, a, j)
    requires forall j: nat | j < |b| :: LinkOk(fat, b, j)
    requires |fat| <= CLUSTER_RESERVED && FirstOf(a) == FirstOf(b)
    ensures a == b
  {
    hide Value, LinkOk;
    SameChain(fat, a, b, |a|);
    SameChain(fat, b, a, |b|);
    assert a[..|a|] == a && b[..|b|] == b;
  }
}
