/**
 * Capability handles: tables of generation-tagged entries that share reference-counted objects.  Every method is one
 * lock-held region or one atomic reference-count operation, so a run is any sequence of them.
 */
module Handles {
  import opened Options
  import Modular

  const CAPACITY: nat := 64
  const RIGHT_DUPLICATE: bv32 := 0x20

  /** obj 0 stands for NULL. */
  datatype Entry = Entry(obj: nat, rights: bv32, generation: nat, inUse: bool)

  datatype Table = Table(entries: seq<Entry>, count: nat)

  datatype Object = Object(refcount: nat, destructor: bool, runs: nat)

  type Slot = (nat, nat)

  // ------------------------------------------------------------ handles

  /** 16 bits of generation above 16 bits of index. */
  function MakeHandle(index: nat, generation: nat): nat
    requires index < 0x1_0000 && generation < 0x1_0000
  {
    0x1_0000 * generation + index
  }

  function HandleIndex(h: nat): nat
  {
    h % 0x1_0000
  }

  function HandleGeneration(h: nat): nat
  {
    h / 0x1_0000 % 0x1_0000
  }

  lemma HandleRoundTrip(index: nat, generation: nat)
    requires index < 0x1_0000 && 0 < generation < 0x1_0000
    ensures var h := MakeHandle(index, generation);
            HandleIndex(h) == index && HandleGeneration(h) == generation && h != 0
  {
    Modular.ModUnique(MakeHandle(index, generation), 0x1_0000, generation, index);
  }

  /** The increment that skips zero. */
  function NextGeneration(generation: nat): nat
  {
    var g := (generation + 1) % 0x1_0000;
    if g == 0 then 1 else g
  }

  /** Generations cycle through 65535 values. */
  function GenerationAfter(closes: nat): nat
  {
    1 + closes % 65535
  }

  lemma GenerationStep(closes: nat)
    ensures NextGeneration(GenerationAfter(closes)) == GenerationAfter(closes + 1)
  {
    var q, r := closes / 65535, closes % 65535;
    assert closes == 65535 * q + r;
    if r == 65534 {
      Modular.ModUnique(closes + 1, 65535, q + 1, 0);
    } else {
      Modular.ModUnique(closes + 1, 65535, q, r + 1);
    }
  }

  /** Two generations of a slot agree only a multiple of 65535 closes apart. */
  lemma GenerationsAgree(c0: nat, c1: nat)
    requires c0 <= c1
    ensures GenerationAfter(c0) == GenerationAfter(c1) <==> (c1 - c0) % 65535 == 0
  {
    var d := c1 - c0;
    var q, r := c0 / 65535, c0 % 65535;
    var k, e := d / 65535, d % 65535;
    assert c1 == 65535 * (q + k) + (r + e);
    if r + e < 65535 {
      Modular.ModUnique(c1, 65535, q + k, r + e);
    } else {
      Modular.ModUnique(c1, 65535, q + k + 1, r + e - 65535);
    }
  }

  // ------------------------------------------------------------ rights

  /** Every right in a is in b. */
  predicate Within(a: bv32, b: bv32)
  {
    a & !b == 0
  }

  lemma WithinTrans(a: bv32, b: bv32, c: bv32)
    requires Within(a, b) && Within(b, c)
    ensures Within(a, c)
  {
  }

  lemma WithinIsMask(a: bv32, b: bv32)
    ensures Within(a, b) <==> b & a == a
    ensures Within(a, a)
  {
  }

  /** Rights along a chain of duplications, oldest first: each lies within all before it. */
  predicate Shrinks(chain: seq<bv32>)
  {
    forall i, j | 0 <= i <= j < |chain| :: Within(chain[j], chain[i])
  }

  lemma ShrinksStep(chain: seq<bv32>, rights: bv32)
    requires Shrinks(chain) && (chain == [] || Within(rights, chain[|chain| - 1]))
    ensures Shrinks(chain + [rights])
  {
    hide Within;
    var longer := chain + [rights];
    WithinIsMask(rights, rights);
    forall i, j | 0 <= i <= j < |longer|
      ensures Within(longer[j], longer[i])
    {
      if i < j == |chain| {
        assert Within(chain[j - 1], chain[i]);
        WithinTrans(rights, chain[j - 1], chain[i]);
      }
    }
  }

  // ------------------------------------------------------------ references

  ghost function Referrers(tables: map<nat, Table>, o: nat): set<Slot>
  {
    set t, i | t in tables && 0 <= i < |tables[t].entries| && tables[t].entries[i].inUse
        && tables[t].entries[i].obj == o :: (t, i)
  }

  ghost function InUse(entries: seq<Entry>): set<nat>
  {
    set i | 0 <= i < |entries| && entries[i].inUse
  }

  ghost predicate TableOk(table: Table, objects: map<nat, Object>)
  {
    && |table.entries| == CAPACITY && table.count == |InUse(table.entries)|
    && (forall i | 0 <= i < CAPACITY && table.entries[i].inUse :: table.entries[i].obj in objects)
    && (forall i | 0 <= i < CAPACITY && !table.entries[i].inUse :: table.entries[i].obj == 0)
  }

  ghost predicate TablesOk(tables: map<nat, Table>, objects: map<nat, Object>)
  {
    0 !in objects && forall t | t in tables :: TableOk(tables[t], objects)
  }

  /** Each count is the outside references plus the entries in use; the destructor ran once exactly at zero. */
  ghost predicate Counted(tables: map<nat, Table>, objects: map<nat, Object>, outside: map<nat, nat>)
  {
    && outside.Keys == objects.Keys
    && (forall o | o in objects :: objects[o].refcount == outside[o] + |Referrers(tables, o)|)
    && (forall o | o in objects ::
          objects[o].runs == if objects[o].refcount == 0 && objects[o].destructor then 1 else 0)
  }

  ghost predicate Generations(tables: map<nat, Table>, closes: map<Slot, nat>)
  {
    forall t, i | t in tables && 0 <= i < |tables[t].entries| ::
      (t, i) in closes && tables[t].entries[i].generation == GenerationAfter(closes[(t, i)])
  }

  ghost predicate Lineages(tables: map<nat, Table>, lineage: map<Slot, seq<bv32>>)
  {
    forall t, i | t in tables && 0 <= i < |tables[t].entries| && tables[t].entries[i].inUse ::
      (t, i) in lineage && Descends(lineage[(t, i)], tables[t].entries[i].rights)
  }

  /** The rights only shrink, and every handle that was duplicated along the way had bit 5 set. */
  predicate Descends(chain: seq<bv32>, rights: bv32)
  {
    && chain != [] && chain[|chain| - 1] == rights && Shrinks(chain)
    && forall i | 0 <= i < |chain| - 1 :: HasBit5(chain[i])
  }

  predicate HasBit5(rights: bv32)
  {
    (rights >> 5) & 1 == 1
  }

  /** One entry of one table replaced. */
  function SetEntry(tables: map<nat, Table>, t: nat, i: nat, e: Entry, count: nat): map<nat, Table>
    requires t in tables && i < |tables[t].entries|
  {
    tables[t := Table(tables[t].entries[i := e], count)]
  }

  lemma ReferrersOf(tables: map<nat, Table>, t: nat, i: nat, e: Entry, count: nat, o: nat)
    requires t in tables && i < |tables[t].entries|
    ensures var before, after := Referrers(tables, o), Referrers(SetEntry(tables, t, i, e, count), o);
            after == before - {(t, i)} + (if e.inUse && e.obj == o then {(t, i)} else {})
    ensures (t, i) in Referrers(tables, o) <==> tables[t].entries[i].inUse && tables[t].entries[i].obj == o
  {
    var tables' := SetEntry(tables, t, i, e, count);
    forall u, j
      ensures (u, j) in Referrers(tables', o) <==>
                (u, j) in Referrers(tables, o) - {(t, i)} + (if e.inUse && e.obj == o then {(t, i)} else {})
    {
    }
  }

  /** The invariant of every reachable state. */
  ghost predicate Consistent(tables: map<nat, Table>, objects: map<nat, Object>, outside: map<nat, nat>,
                             closes: map<Slot, nat>,
                             lineage: map<Slot, seq<bv32>>)
  {
    && TablesOk(tables, objects) && Counted(tables, objects, outside)
    && Generations(tables, closes) && Lineages(tables, lineage)
  }

  function Referenced(x: Object): Object
  {
    x.(refcount := x.refcount + 1)
  }

  lemma SetTablesOk(tables: map<nat, Table>, objects: map<nat, Object>, objects': map<nat, Object>, t: nat, i: nat,
                    e: Entry, count: nat)
    requires TablesOk(tables, objects) && objects'.Keys == objects.Keys && t in tables && i < CAPACITY
    requires if e.inUse then e.obj in objects else e.obj == 0
    requires count == |InUse(tables[t].entries[i := e])|
    ensures TablesOk(SetEntry(tables, t, i, e, count), objects')
  {
    hide InUse;
  }

  lemma SetGenerations(tables: map<nat, Table>, closes: map<Slot, nat>, t: nat, i: nat, e: Entry, count: nat, n: nat)
    requires Generations(tables, closes) && t in tables && i < |tables[t].entries| && e.generation == GenerationAfter(n)
    ensures Generations(SetEntry(tables, t, i, e, count), closes[(t, i) := n])
  {
    hide GenerationAfter;
  }

  lemma SetLineages(tables: map<nat, Table>, lineage: map<Slot, seq<bv32>>, t: nat, i: nat, e: Entry, count: nat,
                    chain: seq<bv32>)
    requires Lineages(tables, lineage) && t in tables && i < |tables[t].entries| && Descends(chain, e.rights)
    ensures Lineages(SetEntry(tables, t, i, e, count), lineage[(t, i) := chain])
  {
    hide Descends;
  }

  lemma ClearLineages(tables: map<nat, Table>, lineage: map<Slot, seq<bv32>>, t: nat, i: nat, e: Entry, count: nat)
    requires Lineages(tables, lineage) && t in tables && i < |tables[t].entries| && !e.inUse
    ensures Lineages(SetEntry(tables, t, i, e, count), lineage)
  {
    hide Descends;
  }

  /** handle_create fills a free slot. */
  lemma OccupyStep(tables: map<nat, Table>, objects: map<nat, Object>, outside: map<nat, nat>, closes: map<Slot, nat>,
                   lineage: map<Slot, seq<bv32>>, t: nat, i: nat, o: nat, rights: bv32, chain: seq<bv32>)
    requires Consistent(tables, objects, outside, closes, lineage)
    requires t in tables && i < CAPACITY && |tables[t].entries| == CAPACITY && !tables[t].entries[i].inUse
    requires o in objects && o in outside && outside[o] > 0 && Descends(chain, rights)
    ensures var e := Entry(o, rights, tables[t].entries[i].generation, true);
            Consistent(SetEntry(tables, t, i, e, tables[t].count + 1), objects[o := Referenced(objects[o])], outside,
                closes, lineage[(t, i) := chain])
  {
    hide TablesOk, Counted, Generations, Lineages, Descends, GenerationAfter, Referrers, InUse, SetEntry;
    var e := Entry(o, rights, tables[t].entries[i].generation, true);
    SlotFacts(tables, objects, closes, t, i);
    OccupyInUse(tables[t].entries, i, e);
    SetTablesOk(tables, objects, objects[o := Referenced(objects[o])], t, i, e, tables[t].count + 1);
    OccupyCounted(tables, objects, outside, t, i, o, e);
    SetGenerations(tables, closes, t, i, e, tables[t].count + 1, closes[(t, i)]);
    assert closes[(t, i) := closes[(t, i)]] == closes;
    SetLineages(tables, lineage, t, i, e, tables[t].count + 1, chain);
  }

  lemma SlotFacts(tables: map<nat, Table>, objects: map<nat, Object>, closes: map<Slot, nat>, t: nat, i: nat)
    requires TablesOk(tables, objects) && Generations(tables, closes) && t in tables && i < CAPACITY
    ensures |tables[t].entries| == CAPACITY && tables[t].count == |InUse(tables[t].entries)|
    ensures (t, i) in closes && tables[t].entries[i].generation == GenerationAfter(closes[(t, i)])
    ensures tables[t].entries[i].inUse ==> tables[t].entries[i].obj in objects && tables[t].count > 0
    ensures !tables[t].entries[i].inUse ==> tables[t].entries[i].obj == 0
    ensures 0 !in objects
  {
    assert tables[t].entries[i].inUse ==> i in InUse(tables[t].entries);
  }

  lemma OccupyInUse(entries: seq<Entry>, i: nat, e: Entry)
    requires i < |entries|
    ensures !entries[i].inUse && e.inUse ==> |InUse(entries[i := e])| == |InUse(entries)| + 1
    ensures entries[i].inUse && !e.inUse ==> |InUse(entries[i := e])| == |InUse(entries)| - 1
  {
    hide InUse;
    InUseSet(entries, i, e);
    assert InUse(entries) + {i} == if entries[i].inUse then InUse(entries) else InUse(entries) + {i};
  }

  lemma InUseSet(entries: seq<Entry>, i: nat, e: Entry)
    requires i < |entries|
    ensures i in InUse(entries) <==> entries[i].inUse
    ensures InUse(entries[i := e]) == if e.inUse then InUse(entries) + {i} else InUse(entries) - {i}
  {
  }

  lemma OccupyCounted(tables: map<nat, Table>, objects: map<nat, Object>, outside: map<nat, nat>, t: nat, i: nat,
                      o: nat, e: Entry)
    requires Counted(tables, objects, outside) && t in tables && i < |tables[t].entries| && !tables[t].entries[i].inUse
    requires o in objects && outside[o] > 0 && e.inUse && e.obj == o
    ensures Counted(SetEntry(tables, t, i, e, tables[t].count + 1), objects[o := Referenced(objects[o])], outside)
  {
    hide Referrers, SetEntry;
    forall x | x in objects
      ensures |Referrers(SetEntry(tables, t, i, e, tables[t].count + 1), x)| ==
              |Referrers(tables, x)| + if x == o then 1 else 0
    {
      ReferrersOf(tables, t, i, e, tables[t].count + 1, x);
      assert Referrers(tables, x) - {(t, i)} == Referrers(tables, x);
    }
  }

  /** handle_close empties a slot; its reference is now the closer's to drop. */
  lemma ClearStep(tables: map<nat, Table>, objects: map<nat, Object>, outside: map<nat, nat>, closes: map<Slot, nat>,
                  lineage: map<Slot, seq<bv32>>, t: nat, i: nat)
    requires Consistent(tables, objects, outside, closes, lineage)
    requires t in tables && i < CAPACITY && |tables[t].entries| == CAPACITY && tables[t].entries[i].inUse
    ensures var e, o := tables[t].entries[i], tables[t].entries[i].obj;
            && o in outside && o in objects && o != 0 && tables[t].count > 0 && (t, i) in closes
            && Consistent(SetEntry(tables, t, i, Entry(0, 0, NextGeneration(e.generation), false), tables[t].count - 1),
                objects,
                          outside[o := outside[o] + 1], closes[(t, i) := closes[(t, i)] + 1], lineage)
  {
    hide TablesOk, Counted, Generations, Lineages, Descends, GenerationAfter, NextGeneration, Referrers, InUse;
    hide SetEntry;
    SlotFacts(tables, objects, closes, t, i);
    var e := Entry(0, 0, NextGeneration(tables[t].entries[i].generation), false);
    CountedKeys(tables, objects, outside);
    GenerationStep(closes[(t, i)]);
    OccupyInUse(tables[t].entries, i, e);
    SetTablesOk(tables, objects, objects, t, i, e, tables[t].count - 1);
    ClearCounted(tables, objects, outside, t, i, e);
    SetGenerations(tables, closes, t, i, e, tables[t].count - 1, closes[(t, i)] + 1);
    ClearLineages(tables, lineage, t, i, e, tables[t].count - 1);
  }

  lemma CountedKeys(tables: map<nat, Table>, objects: map<nat, Object>, outside: map<nat, nat>)
    requires Counted(tables, objects, outside)
    ensures outside.Keys == objects.Keys
  {
  }

  lemma ClearCounted(tables: map<nat, Table>, objects: map<nat, Object>, outside: map<nat, nat>, t: nat, i: nat,
                     e: Entry)
    requires Counted(tables, objects, outside) && t in tables && i < |tables[t].entries| && tables[t].entries[i].inUse
    requires tables[t].entries[i].obj in objects && !e.inUse && tables[t].count > 0
    ensures var o := tables[t].entries[i].obj;
            Counted(SetEntry(tables, t, i, e, tables[t].count - 1), objects, outside[o := outside[o] + 1])
  {
    hide Referrers, SetEntry;
    var o := tables[t].entries[i].obj;
    forall x | x in objects
      ensures |Referrers(SetEntry(tables, t, i, e, tables[t].count - 1), x)| ==
              |Referrers(tables, x)| - if x == o then 1 else 0
    {
      ClearReferrers(tables, t, i, e, x);
    }
  }

  lemma ClearReferrers(tables: map<nat, Table>, t: nat, i: nat, e: Entry, x: nat)
    requires t in tables && i < |tables[t].entries| && tables[t].entries[i].inUse && !e.inUse && tables[t].count > 0
    ensures |Referrers(SetEntry(tables, t, i, e, tables[t].count - 1), x)|
         == |Referrers(tables, x)| - if x == tables[t].entries[i].obj then 1 else 0
  {
    hide Referrers, SetEntry;
    ReferrersOf(tables, t, i, e, tables[t].count - 1, x);
    var before := Referrers(tables, x);
    var after := Referrers(SetEntry(tables, t, i, e, tables[t].count - 1), x);
    assert after == before - {(t, i)};
    assert (t, i) !in before ==> after == before;
  }

  class HandleSystem {
    var tables: map<nat, Table>
    var objects: map<nat, Object>
    var nextTable: nat
    var nextObject: nat
    /** References held by code rather than by entries: creators, temporary references, closers about to drop one. */
    var outside: map<nat, nat>
    /** How often each slot has been closed. */
    ghost var closes: map<Slot, nat>
    /** For each entry, the rights along the duplications that led to it. */
    ghost var lineage: map<Slot, seq<bv32>>
    /** Duplications between their two regions: the object and the rights, and how these came about. */
    var inFlight: seq<(nat, bv32)>
    ghost var chains: seq<seq<bv32>>

    ghost function Now(): State
      reads this
    {
      State(tables, objects, outside, closes, lineage, inFlight, chains)
    }

    ghost predicate Valid()
      reads this
    {
      && Consistent(tables, objects, outside, closes, lineage) && InFlightOk(inFlight, chains)
      && (forall t | t in tables :: t < nextTable) && (forall s | s in closes :: s.0 < nextTable)
          && (forall o | o in objects :: o < nextObject) && nextObject > 0
    }

    ghost predicate Resolves(t: nat, h: nat)
      reads this`tables
    {
      ResolvesIn(tables, t, h)
    }

    /** Some code outside the tables holds a reference. */
    predicate Holds(o: nat)
      reads this
    {
      o in outside && outside[o] > 0
    }

    constructor ()
      ensures Valid() && tables == map[] && objects == map[]
    {
      tables, objects, nextTable, nextObject := map[], map[], 0, 1;
      outside, closes, lineage, inFlight, chains := map[], map[], map[], [], [];
    }

    /** kos_object_init: one reference, the creator's. */
    method NewObject(destructor: bool) returns (o: nat)
      requires Valid()
      modifies this`objects, this`outside, this`nextObject
      ensures Valid() && o != 0 && o !in old(objects) && Now() == WithObject(old(Now()), o, destructor)
    {
      hide TablesOk, Counted, Generations, Lineages;
      o := nextObject;
      NewObjectStep(tables, objects, outside, o, destructor);
      objects := objects[o := Object(1, destructor, 0)];
      outside := outside[o := 1];
      nextObject := nextObject + 1;
    }

    /** kos_object_ref, by a holder of a reference. */
    method Ref(o: nat)
      requires Valid() && o in outside && outside[o] > 0
      modifies this`objects, this`outside
      ensures Valid() && o in old(objects) && objects == old(objects)[o := Referenced(old(objects)[o])]
      ensures outside == old(outside)[o := old(outside)[o] + 1]
    {
      hide TablesOk, Counted, Generations, Lineages;
      RefStep(tables, objects, outside, o);
      objects := objects[o := Referenced(objects[o])];
      outside := outside[o := outside[o] + 1];
    }

    /** kos_object_unref: the last reference runs the destructor. */
    method Unref(o: nat)
      requires Valid() && o in outside && outside[o] > 0
      modifies this`objects, this`outside
      ensures Valid() && outside == old(outside)[o := old(outside)[o] - 1]
      ensures o in old(objects) && old(objects)[o].refcount > 0
      ensures objects == old(objects)[o := Dropped(old(objects)[o])]
      ensures objects[o].refcount == 0 ==> Referrers(tables, o) == {} && old(objects)[o].runs == 0
    {
      hide TablesOk, Counted, Generations, Lineages;
      UnrefStep(tables, objects, outside, o);
      objects := objects[o := Dropped(objects[o])];
      outside := outside[o := outside[o] - 1];
    }

    /** handle_table_create; `granted` is whether there is memory for it. */
    method NewTable(granted: bool) returns (table: Option<nat>)
      requires Valid()
      modifies this`tables, this`nextTable, this`closes
      ensures Valid() && (table.Some? <==> granted)
      ensures if granted then UnusedTable(old(Now()), table.value)
                && Now() == WithTable(old(Now()), table.value) else Now() == old(Now())
    {
      hide TablesOk, Counted, Lineages, Generations, NewTableValue;
      if !granted {
        return None;
      }
      var t := nextTable;
      table := Some(t);
      NewTableStep(tables, objects, outside, closes, lineage, t);
      tables := tables[t := NewTableValue()];
      closes := NoCloses(closes, t);
      nextTable := nextTable + 1;
    }

    /** The first free slot. */
    method FindFree(t: nat) returns (i: nat)
      requires Valid() && t in tables
      ensures |tables[t].entries| == CAPACITY && i <= CAPACITY && forall j | 0 <= j < i :: tables[t].entries[j].inUse
      ensures i < CAPACITY ==> !tables[t].entries[i].inUse
    {
      hide Counted, Lineages, Generations;
      i := 0;
      while i < CAPACITY && tables[t].entries[i].inUse
        invariant i <= CAPACITY && forall j | 0 <= j < i :: tables[t].entries[j].inUse
      {
        i := i + 1;
      }
    }

    /** handle_create, by a holder of a reference; `chain` is how the rights came about. */
    method Create(t: nat, o: nat, rights: bv32, ghost chain: seq<bv32>) returns (h: nat)
      requires Valid() && (o != 0 ==> o in outside && outside[o] > 0 && Descends(chain, rights))
      modifies this`tables, this`objects, this`lineage
      ensures Valid()
      ensures h == 0 <==> o == 0 || t !in old(tables) || Full(old(tables)[t])
      ensures h == 0 ==> tables == old(tables) && objects == old(objects) && lineage == old(lineage)
      ensures h != 0 ==> FirstFree(old(tables)[t], HandleIndex(h))
      ensures h != 0 ==>
                Issued(old(tables), tables, t, h, o, rights) && Resolves(t, h)
                && lineage == old(lineage)[(t, HandleIndex(h)) := chain]
      ensures h != 0 ==> o in old(objects) && objects == old(objects)[o := Referenced(old(objects)[o])]
      ensures h != 0 ==> Now() == Occupied(old(Now()), t, HandleIndex(h), o, rights, chain)
    {
      hide TablesOk, Counted, Lineages, Generations, Descends, GenerationAfter;
      if o == 0 || t !in tables {
        return 0;
      }
      var i := FindFree(t);
      if i == CAPACITY {
        return 0;
      }
      CountedKeys(tables, objects, outside);
      OccupyStep(tables, objects, outside, closes, lineage, t, i, o, rights, chain);
      SlotFacts(tables, objects, closes, t, i);
      GenerationRange(closes[(t, i)]);
      var e := tables[t].entries[i];
      var gen := if e.generation == 0 then 1 else e.generation;
      tables := SetEntry(tables, t, i, Entry(o, rights, gen, true), tables[t].count + 1);
      objects := objects[o := Referenced(objects[o])];
      lineage := lineage[(t, i) := chain];
      h := MakeHandle(i, gen);
      HandleRoundTrip(i, gen);
    }

    /** handle_lookup */
    method Lookup(t: nat, h: nat, required: bv32) returns (o: nat)
      requires Valid()
      ensures o != 0 <==> Resolves(t, h) && Within(required, tables[t].entries[HandleIndex(h)].rights)
      ensures o != 0 ==>
                o == tables[t].entries[HandleIndex(h)].obj && o in objects && objects[o].refcount > 0
                && objects[o].runs == 0
    {
      hide TablesOk, Counted, Lineages, Generations, Within;
      if h == 0 || t !in tables || HandleIndex(h) >= CAPACITY {
        return 0;
      }
      SlotFacts(tables, objects, closes, t, HandleIndex(h));
      LiveReferent(tables, objects, outside, t, HandleIndex(h));
      var e := tables[t].entries[HandleIndex(h)];
      WithinIsMask(required, e.rights);
      if !e.inUse || e.generation != HandleGeneration(h) || e.rights & required != required {
        return 0;
      }
      return e.obj;
    }

    /** Emptying a slot in use. */
    method Clear(t: nat, i: nat) returns (o: nat)
      requires Valid() && t in tables && i < CAPACITY && |tables[t].entries| == CAPACITY && tables[t].entries[i].inUse
      modifies this`tables, this`outside, this`closes
      ensures Valid() && Cleared(old(tables), tables, t, i) && o == old(tables)[t].entries[i].obj && o != 0
      ensures o in old(outside) && outside == old(outside)[o := old(outside)[o] + 1]
      ensures (t, i) in old(closes) && closes == old(closes)[(t, i) := old(closes)[(t, i)] + 1]
      ensures Now() == ClearSlot(old(Now()), t, i)
    {
      hide TablesOk, Counted, Lineages, Generations, GenerationAfter, NextGeneration;
      ClearStep(tables, objects, outside, closes, lineage, t, i);
      var e := tables[t].entries[i];
      o := e.obj;
      tables := SetEntry(tables, t, i, Entry(0, 0, NextGeneration(e.generation), false), tables[t].count - 1);
      outside := outside[o := outside[o] + 1];
      closes := closes[(t, i) := closes[(t, i)] + 1];
    }

    /** The locked region of handle_close; the object returned is still to be unreferenced. */
    method CloseRegion(t: nat, h: nat) returns (o: nat)
      requires Valid()
      modifies this`tables, this`outside, this`closes
      ensures Valid() && (o != 0 <==> old(Resolves(t, h)))
      ensures o == 0 ==> tables == old(tables) && outside == old(outside) && closes == old(closes)
      ensures o != 0 ==>
                var s := (t, HandleIndex(h));
                && Cleared(old(tables), tables, t, s.1) && o == old(tables)[t].entries[s.1].obj && !Resolves(t, h)
                && o in old(outside) && outside == old(outside)[o := old(outside)[o] + 1]
                && s in old(closes) && closes == old(closes)[s := old(closes)[s] + 1]
      ensures o != 0 ==> Now() == ClearSlot(old(Now()), t, HandleIndex(h))
    {
      hide TablesOk, Counted, Lineages, Generations, NextGeneration;
      if h == 0 || t !in tables || HandleIndex(h) >= CAPACITY {
        return 0;
      }
      var i := HandleIndex(h);
      SlotFacts(tables, objects, closes, t, i);
      if !tables[t].entries[i].inUse || tables[t].entries[i].generation != HandleGeneration(h) {
        return 0;
      }
      o := Clear(t, i);
    }

    /** The locked region of handle_duplicate: the rights are checked and a temporary reference is taken. */
    method DuplicateRegion(t: nat, h: nat, newRights: bv32) returns (o: nat, target: bv32, ghost chain: seq<bv32>)
      requires Valid()
      modifies this`objects, this`outside
      ensures Valid()
      ensures o != 0 <==> Resolves(t, h) && Duplicable(tables[t].entries[HandleIndex(h)].rights, newRights)
      ensures o == 0 ==> objects == old(objects) && outside == old(outside)
      ensures o != 0 ==>
                var e := tables[t].entries[HandleIndex(h)];
                && o == e.obj && target == Granted(e.rights, newRights) && Within(target, e.rights)
                && (t, HandleIndex(h)) in lineage && chain == lineage[(t, HandleIndex(h))] + [target]
                    && Descends(chain, target)
                && o in old(objects) && old(objects)[o].refcount > 0
                    && objects == old(objects)[o := Referenced(old(objects)[o])]
                && o in old(outside) && outside == old(outside)[o := old(outside)[o] + 1]
    {
      hide TablesOk, Counted, Lineages, Generations, Within, Descends, Granted, MayDuplicate;
      target, chain := 0, [];
      if h == 0 || t !in tables || HandleIndex(h) >= CAPACITY {
        return 0, target, chain;
      }
      var i := HandleIndex(h);
      SlotFacts(tables, objects, closes, t, i);
      var e := tables[t].entries[i];
      target := Granted(e.rights, newRights);
      if !e.inUse || e.generation != HandleGeneration(h) || !MayDuplicate(e.rights) || !Within(target, e.rights)
          || e.obj == 0 {
        return 0, target, chain;
      }
      o := e.obj;
      LineageStep(tables, lineage, t, i, target);
      chain := lineage[(t, i)] + [target];
      LiveReferent(tables, objects, outside, t, i);
      EntryRefStep(tables, objects, outside, t, i);
      objects := objects[o := Referenced(objects[o])];
      outside := outside[o := outside[o] + 1];
    }

    /**
     * The locked region of handle_table_destroy: every entry goes; the objects returned are still to be unreferenced.
     */
    method ClearTable(t: nat) returns (pending: seq<nat>)
      requires Valid() && t in tables
      modifies this`tables, this`outside, this`closes
      ensures Valid() && t in tables && tables - {t} == old(tables) - {t} && Empty(tables[t])
      ensures Handed(old(outside), outside, pending) && Now() == ClearSlots(old(Now()), t, CAPACITY)
    {
      hide TablesOk, Counted, Lineages, Generations, Cleared, HandleSystem.Valid, ClearSlots, ClearSlot;
      ClearSlotsStart(Now(), t);
      pending := [];
      TableSize(t);
      for i := 0 to CAPACITY
        invariant Valid() && t in tables && tables - {t} == old(tables) - {t} && |tables[t].entries| == CAPACITY
        invariant forall j | 0 <= j < i :: !tables[t].entries[j].inUse
        invariant Handed(old(outside), outside, pending) && Now() == ClearSlots(old(Now()), t, i)
      {
        ClearSlotsNext(old(Now()), t, i);
        ClearSlotIs(Now(), t, i);
        if tables[t].entries[i].inUse {
          ghost var before := tables;
          var o := Clear(t, i);
          ClearedEntries(before, tables, t, i);
          pending := pending + [o];
        }
      }
    }

    lemma TableSize(t: nat)
      requires Valid() && t in tables
      ensures |tables[t].entries| == CAPACITY
    {
      hide Counted, Lineages, Generations;
    }

    /** The release of an emptied table. */
    method FreeTable(t: nat)
      requires Valid() && t in tables && Empty(tables[t])
      modifies this`tables
      ensures Valid() && tables == old(tables) - {t}
    {
      hide Counted, Lineages, Generations, GenerationAfter, Descends;
      FreeTableStep(tables, objects, outside, closes, lineage, t);
      tables := tables - {t};
    }

    /** handle_close: succeeds exactly on handles that resolve, and gives back the entry's reference. */
    method Close(t: nat, h: nat) returns (ok: bool)
      requires Valid()
      modifies this`tables, this`objects, this`outside, this`closes
      ensures Valid() && outside == old(outside) && (ok <==> old(Resolves(t, h))) && !Resolves(t, h)
      ensures !ok ==> tables == old(tables) && objects == old(objects) && closes == old(closes)
      ensures ok ==> Cleared(old(tables), tables, t, HandleIndex(h))
      ensures ok ==> var o := old(tables)[t].entries[HandleIndex(h)].obj;
                     o in old(objects) && old(objects)[o].refcount > 0
                         && objects == old(objects)[o := Dropped(old(objects)[o])]
    {
      hide TablesOk, Counted, Lineages, Generations, Cleared, HandleSystem.Valid, Dropped;
      var o := CloseRegion(t, h);
      if o != 0 {
        Unref(o);
      }
      ok := o != 0;
    }

    /** handle_duplicate: the copy refers to the same object with no more rights. */
    method Duplicate(src: nat, dst: nat, h: nat, newRights: bv32) returns (copy: nat)
      requires Valid()
      modifies this`tables, this`objects, this`outside, this`lineage
      ensures Valid() && outside == old(outside) && closes == old(closes)
      ensures copy != 0 ==>
                && old(Resolves(src, h)) && Resolves(dst, copy)
                && var e := old(tables)[src].entries[HandleIndex(h)];
                   && Issued(old(tables), tables, dst, copy, e.obj, Granted(e.rights, newRights))
                       && Within(Granted(e.rights, newRights), e.rights)
                   && (src, HandleIndex(h)) in old(lineage)
                   && lineage == old(lineage)[(dst, HandleIndex(copy)) := old(lineage)[(src, HandleIndex(h))]
                       + [Granted(e.rights, newRights)]]
      ensures copy == 0 ==> tables == old(tables) && objects == old(objects)
      ensures copy != 0 ==>
                var e, c := old(tables)[src].entries[HandleIndex(h)], tables[dst].entries[HandleIndex(copy)];
                HasBit5(e.rights) && c.obj == e.obj && c.rights == if newRights == 0 then e.rights else newRights
      ensures copy != 0 <==>
                && old(Resolves(src, h)) && Duplicable(old(tables)[src].entries[HandleIndex(h)].rights, newRights)
                && dst in old(tables) && !Full(old(tables)[dst])
    {
      hide TablesOk, Counted, Lineages, Generations, HandleSystem.Valid, Within, Granted, Duplicable, Descends, Issued;
      hide Full, Dropped, Referenced;
      var o, target, chain := DuplicateRegion(src, h, newRights);
      if o == 0 {
        return 0;
      }
      CopyRights(old(tables)[src].entries[HandleIndex(h)].rights, newRights);
      copy := Create(dst, o, target, chain);
      Unref(o);
      DropReferenced(old(objects)[o]);
    }

    /** handle_table_destroy: the table's references, and only those, are given back. */
    method Destroy(t: nat)
      requires Valid() && t in tables
      modifies this`tables, this`objects, this`outside, this`closes
      ensures Valid() && tables == old(tables) - {t} && outside == old(outside)
    {
      hide TablesOk, Counted, Lineages, Generations, HandleSystem.Valid, Dropped, Empty, Handed, ClearSlots, ClearSlot;
      hide HandleSystem.Now, Referrers;
      var pending := ClearTable(t);
      assert pending[0..] == pending;
      for n := 0 to |pending|
        invariant Valid() && tables - {t} == old(tables) - {t} && t in tables && Empty(tables[t])
        invariant Handed(old(outside), outside, pending[n..])
      {
        HandedFirst(old(outside), outside, pending[n..]);
        Unref(pending[n]);
        assert pending[n..][1..] == pending[n + 1..];
      }
      FreeTable(t);
      assert pending[|pending|..] == [];
      HandedNone(old(outside), outside);
    }

    /** One region, if whoever runs it holds the reference it needs. */
    method Perform(op: Op)
      requires Valid()
      modifies this
      ensures Valid() && Next(op, old(Now()), Now())
    {
      hide TablesOk, Counted, Lineages, Generations, HandleSystem.Valid, Within, Granted, Duplicable, Descends, Cleared;
      hide Issued, ResolvesIn, Full;
      hide Consistent, InFlightOk, WithObject, WithTable, UnusedTable, ClearSlot, ClearSlots, Occupied, FirstFree;
      hide Dropped, Referenced;
      HeldFacts();
      match op
      case NewObject(destructor) =>
        var o := NewObject(destructor);
      case Ref(o) =>
        if Holds(o) {
          Ref(o);
        }
      case Unref(o) =>
        if Holds(o) {
          Unref(o);
        }
      case NewTable(granted) =>
        var t := NewTable(granted);
      case Create(t, o, rights) =>
        if o == 0 || Holds(o) {
          Origin(rights);
          var h := Create(t, o, rights, [rights]);
          IssuesIf(old(Now()), Now(), t, h, o, rights, [rights]);
        }
      case Close(t, h) =>
        var o := CloseRegion(t, h);
      case Duplicate(t, h, rights) =>
        PerformDuplicate(t, h, rights);
      case CreateCopy(t, k) =>
        PerformCopy(t, k);
      case Clear(t) =>
        if t in tables {
          var pending := ClearTable(t);
        } else {
          ClearSlotsNothing(Now(), t, CAPACITY);
        }
      case Free(t) =>
        if t in tables && Empty(tables[t]) {
          FreeTable(t);
        }
    }

    /** The first half of a duplication, remembered until the second. */
    method PerformDuplicate(t: nat, h: nat, rights: bv32)
      requires Valid()
      modifies this`objects, this`outside, this`inFlight, this`chains
      ensures Valid() && Next(Op.Duplicate(t, h, rights), old(Now()), Now())
    {
      hide TablesOk, Counted, Lineages, Generations, Within, Granted, Duplicable, Descends, ResolvesIn, Consistent;
      hide Referenced;
      var o, target, chain := DuplicateRegion(t, h, rights);
      if o != 0 {
        inFlight := inFlight + [(o, target)];
        chains := chains + [chain];
      }
    }

    /** The second half of a duplication. */
    method PerformCopy(t: nat, k: nat)
      requires Valid()
      modifies this`tables, this`objects, this`lineage, this`inFlight, this`chains
      ensures Valid() && Next(Op.CreateCopy(t, k), old(Now()), Now())
    {
      hide TablesOk, Counted, Lineages, Generations, Within, Descends, Issued, ResolvesIn, Full, Consistent, Occupied;
      hide FirstFree, Referenced;
      HeldFacts();
      if k < |inFlight| && Holds(inFlight[k].0) {
        var (o, rights) := inFlight[k];
        ghost var chain := chains[k];
        inFlight := Dropped1(inFlight, k);
        chains := Dropped1(chains, k);
        ghost var base := Now();
        var h := Create(t, o, rights, chain);
        IssuesIf(base, Now(), t, h, o, rights, chain);
      }
    }

    /** Any run of regions, in any order. */
    method Run(ops: seq<Op>) returns (ghost ss: seq<State>)
      requires Valid()
      modifies this
      ensures Valid() && Trace(ops, ss) && ss[0] == old(Now()) && ss[|ops|] == Now()
    {
      hide HandleSystem.Valid, Next;
      ss := [Now()];
      for i := 0 to |ops|
        invariant Valid() && |ss| == i + 1 && ss[0] == old(Now()) && ss[i] == Now()
        invariant forall j, k | 0 <= j < i && k == j + 1 :: Next(ops[j], ss[j], ss[k])
      {
        Perform(ops[i]);
        ss := ss + [Now()];
      }
    }

    /** Whoever holds a reference holds it to a live object. */
    lemma HeldFacts()
      requires Valid()
      ensures forall o | Holds(o) :: HeldIn(Now(), o) && objects[o].refcount > 0
      ensures !HeldIn(Now(), 0)
      ensures Sound(Now())
    {
      hide Referrers, Lineages, Generations, TableOk, InFlightOk;
    }
  }

  /** The slot was closed a multiple of 65535 times in between. */
  ghost predicate Wrapped(closes: map<Slot, nat>, closes': map<Slot, nat>, s: Slot)
  {
    s in closes && s in closes' && closes[s] <= closes'[s] && (closes'[s] - closes[s]) % 65535 == 0
  }

  ghost predicate ResolvesIn(tables: map<nat, Table>, t: nat, h: nat)
  {
    && t in tables && h != 0 && HandleIndex(h) < CAPACITY && |tables[t].entries| == CAPACITY
    && tables[t].entries[HandleIndex(h)].inUse && tables[t].entries[HandleIndex(h)].generation == HandleGeneration(h)
  }

  /** The lock-held regions and atomic operations a run is made of. */
  datatype Op =
    | NewObject(destructor: bool)
    | Ref(o: nat)
    | Unref(o: nat)
    | NewTable(granted: bool)
    | Create(t: nat, o: nat, rights: bv32)
    | Close(t: nat, h: nat)
    | Duplicate(t: nat, h: nat, rights: bv32)
    | CreateCopy(t: nat, k: nat)
    | Clear(t: nat)
    | Free(t: nat)

  /** Objects stay known, a destructor that ran stays run, and slots are only closed more often. */
  ghost predicate Later(objects: map<nat, Object>, closes: map<Slot, nat>, objects': map<nat, Object>,
                        closes': map<Slot, nat>)
  {
    && (forall o | o in objects :: o in objects' && objects[o].runs <= objects'[o].runs)
    && ClosedMore(closes, closes')
  }

  lemma LaterRefl(objects: map<nat, Object>, closes: map<Slot, nat>)
    ensures Later(objects, closes, objects, closes)
  {
  }

  lemma LaterTrans(o0: map<nat, Object>, c0: map<Slot, nat>, o1: map<nat, Object>, c1: map<Slot, nat>,
                   o2: map<nat, Object>, c2: map<Slot, nat>)
    requires Later(o0, c0, o1, c1) && Later(o1, c1, o2, c2)
    ensures Later(o0, c0, o2, c2)
  {
  }

  /** A handle whose rights were granted directly. */
  lemma Origin(rights: bv32)
    ensures Descends([rights], rights)
  {
    hide Within;
    WithinIsMask(rights, rights);
  }

  ghost predicate Full(table: Table)
  {
    forall i | 0 <= i < |table.entries| :: table.entries[i].inUse
  }

  lemma DropReferenced(x: Object)
    requires x.refcount > 0
    ensures Dropped(Referenced(x)) == x
  {
  }

  predicate Empty(table: Table)
  {
    forall i | 0 <= i < |table.entries| :: !table.entries[i].inUse
  }

  /** The references in `pending` moved from entries to the caller. */
  ghost predicate Handed(outside: map<nat, nat>, outside': map<nat, nat>, pending: seq<nat>)
  {
    && outside'.Keys == outside.Keys && (forall i | 0 <= i < |pending| :: pending[i] in outside)
    && forall o | o in outside :: outside'[o] == outside[o] + multiset(pending)[o]
  }

  lemma HandedFirst(outside: map<nat, nat>, outside': map<nat, nat>, pending: seq<nat>)
    requires Handed(outside, outside', pending) && pending != []
    ensures pending[0] in outside' && outside'[pending[0]] > 0
    ensures Handed(outside, outside'[pending[0] := outside'[pending[0]] - 1], pending[1..])
  {
    assert pending == [pending[0]] + pending[1..];
    assert multiset(pending) == multiset{pending[0]} + multiset(pending[1..]);
  }

  lemma HandedNone(outside: map<nat, nat>, outside': map<nat, nat>)
    ensures Handed(outside, outside', []) ==> outside' == outside
  {
  }

  ghost predicate ClosedMore(closes: map<Slot, nat>, closes': map<Slot, nat>)
  {
    forall s | s in closes :: s in closes' && closes[s] <= closes'[s]
  }

  lemma ClearedEntries(tables: map<nat, Table>, tables': map<nat, Table>, t: nat, i: nat)
    requires Cleared(tables, tables', t, i)
    ensures t in tables' && tables' - {t} == tables - {t} && |tables'[t].entries| == |tables[t].entries|
    ensures !tables'[t].entries[i].inUse
    ensures forall j | 0 <= j < |tables[t].entries| && j != i :: tables'[t].entries[j] == tables[t].entries[j]
  {
  }

  lemma FreeTableStep(tables: map<nat, Table>, objects: map<nat, Object>, outside: map<nat, nat>,
                      closes: map<Slot, nat>,
                      lineage: map<Slot, seq<bv32>>, t: nat)
    requires Consistent(tables, objects, outside, closes, lineage) && t in tables && Empty(tables[t])
    ensures Consistent(tables - {t}, objects, outside, closes, lineage)
  {
    hide GenerationAfter, Descends, Counted, TableOk;
    FreeCounted(tables, objects, outside, t);
  }

  lemma FreeCounted(tables: map<nat, Table>, objects: map<nat, Object>, outside: map<nat, nat>, t: nat)
    requires Counted(tables, objects, outside) && t in tables && Empty(tables[t])
    ensures Counted(tables - {t}, objects, outside)
  {
    hide Referrers;
    forall o
      ensures Referrers(tables - {t}, o) == Referrers(tables, o)
    {
      FreeReferrers(tables, t, o);
    }
  }

  lemma FreeReferrers(tables: map<nat, Table>, t: nat, o: nat)
    requires t in tables && Empty(tables[t])
    ensures Referrers(tables - {t}, o) == Referrers(tables, o)
  {
  }

  /** handle_create put o with these rights into a free slot, and changed no other. */
  ghost predicate Issued(tables: map<nat, Table>, tables': map<nat, Table>, t: nat, h: nat, o: nat, rights: bv32)
  {
    && t in tables && HandleIndex(h) < |tables[t].entries| && !tables[t].entries[HandleIndex(h)].inUse
    && tables' == SetEntry(tables, t, HandleIndex(h), Entry(o, rights, HandleGeneration(h), true), tables[t].count + 1)
  }

  /** Slot i of table t is empty with its next generation; no other slot changed. */
  ghost predicate Cleared(tables: map<nat, Table>, tables': map<nat, Table>, t: nat, i: nat)
  {
    && t in tables && i < |tables[t].entries| && tables[t].entries[i].inUse && tables[t].count > 0
    && tables' == SetEntry(tables, t, i, Entry(0, 0, NextGeneration(tables[t].entries[i].generation), false),
        tables[t].count - 1)
  }

  /** What a duplicate is granted: everything when nothing is asked for. */
  function Granted(rights: bv32, newRights: bv32): bv32
  {
    if newRights != 0 then newRights else rights
  }

  predicate MayDuplicate(rights: bv32)
  {
    rights & RIGHT_DUPLICATE != 0
  }

  /** A handle may be duplicated exactly if bit 5 of its rights is set. */
  lemma MayDuplicateIff(rights: bv32)
    ensures MayDuplicate(rights) <==> HasBit5(rights)
  {
  }

  ghost predicate Duplicable(rights: bv32, newRights: bv32)
  {
    MayDuplicate(rights) && Within(Granted(rights, newRights), rights)
  }

  lemma CopyRights(rights: bv32, newRights: bv32)
    requires Duplicable(rights, newRights)
    ensures HasBit5(rights) && Granted(rights, newRights) == if newRights == 0 then rights else newRights
  {
  }

  lemma GenerationRange(closes: nat)
    ensures 0 < GenerationAfter(closes) < 0x1_0000
  {
  }

  ghost function NoCloses(closes: map<Slot, nat>, t: nat): map<Slot, nat>
  {
    closes + map i: nat | i < CAPACITY :: (t, i) := 0
  }

  function NewTableValue(): Table
  {
    Table(seq(CAPACITY, _ => Entry(0, 0, 1, false)), 0)
  }

  lemma NewTableStep(tables: map<nat, Table>, objects: map<nat, Object>, outside: map<nat, nat>, closes: map<Slot, nat>,
                     lineage: map<Slot, seq<bv32>>, t: nat)
    requires Consistent(tables, objects, outside, closes, lineage) && t !in tables
    ensures Consistent(tables[t := NewTableValue()], objects, outside, NoCloses(closes, t), lineage)
  {
    hide Counted, Lineages, Generations, NoCloses;
    var table := NewTableValue();
    assert InUse(table.entries) == {};
    NewTableReferrers(tables, objects, outside, lineage, t, table);
    NewTableGenerations(tables, closes, t, table);
  }

  lemma NewTableGenerations(tables: map<nat, Table>, closes: map<Slot, nat>, t: nat, table: Table)
    requires Generations(tables, closes) && t !in tables && |table.entries| == CAPACITY
    requires forall i | 0 <= i < CAPACITY :: table.entries[i].generation == 1
    ensures Generations(tables[t := table], NoCloses(closes, t))
  {
  }

  lemma NewTableReferrers(tables: map<nat, Table>, objects: map<nat, Object>, outside: map<nat, nat>,
                          lineage: map<Slot, seq<bv32>>, t: nat, table: Table)
    requires Counted(tables, objects, outside) && Lineages(tables, lineage) && t !in tables
    requires forall i | 0 <= i < |table.entries| :: !table.entries[i].inUse
    ensures Counted(tables[t := table], objects, outside) && Lineages(tables[t := table], lineage)
  {
    hide Descends;
    forall o
      ensures Referrers(tables[t := table], o) == Referrers(tables, o)
    {
    }
  }

  /** An entry in use keeps its object alive. */
  lemma LiveReferent(tables: map<nat, Table>, objects: map<nat, Object>, outside: map<nat, nat>, t: nat, i: nat)
    requires Counted(tables, objects, outside) && t in tables && i < |tables[t].entries|
    ensures tables[t].entries[i].inUse && tables[t].entries[i].obj in objects ==>
              objects[tables[t].entries[i].obj].refcount > 0 && objects[tables[t].entries[i].obj].runs == 0
  {
    assert tables[t].entries[i].inUse ==> (t, i) in Referrers(tables, tables[t].entries[i].obj);
  }

  lemma LineageStep(tables: map<nat, Table>, lineage: map<Slot, seq<bv32>>, t: nat, i: nat, target: bv32)
    requires Lineages(tables, lineage) && t in tables && i < |tables[t].entries| && tables[t].entries[i].inUse
    requires Within(target, tables[t].entries[i].rights) && MayDuplicate(tables[t].entries[i].rights)
    ensures (t, i) in lineage && Descends(lineage[(t, i)] + [target], target)
  {
    hide Within, Shrinks, MayDuplicate, HasBit5;
    MayDuplicateIff(tables[t].entries[i].rights);
    ShrinksStep(lineage[(t, i)], target);
  }

  lemma EntryRefStep(tables: map<nat, Table>, objects: map<nat, Object>, outside: map<nat, nat>, t: nat, i: nat)
    requires TablesOk(tables, objects) && Counted(tables, objects, outside) && t in tables && i < CAPACITY
    requires tables[t].entries[i].inUse
    ensures var o := tables[t].entries[i].obj;
            && o in objects && o in outside && TablesOk(tables, objects[o := Referenced(objects[o])])
            && Counted(tables, objects[o := Referenced(objects[o])], outside[o := outside[o] + 1])
  {
    hide Referrers;
    LiveReferent(tables, objects, outside, t, i);
  }

  /** One reference fewer; the destructor runs when none is left. */
  function Dropped(x: Object): Object
    requires x.refcount > 0
  {
    Object(x.refcount - 1, x.destructor, if x.refcount == 1 && x.destructor then x.runs + 1 else x.runs)
  }

  lemma RefStep(tables: map<nat, Table>, objects: map<nat, Object>, outside: map<nat, nat>, o: nat)
    requires TablesOk(tables, objects) && Counted(tables, objects, outside) && o in outside && outside[o] > 0
    ensures o in objects && TablesOk(tables, objects[o := Referenced(objects[o])])
    ensures Counted(tables, objects[o := Referenced(objects[o])], outside[o := outside[o] + 1])
  {
    hide Referrers;
  }

  lemma UnrefStep(tables: map<nat, Table>, objects: map<nat, Object>, outside: map<nat, nat>, o: nat)
    requires TablesOk(tables, objects) && Counted(tables, objects, outside) && o in outside && outside[o] > 0
    ensures o in objects && objects[o].refcount > 0 && TablesOk(tables, objects[o := Dropped(objects[o])])
    ensures Counted(tables, objects[o := Dropped(objects[o])], outside[o := outside[o] - 1])
    ensures objects[o].refcount == 1 ==> Referrers(tables, o) == {} && objects[o].runs == 0
  {
    hide Referrers;
  }

  lemma NewObjectStep(tables: map<nat, Table>, objects: map<nat, Object>, outside: map<nat, nat>, o: nat,
                      destructor: bool)
    requires TablesOk(tables, objects) && Counted(tables, objects, outside) && o !in objects && o > 0
    ensures TablesOk(tables, objects[o := Object(1, destructor, 0)])
    ensures Counted(tables, objects[o := Object(1, destructor, 0)], outside[o := 1])
  {
    assert Referrers(tables, o) == {};
  }

  // ------------------------------------------------------------ the state machine of the regions

  datatype State = State(tables: map<nat, Table>, objects: map<nat, Object>, outside: map<nat, nat>,
                         closes: map<Slot, nat>, lineage: map<Slot, seq<bv32>>, inFlight: seq<(nat, bv32)>,
                         chains: seq<seq<bv32>>)

  ghost predicate InFlightOk(inFlight: seq<(nat, bv32)>, chains: seq<seq<bv32>>)
  {
    |chains| == |inFlight| && forall k | 0 <= k < |chains| :: Descends(chains[k], inFlight[k].1)
  }

  ghost predicate Sound(s: State)
  {
    Consistent(s.tables, s.objects, s.outside, s.closes, s.lineage) && InFlightOk(s.inFlight, s.chains)
  }

  /** Some code outside the tables holds a reference to o. */
  ghost predicate HeldIn(s: State, o: nat)
  {
    o in s.objects && o in s.outside && s.outside[o] > 0
  }

  function WithObject(s: State, o: nat, destructor: bool): State
  {
    s.(objects := s.objects[o := Object(1, destructor, 0)], outside := s.outside[o := 1])
  }

  function Reffed(s: State, o: nat): State
    requires o in s.objects && o in s.outside
  {
    s.(objects := s.objects[o := Referenced(s.objects[o])], outside := s.outside[o := s.outside[o] + 1])
  }

  function Unreffed(s: State, o: nat): State
    requires o in s.objects && o in s.outside && s.objects[o].refcount > 0 && s.outside[o] > 0
  {
    s.(objects := s.objects[o := Dropped(s.objects[o])], outside := s.outside[o := s.outside[o] - 1])
  }

  /** A table number never used before. */
  ghost predicate UnusedTable(s: State, t: nat)
  {
    t !in s.tables && forall slot | slot in s.closes :: slot.0 != t
  }

  ghost function WithTable(s: State, t: nat): State
  {
    s.(tables := s.tables[t := NewTableValue()], closes := NoCloses(s.closes, t))
  }

  predicate FirstFree(table: Table, i: nat)
  {
    i < |table.entries| && !table.entries[i].inUse && forall j | 0 <= j < i :: table.entries[j].inUse
  }

  function Occupied(s: State, t: nat, i: nat, o: nat, rights: bv32, chain: seq<bv32>): State
    requires t in s.tables && i < |s.tables[t].entries| && o in s.objects
  {
    s.(tables := SetEntry(s.tables, t, i, Entry(o, rights, s.tables[t].entries[i].generation, true),
        s.tables[t].count + 1),
       objects := s.objects[o := Referenced(s.objects[o])], lineage := s.lineage[(t, i) := chain])
  }

  /** handle_create: the first free slot, or nothing. */
  ghost predicate Issues(s: State, s': State, t: nat, o: nat, rights: bv32, chain: seq<bv32>)
  {
    if HeldIn(s, o) && t in s.tables && !Full(s.tables[t])
    then exists i: nat :: FirstFree(s.tables[t], i) && s' == Occupied(s, t, i, o, rights, chain)
    else s' == s
  }

  /** Emptying a slot in use: its reference becomes the closer's. */
  function ClearSlot(s: State, t: nat, i: nat): State
  {
    if t in s.tables && i < |s.tables[t].entries| && s.tables[t].entries[i].inUse && s.tables[t].count > 0
       && s.tables[t].entries[i].obj in s.outside && (t, i) in s.closes
    then
      var e := s.tables[t].entries[i];
      s.(tables := SetEntry(s.tables, t, i, Entry(0, 0, NextGeneration(e.generation), false), s.tables[t].count - 1),
         outside := s.outside[e.obj := s.outside[e.obj] + 1], closes := s.closes[(t, i) := s.closes[(t, i)] + 1])
    else s
  }

  function ClearSlots(s: State, t: nat, n: nat): State
  {
    if n == 0 then s else ClearSlot(ClearSlots(s, t, n - 1), t, n - 1)
  }

  function Dropped1<T>(xs: seq<T>, k: nat): seq<T>
    requires k < |xs|
  {
    xs[..k] + xs[k + 1..]
  }

  /** The first region of handle_duplicate: a temporary reference, and rights within those of the handle. */
  ghost predicate Duplicates(s: State, s': State, t: nat, h: nat, rights: bv32)
  {
    if ResolvesIn(s.tables, t, h) && Duplicable(s.tables[t].entries[HandleIndex(h)].rights, rights) then
      var e := s.tables[t].entries[HandleIndex(h)];
      var target := Granted(e.rights, rights);
      && e.obj in s.objects && e.obj in s.outside && (t, HandleIndex(h)) in s.lineage
      && s' == Reffed(s, e.obj).(inFlight := s.inFlight + [(e.obj, target)],
          chains := s.chains + [s.lineage[(t, HandleIndex(h))] + [target]])
    else s' == s
  }

  /** The second region of handle_duplicate. */
  ghost predicate Copies(s: State, s': State, t: nat, k: nat)
  {
    if k < |s.inFlight| == |s.chains| && HeldIn(s, s.inFlight[k].0) then
      Issues(s.(inFlight := Dropped1(s.inFlight, k), chains := Dropped1(s.chains, k)), s', t, s.inFlight[k].0,
          s.inFlight[k].1, s.chains[k])
    else s' == s
  }

  /** The second half of a duplication uses up the first, and no other, whether or not a slot is free. */
  lemma CopyConsumes(s: State, s': State, t: nat, k: nat)
    requires Copies(s, s', t, k) && k < |s.inFlight| == |s.chains| && HeldIn(s, s.inFlight[k].0)
    ensures |s'.inFlight| == |s.inFlight| - 1
    ensures forall i | 0 <= i < |s'.inFlight| :: s'.inFlight[i] == s.inFlight[if i < k then i else i + 1]
  {
    hide Full, FirstFree;
  }

  ghost predicate Next(op: Op, s: State, s': State)
  {
    match op
    case NewObject(destructor) => exists o: nat :: o != 0 && o !in s.objects && s' == WithObject(s, o, destructor)
    case Ref(o) => s' == if HeldIn(s, o) then Reffed(s, o) else s
    case Unref(o) => s' == if HeldIn(s, o) && s.objects[o].refcount > 0 then Unreffed(s, o) else s
    case NewTable(granted) => if granted then exists t: nat :: UnusedTable(s, t) && s' == WithTable(s, t) else s' == s
    case Create(t, o, rights) => Issues(s, s', t, o, rights, [rights])
    case Close(t, h) => s' == if ResolvesIn(s.tables, t, h) then ClearSlot(s, t, HandleIndex(h)) else s
    case Duplicate(t, h, rights) => Duplicates(s, s', t, h, rights)
    case CreateCopy(t, k) => Copies(s, s', t, k)
    case Clear(t) => s' == ClearSlots(s, t, CAPACITY)
    case Free(t) => s' == if t in s.tables && Empty(s.tables[t]) then s.(tables := s.tables - {t}) else s
  }

  ghost predicate Trace(ops: seq<Op>, ss: seq<State>)
  {
    |ss| == |ops| + 1 && forall i, j | 0 <= i < |ops| && j == i + 1 :: Next(ops[i], ss[i], ss[j])
  }

  lemma IssuesIf(s: State, s': State, t: nat, h: nat, o: nat, rights: bv32, chain: seq<bv32>)
    requires h == 0 <==> o == 0 || t !in s.tables || Full(s.tables[t])
    requires o == 0 || HeldIn(s, o)
    requires !HeldIn(s, 0)
    requires h == 0 ==> s' == s
    requires h != 0 ==> FirstFree(s.tables[t], HandleIndex(h)) && s' == Occupied(s, t, HandleIndex(h), o, rights, chain)
    ensures Issues(s, s', t, o, rights, chain)
  {
    hide Full, FirstFree, Occupied, HandleIndex;
  }

  lemma ClearSlotsStart(s: State, t: nat)
    ensures ClearSlots(s, t, 0) == s
  {
  }

  lemma ClearSlotsNext(s: State, t: nat, n: nat)
    ensures ClearSlots(s, t, n + 1) == ClearSlot(ClearSlots(s, t, n), t, n)
  {
    hide ClearSlot;
  }

  lemma {:induction false} ClearSlotsNothing(s: State, t: nat, n: nat)
    requires t !in s.tables
    ensures ClearSlots(s, t, n) == s
  {
    if n > 0 {
      ClearSlotsNothing(s, t, n - 1);
    }
  }

  lemma ClearSlotIs(s: State, t: nat, i: nat)
    requires t in s.tables && i < |s.tables[t].entries|
    ensures !s.tables[t].entries[i].inUse ==> ClearSlot(s, t, i) == s
  {
  }

  // ------------------------------------------------------------ what every region keeps

  ghost predicate LaterState(s: State, s': State)
  {
    Later(s.objects, s.closes, s'.objects, s'.closes)
  }

  lemma {:induction false} ClearSlotKeeps(s: State, t: nat, i: nat)
    requires Sound(s)
    ensures Sound(ClearSlot(s, t, i)) && LaterState(s, ClearSlot(s, t, i))
  {
    hide TablesOk, Counted, Generations, Lineages, InFlightOk, NextGeneration;
    if ClearSlot(s, t, i) != s {
      TableSizeIn(s, t);
      ClearStep(s.tables, s.objects, s.outside, s.closes, s.lineage, t, i);
    }
  }

  lemma TableSizeIn(s: State, t: nat)
    requires Sound(s) && t in s.tables
    ensures |s.tables[t].entries| == CAPACITY
  {
    hide Counted, Generations, Lineages, InFlightOk;
  }

  lemma {:induction false} ClearSlotsKeeps(s: State, t: nat, n: nat)
    requires Sound(s)
    ensures Sound(ClearSlots(s, t, n)) && LaterState(s, ClearSlots(s, t, n))
  {
    hide Sound, ClearSlot;
    if n == 0 {
      LaterRefl(s.objects, s.closes);
    } else {
      var s1 := ClearSlots(s, t, n - 1);
      ClearSlotsKeeps(s, t, n - 1);
      ClearSlotKeeps(s1, t, n - 1);
      LaterTrans(s.objects, s.closes, s1.objects, s1.closes, ClearSlot(s1, t, n - 1).objects,
          ClearSlot(s1, t, n - 1).closes);
    }
  }

  lemma IssuesKeeps(s: State, s': State, t: nat, o: nat, rights: bv32, chain: seq<bv32>)
    requires Sound(s) && Issues(s, s', t, o, rights, chain) && Descends(chain, rights)
    ensures Sound(s') && LaterState(s, s')
  {
    hide TablesOk, Counted, Generations, Lineages, InFlightOk, Descends, Full;
    if HeldIn(s, o) && t in s.tables && !Full(s.tables[t]) {
      TableSizeIn(s, t);
      var i: nat :| FirstFree(s.tables[t], i) && s' == Occupied(s, t, i, o, rights, chain);
      OccupyStep(s.tables, s.objects, s.outside, s.closes, s.lineage, t, i, o, rights, chain);
    }
  }

  lemma DuplicatesKeeps(s: State, s': State, t: nat, h: nat, rights: bv32)
    requires Sound(s) && Duplicates(s, s', t, h, rights)
    ensures Sound(s') && LaterState(s, s')
  {
    hide TablesOk, Counted, Generations, Lineages, Descends, Within, MayDuplicate, Granted;
    if ResolvesIn(s.tables, t, h) && Duplicable(s.tables[t].entries[HandleIndex(h)].rights, rights) {
      var e := s.tables[t].entries[HandleIndex(h)];
      LineageStep(s.tables, s.lineage, t, HandleIndex(h), Granted(e.rights, rights));
      EntryRefStep(s.tables, s.objects, s.outside, t, HandleIndex(h));
    }
  }

  lemma CopiesKeeps(s: State, s': State, t: nat, k: nat)
    requires Sound(s) && Copies(s, s', t, k)
    ensures Sound(s') && LaterState(s, s')
  {
    hide TablesOk, Counted, Generations, Lineages, Descends, Issues;
    if k < |s.inFlight| == |s.chains| && HeldIn(s, s.inFlight[k].0) {
      var base := s.(inFlight := Dropped1(s.inFlight, k), chains := Dropped1(s.chains, k));
      IssuesKeeps(base, s', t, s.inFlight[k].0, s.inFlight[k].1, s.chains[k]);
    }
  }

  lemma NewObjectKeeps(s: State, o: nat, destructor: bool)
    requires Sound(s) && o != 0 && o !in s.objects
    ensures Sound(WithObject(s, o, destructor)) && LaterState(s, WithObject(s, o, destructor))
  {
    hide TablesOk, Counted, Generations, Lineages, InFlightOk;
    NewObjectStep(s.tables, s.objects, s.outside, o, destructor);
  }

  lemma RefKeeps(s: State, o: nat)
    requires Sound(s) && HeldIn(s, o)
    ensures Sound(Reffed(s, o)) && LaterState(s, Reffed(s, o))
  {
    hide TablesOk, Counted, Generations, Lineages, InFlightOk;
    RefStep(s.tables, s.objects, s.outside, o);
  }

  lemma UnrefKeeps(s: State, o: nat)
    requires Sound(s) && HeldIn(s, o) && s.objects[o].refcount > 0
    ensures Sound(Unreffed(s, o)) && LaterState(s, Unreffed(s, o))
  {
    hide TablesOk, Counted, Generations, Lineages, InFlightOk;
    UnrefStep(s.tables, s.objects, s.outside, o);
  }

  lemma NewTableKeeps(s: State, t: nat)
    requires Sound(s) && UnusedTable(s, t)
    ensures Sound(WithTable(s, t)) && LaterState(s, WithTable(s, t))
  {
    hide TablesOk, Counted, Generations, Lineages, InFlightOk, NewTableValue;
    NewTableStep(s.tables, s.objects, s.outside, s.closes, s.lineage, t);
  }

  lemma FreeKeeps(s: State, t: nat)
    requires Sound(s) && t in s.tables && Empty(s.tables[t])
    ensures Sound(s.(tables := s.tables - {t})) && LaterState(s, s.(tables := s.tables - {t}))
  {
    hide TablesOk, Counted, Generations, Lineages, InFlightOk, Empty;
    FreeTableStep(s.tables, s.objects, s.outside, s.closes, s.lineage, t);
  }

  /** Every region keeps the invariant; destructors that ran stay run, slots are only closed more often. */
  lemma NextKeeps(op: Op, s: State, s': State)
    requires Sound(s) && Next(op, s, s')
    ensures Sound(s') && LaterState(s, s')
  {
    hide Sound, Issues, Duplicates, Copies, ClearSlot, ClearSlots, WithTable, UnusedTable, ResolvesIn, Empty, Descends;
    hide Later;
    hide WithObject, Reffed, Unreffed;
    LaterRefl(s.objects, s.closes);
    match op
    case Create(t, o, rights) =>
      Origin(rights);
      IssuesKeeps(s, s', t, o, rights, [rights]);
    case NewTable(granted) =>
      if granted {
        var t: nat :| UnusedTable(s, t) && s' == WithTable(s, t);
        NewTableKeeps(s, t);
      }
    case Close(t, h) => ClearSlotKeeps(s, t, HandleIndex(h));
    case Duplicate(t, h, rights) => DuplicatesKeeps(s, s', t, h, rights);
    case CreateCopy(t, k) => CopiesKeeps(s, s', t, k);
    case Clear(t) => ClearSlotsKeeps(s, t, CAPACITY);
    case Free(t) =>
      if t in s.tables && Empty(s.tables[t]) {
        FreeKeeps(s, t);
      }
    case NewObject(destructor) =>
      var o: nat :| o != 0 && o !in s.objects && s' == WithObject(s, o, destructor);
      NewObjectKeeps(s, o, destructor);
    case Ref(o) =>
      if HeldIn(s, o) {
        RefKeeps(s, o);
      }
    case Unref(o) =>
      if HeldIn(s, o) && s.objects[o].refcount > 0 {
        UnrefKeeps(s, o);
      }
  }

  /** The count of an object is exact, and its destructor ran once exactly when nothing refers to it any more. */
  lemma Accounting(s: State, o: nat)
    requires Sound(s) && o in s.objects
    ensures o in s.outside && s.objects[o].refcount == s.outside[o] + |Referrers(s.tables, o)|
    ensures s.objects[o].runs <= 1
    ensures s.objects[o].runs == 1 <==> s.objects[o].destructor && s.outside[o] == 0 && Referrers(s.tables, o) == {}
    ensures forall t, i | (t, i) in Referrers(s.tables, o) :: s.objects[o].runs == 0
  {
    hide Referrers, TablesOk, Generations, Lineages, InFlightOk;
  }

  /** Along every chain of duplications the rights only shrink, and a handle without bit 5 is never duplicated. */
  lemma RightsShrink(s: State, t: nat, i: nat, k: nat)
    requires Sound(s) && t in s.tables && i < |s.tables[t].entries| && s.tables[t].entries[i].inUse
    ensures (t, i) in s.lineage
    ensures k < |s.lineage[(t, i)]| ==> Within(s.tables[t].entries[i].rights, s.lineage[(t, i)][k])
    ensures k + 1 < |s.lineage[(t, i)]| ==> HasBit5(s.lineage[(t, i)][k])
  {
    hide TablesOk, Counted, Generations, Within, HasBit5, InFlightOk;
  }

  // ------------------------------------------------------------ whole runs

  lemma {:induction false} TraceKeeps(ops: seq<Op>, ss: seq<State>, i: nat, k: nat)
    requires Trace(ops, ss) && Sound(ss[0]) && i <= k < |ss|
    ensures Sound(ss[k]) && LaterState(ss[i], ss[k])
    decreases k
  {
    hide Sound, Next, Later;
    if k > 0 {
      TraceKeeps(ops, ss, if i < k then i else k - 1, k - 1);
      NextKeeps(ops[k - 1], ss[k - 1], ss[k]);
    }
    if i == k {
      LaterRefl(ss[k].objects, ss[k].closes);
    } else {
      LaterTrans(ss[i].objects, ss[i].closes, ss[k - 1].objects, ss[k - 1].closes, ss[k].objects, ss[k].closes);
    }
  }

  /** A slot in use. */
  ghost predicate Open(s: State, t: nat, i: nat)
  {
    t in s.tables && i < |s.tables[t].entries| && s.tables[t].entries[i].inUse && (t, i) in s.closes
  }

  /** The slot is in use as before, unless it was closed. */
  ghost predicate StillOpen(s: State, s': State, t: nat, i: nat)
    requires Open(s, t, i)
  {
    (t, i) in s'.closes && s.closes[(t, i)] <= s'.closes[(t, i)]
    && (s'.closes[(t, i)] == s.closes[(t, i)] ==> Open(s', t, i) && s'.tables[t].entries[i] == s.tables[t].entries[i])
  }

  lemma StillOpenTrans(s: State, s1: State, s2: State, t: nat, i: nat)
    requires Open(s, t, i) && StillOpen(s, s1, t, i)
    requires if Open(s1, t, i) then StillOpen(s1, s2, t, i)
             else (t, i) in s2.closes && s1.closes[(t, i)] <= s2.closes[(t, i)]
    ensures StillOpen(s, s2, t, i)
  {
  }

  lemma ClearSlotOpen(s: State, t: nat, i: nat, u: nat, j: nat)
    requires Open(s, t, i)
    ensures StillOpen(s, ClearSlot(s, u, j), t, i)
  {
    hide NextGeneration;
  }

  lemma {:induction false} ClearSlotsOpen(s: State, t: nat, i: nat, u: nat, n: nat)
    requires Sound(s) && Open(s, t, i)
    ensures StillOpen(s, ClearSlots(s, u, n), t, i)
  {
    hide Sound, ClearSlot;
    if n > 0 {
      var s1 := ClearSlots(s, u, n - 1);
      ClearSlotsOpen(s, t, i, u, n - 1);
      ClearSlotsKeeps(s, u, n - 1);
      ClearSlotKeeps(s1, u, n - 1);
      if Open(s1, t, i) {
        ClearSlotOpen(s1, t, i, u, n - 1);
      }
      StillOpenTrans(s, s1, ClearSlot(s1, u, n - 1), t, i);
    }
  }

  lemma IssuesOpen(s: State, s': State, u: nat, o: nat, rights: bv32, chain: seq<bv32>, t: nat, i: nat)
    requires Issues(s, s', u, o, rights, chain) && Open(s, t, i)
    ensures StillOpen(s, s', t, i)
  {
    hide Full, HeldIn;
  }

  lemma NewTableOpen(s: State, u: nat, t: nat, i: nat)
    requires UnusedTable(s, u) && Open(s, t, i)
    ensures StillOpen(s, WithTable(s, u), t, i)
  {
    hide NewTableValue;
  }

  /** No region touches a slot in use without closing it. */
  lemma NextOpen(op: Op, s: State, s': State, t: nat, i: nat)
    requires Sound(s) && Next(op, s, s') && Open(s, t, i)
    ensures StillOpen(s, s', t, i)
  {
    hide Sound, Issues, ClearSlot, ClearSlots, WithTable, UnusedTable, ResolvesIn, Descends, Duplicable, Granted;
    match op
    case Create(u, o, rights) => IssuesOpen(s, s', u, o, rights, [rights], t, i);
    case NewTable(granted) =>
      if granted {
        var u: nat :| UnusedTable(s, u) && s' == WithTable(s, u);
        NewTableOpen(s, u, t, i);
      }
    case Close(u, h) => ClearSlotOpen(s, t, i, u, HandleIndex(h));
    case CreateCopy(u, k) =>
      if k < |s.inFlight| == |s.chains| && HeldIn(s, s.inFlight[k].0) {
        var base := s.(inFlight := Dropped1(s.inFlight, k), chains := Dropped1(s.chains, k));
        IssuesOpen(base, s', u, s.inFlight[k].0, s.inFlight[k].1, s.chains[k], t, i);
      }
    case Clear(u) => ClearSlotsOpen(s, t, i, u, CAPACITY);
    case _ =>
  }

  lemma {:induction false} TraceOpen(ops: seq<Op>, ss: seq<State>, i: nat, k: nat, t: nat, n: nat)
    requires Trace(ops, ss) && Sound(ss[0]) && i <= k < |ss| && Open(ss[i], t, n)
    ensures StillOpen(ss[i], ss[k], t, n)
    decreases k
  {
    hide Sound, Next, Open, StillOpen;
    if i < k {
      TraceOpen(ops, ss, i, k - 1, t, n);
      TraceKeeps(ops, ss, i, k - 1);
      NextKeeps(ops[k - 1], ss[k - 1], ss[k]);
      if Open(ss[k - 1], t, n) {
        NextOpen(ops[k - 1], ss[k - 1], ss[k], t, n);
      }
      ClosesGrow(ss[i], ss[k - 1], ss[k], t, n);
      StillOpenTrans(ss[i], ss[k - 1], ss[k], t, n);
    } else {
      StillOpenRefl(ss[i], t, n);
    }
  }

  lemma StillOpenRefl(s: State, t: nat, n: nat)
    requires Open(s, t, n)
    ensures StillOpen(s, s, t, n)
  {
  }

  lemma ClosesGrow(s0: State, s: State, s': State, t: nat, n: nat)
    requires Open(s0, t, n) && StillOpen(s0, s, t, n) && LaterState(s, s')
    ensures (t, n) in s.closes && (t, n) in s'.closes && s.closes[(t, n)] <= s'.closes[(t, n)]
  {
  }

  /**
   * An object that a lookup returned without a reference lives as long as the slot is not closed: until then the slot
   * holds the same entry, so the handle still resolves to the object, which has a reference and whose destructor has
   * not run.
   */
  lemma LookupLasts(ops: seq<Op>, ss: seq<State>, i: nat, k: nat, t: nat, h: nat)
    requires Trace(ops, ss) && Sound(ss[0]) && i <= k < |ss| && ResolvesIn(ss[i].tables, t, h)
    ensures (t, HandleIndex(h)) in ss[i].closes && (t, HandleIndex(h)) in ss[k].closes
    ensures ss[k].closes[(t, HandleIndex(h))] == ss[i].closes[(t, HandleIndex(h))] ==>
              && ResolvesIn(ss[k].tables, t, h)
                  && ss[k].tables[t].entries[HandleIndex(h)] == ss[i].tables[t].entries[HandleIndex(h)]
              && Alive(ss[k], ss[i].tables[t].entries[HandleIndex(h)].obj)
  {
    hide Next, HandleIndex, HandleGeneration, Sound, Alive;
    var n := HandleIndex(h);
    TraceKeeps(ops, ss, 0, i);
    TraceKeeps(ops, ss, 0, k);
    OpenNow(ss[i], t, h);
    TraceOpen(ops, ss, i, k, t, n);
    SizeAt(ss[k], t);
    if Open(ss[k], t, n) {
      OpenAlive(ss[k], t, n);
    }
  }

  /** The object is known, referenced, and not destroyed. */
  ghost predicate Alive(s: State, o: nat)
  {
    o in s.objects && s.objects[o].refcount > 0 && s.objects[o].runs == 0
  }

  lemma OpenNow(s: State, t: nat, h: nat)
    requires Sound(s) && ResolvesIn(s.tables, t, h)
    ensures Open(s, t, HandleIndex(h))
  {
    hide TablesOk, Counted, Lineages, InFlightOk, GenerationAfter, HandleIndex, HandleGeneration;
  }

  lemma OpenAlive(s: State, t: nat, n: nat)
    requires Sound(s) && Open(s, t, n)
    ensures Alive(s, s.tables[t].entries[n].obj)
  {
    hide Counted, Lineages, InFlightOk, Generations;
    LiveReferent(s.tables, s.objects, s.outside, t, n);
  }

  /** A handle that resolves at two points of a run: its slot was closed a multiple of 65535 times in between. */
  lemma SameHandle(ops: seq<Op>, ss: seq<State>, i: nat, k: nat, t: nat, h: nat)
    requires Trace(ops, ss) && Sound(ss[0]) && i <= k < |ss| && ResolvesIn(ss[i].tables, t, h)
    requires ResolvesIn(ss[k].tables, t, h)
    ensures Wrapped(ss[i].closes, ss[k].closes, (t, HandleIndex(h)))
  {
    hide Next, TablesOk, Counted, Lineages, InFlightOk, GenerationAfter, HandleIndex, HandleGeneration;
    TraceKeeps(ops, ss, 0, i);
    TraceKeeps(ops, ss, i, k);
    var s := (t, HandleIndex(h));
    assert s in ss[i].closes && s in ss[k].closes;
    GenerationsAgree(ss[i].closes[s], ss[k].closes[s]);
  }

  /** And a positive number of times, if in between it did not resolve. */
  lemma StaleHandle(ops: seq<Op>, ss: seq<State>, i: nat, j: nat, k: nat, t: nat, h: nat)
    requires Trace(ops, ss) && Sound(ss[0]) && i <= j <= k < |ss|
    requires ResolvesIn(ss[i].tables, t, h) && !ResolvesIn(ss[j].tables, t, h) && ResolvesIn(ss[k].tables, t, h)
    ensures Wrapped(ss[i].closes, ss[k].closes, (t, HandleIndex(h)))
    ensures ss[k].closes[(t, HandleIndex(h))] - ss[i].closes[(t, HandleIndex(h))] >= 65535
  {
    hide Next, Sound, HandleIndex, HandleGeneration;
    SameHandle(ops, ss, i, k, t, h);
    TraceKeeps(ops, ss, 0, i);
    TraceKeeps(ops, ss, 0, j);
    TraceKeeps(ops, ss, j, k);
    TraceOpen(ops, ss, i, j, t, HandleIndex(h));
    SizeAt(ss[j], t);
    ClosesGrow(ss[i], ss[j], ss[k], t, HandleIndex(h));
  }

  lemma SizeAt(s: State, t: nat)
    requires Sound(s)
    ensures t in s.tables ==> |s.tables[t].entries| == CAPACITY
  {
    if t in s.tables {
      TableSizeIn(s, t);
    }
  }
}
