/**
 * What pages cost in frames: one for each page, and one for each page table on the way to it, shared by all pages below
 * that table. Pages are named by their number or by their address.
 */
module PageCost {
  import opened Pmm

  /** How pages are named. */
  datatype Unit = Numbers | Addresses

  /** The distance between two of them. */
  function Stride(unit: Unit): (n: nat)
    ensures n > 0
  {
    if unit.Numbers? then 1 else FRAME_SIZE
  }

  /** A table below the PML4: level 1 holds pages, and a table of the next level holds 512 tables. */
  datatype TableId = TableId(level: nat, prefix: nat)

  /** What a table covers, counted in the same way. */
  function Span(level: nat, unit: Unit): (n: nat)
    ensures n > 0
  {
    if level <= 1 then 512 * Stride(unit) else if level == 2 then 512 * 512 * Stride(unit)
        else 512 * 512 * 512 * Stride(unit)
  }

  function TableOf(v: nat, level: nat, unit: Unit): (t: TableId)
    ensures t.level == level
  {
    TableId(level, v / Span(level, unit))
  }

  /** A table of level 1 covers 2 MiB of addresses, one of level 2 covers 1 GiB and one of level 3 covers 512 GiB. */
  lemma TablesOfAddress(v: nat)
    ensures TableOf(v, 1, Addresses) == TableId(1, v / 0x20_0000)
    ensures TableOf(v, 2, Addresses) == TableId(2, v / 0x4000_0000)
    ensures TableOf(v, 3, Addresses) == TableId(3, v / 0x80_0000_0000)
    ensures forall k | 1 <= k <= 3 :: TableOf(v / 0x1000, k, Numbers) == TableOf(v, k, Addresses)
  {
  }

  function Above(t: TableId): TableId
  {
    TableId(t.level + 1, t.prefix / 512)
  }

  lemma WalkUp(v: nat, level: nat, unit: Unit)
    requires 1 <= level <= 2
    ensures Above(TableOf(v, level, unit)) == TableOf(v, level + 1, unit)
  {
    if unit.Numbers? {
      assert v / 512 / 512 == v / (512 * 512) && v / (512 * 512) / 512 == v / (512 * 512 * 512);
    }
  }

  /** Tables that are there anyway come with the tables above them. */
  ghost predicate Rooted(boot: set<TableId>)
  {
    forall t | t in boot && 1 <= t.level <= 2 :: Above(t) in boot
  }

  ghost function Needed(pages: set<nat>, unit: Unit): set<TableId>
  {
    set v, k: nat | v in pages && k in {1, 2, 3} :: TableOf(v, k, unit)
  }

  lemma NeededAdd(pages: set<nat>, v: nat, unit: Unit)
    ensures Needed(pages + {v}, unit) ==
              Needed(pages, unit) + {TableOf(v, 1, unit), TableOf(v, 2, unit), TableOf(v, 3, unit)}
  {
    forall t | t in Needed(pages, unit) + {TableOf(v, 1, unit), TableOf(v, 2, unit), TableOf(v, 3, unit)}
      ensures t in Needed(pages + {v}, unit)
    {
      if t in Needed(pages, unit) {
        var w, k: nat :| w in pages && k in {1, 2, 3} && t == TableOf(w, k, unit);
        assert w in pages + {v};
      } else {
        assert v in pages + {v};
        assert t.level in {1, 2, 3} && t == TableOf(v, t.level, unit);
      }
    }
  }

  /** The frames that these pages take, with the tables that are not there anyway. */
  ghost function Cost(pages: set<nat>, boot: set<TableId>, unit: Unit): nat
  {
    |pages| + |Needed(pages, unit) - boot|
  }

  /** More pages never cost less. */
  lemma CostGrows(pages: set<nat>, more: set<nat>, boot: set<TableId>, unit: Unit)
    requires pages <= more
    ensures Cost(pages, boot, unit) <= Cost(more, boot, unit)
  {
    forall t | t in Needed(pages, unit)
      ensures t in Needed(more, unit)
    {
      var v, k: nat :| v in pages && k in {1, 2, 3} && t == TableOf(v, k, unit);
      assert v in more;
    }
    SubsetCardinality(pages, more);
    SubsetCardinality(Needed(pages, unit) - boot, Needed(more, unit) - boot);
  }

  /** The tables up to `level` on the way to v that are not among `have`. */
  ghost function Lacking(v: nat, level: nat, have: set<TableId>, unit: Unit): set<TableId>
  {
    if level == 0 then {} else Lacking(v, level - 1, have, unit) + if TableOf(v, level, unit) in have then {}
        else {TableOf(v, level, unit)}
  }

  lemma {:induction false} LackingIs(v: nat, level: nat, have: set<TableId>, t: TableId, unit: Unit)
    ensures t in Lacking(v, level, have, unit) <==>
              1 <= t.level <= level && t == TableOf(v, t.level, unit) && t !in have
  {
    if level > 0 {
      LackingIs(v, level - 1, have, t, unit);
    }
  }

  lemma LackingStep(v: nat, level: nat, have: set<TableId>, unit: Unit)
    requires level > 0
    ensures Lacking(v, level, have, unit) == Lacking(v, level - 1, have, unit) + if TableOf(v, level, unit) in have
              then {} else {TableOf(v, level, unit)}
  {
  }

  lemma LackingNone(v: nat, have: set<TableId>, unit: Unit)
    ensures Lacking(v, 0, have, unit) == {}
  {
  }

  /** Having the table of a level changes nothing below. */
  lemma {:induction false} LackingBelow(v: nat, level: nat, have: set<TableId>, unit: Unit)
    requires level > 0
    ensures Lacking(v, level - 1, have + {TableOf(v, level, unit)}, unit) == Lacking(v, level - 1, have, unit)
    ensures TableOf(v, level, unit) !in Lacking(v, level - 1, have, unit)
    ensures |Lacking(v, level, have, unit)| == |Lacking(v, level - 1, have, unit)| + if TableOf(v, level, unit) in have
              then 0 else 1
  {
    hide Lacking, TableOf;
    var less, same := Lacking(v, level - 1, have + {TableOf(v, level, unit)}, unit), Lacking(v, level - 1, have, unit);
    forall t | t in less || t in same
      ensures t in less && t in same
    {
      LackingIs(v, level - 1, have, t, unit);
      LackingIs(v, level - 1, have + {TableOf(v, level, unit)}, t, unit);
    }
    LackingIs(v, level - 1, have, TableOf(v, level, unit), unit);
    LackingStep(v, level, have, unit);
  }

  /** One more page costs its frame and the tables it lacks. */
  lemma CostAdd(pages: set<nat>, v: nat, boot: set<TableId>, unit: Unit)
    requires v !in pages
    ensures Needed(pages + {v}, unit) - boot ==
              (Needed(pages, unit) - boot) + Lacking(v, 3, (Needed(pages, unit) - boot) + boot, unit)
    ensures Cost(pages + {v}, boot, unit) ==
              Cost(pages, boot, unit) + 1 + |Lacking(v, 3, (Needed(pages, unit) - boot) + boot, unit)|
  {
    hide Needed, TableOf;
    NeededAdd(pages, v, unit);
    var have := (Needed(pages, unit) - boot) + boot;
    forall t
      ensures t in Needed(pages + {v}, unit) - boot <==> t in (Needed(pages, unit) - boot) + Lacking(v, 3, have, unit)
      ensures t in Lacking(v, 3, have, unit) ==> t !in Needed(pages, unit) - boot
    {
      LackingIs(v, 3, have, t, unit);
      Levels(v, t, unit);
    }
  }

  lemma Levels(v: nat, t: TableId, unit: Unit)
    ensures t in {TableOf(v, 1, unit), TableOf(v, 2, unit), TableOf(v, 3, unit)} <==>
              1 <= t.level <= 3 && t == TableOf(v, t.level, unit)
  {
  }
}
