/** What the pages of an address space cost in frames, and what unmapping them gives back. */
module FrameBudget {
  import opened PageTree
  import opened Vmm
  import PageCost

  lemma ValuesCount(node: Nodes)
    requires Injective(node)
    ensures |node.Values| == |node.Keys|
  {
    var image := set l | l in node.Keys :: node[l];
    assert image == node.Values;
    ImageCardinality(node.Keys, node, image);
  }

  ghost function Absent(node: Nodes, l: Label): set<Label>
  {
    if l in node then {} else {l}
  }

  /** The tables only the page p needed. */
  ghost function Gone(node: Nodes, p: Page): set<Label>
  {
    Absent(node, OnWalk(p, 1)) + Absent(node, OnWalk(p, 2)) + Absent(node, OnWalk(p, 3))
  }

  lemma AbsentIs(node: Nodes, p: Page, k: nat)
    requires 1 <= k <= 3
    ensures |Absent(node, OnWalk(p, k))| == (if OnWalk(p, k) in node then 0 else 1)
    ensures Absent(node, OnWalk(p, k)) !! node.Keys
    ensures forall l | l in Absent(node, OnWalk(p, k)) :: l.level == k
  {
  }

  lemma GoneCount(node: Nodes, p: Page)
    ensures |Gone(node, p)| == MissingBelow(node, p, 4) && Gone(node, p) !! node.Keys
  {
    hide OnWalk, Absent;
    AbsentIs(node, p, 1);
    AbsentIs(node, p, 2);
    AbsentIs(node, p, 3);
    var one, two, three := Absent(node, OnWalk(p, 1)), Absent(node, OnWalk(p, 2)), Absent(node, OnWalk(p, 3));
    assert one !! two && one + two !! three;
    assert |one + two| == |one| + |two|;
    assert MissingBelow(node, p, 2) == |one|;
    assert MissingBelow(node, p, 3) == |one + two|;
  }

  /** Removing a page removes exactly the tables only it needed. */
  lemma TablesGiven(m0: Memory, n0: Nodes, v0: View, m1: Memory, n1: Nodes, p: Page)
    requires Tree(m0, n0, v0) && Compact(n0, v0, {}) && p in v0 && Extends(n1, n0)
    requires Tree(m1, n1, v0 - {p}) && Compact(n1, v0 - {p}, {})
    ensures n0.Keys == n1.Keys + Gone(n1, p)
  {
    hide Tree, Compact, Prefixes, Gone;
    forall l: Label
      ensures l in n0 <==> l in n1 || l in Gone(n1, p)
    {
      LabelLevels(m0, n0, v0, l);
      LabelLevels(m1, n1, v0 - {p}, l);
      GoneIs(n1, p, l);
      if 1 <= l.level <= 3 {
        TablesArePrefixes(m0, n0, v0, l.root, l.level);
        TablesArePrefixes(m1, n1, v0 - {p}, l.root, l.level);
        assert l in LabelsAt(n0, l.root, l.level) <==> l in n0;
        assert l in LabelsAt(n1, l.root, l.level) <==> l in n1;
        PrefixesLess(v0, p, l.root, l.level, l.prefix);
      }
    }
  }

  lemma GoneIs(node: Nodes, p: Page, l: Label)
    ensures l in Gone(node, p) <==> 1 <= l.level <= 3 && l == OnWalk(p, l.level) && l !in node
  {
  }

  lemma PrefixesLess(view: View, p: Page, r: nat, k: nat, q: nat)
    requires 1 <= k <= 3 && p in view
    ensures q in Prefixes(view, r, k) <==> q in Prefixes(view - {p}, r, k) || (p.root == r && OnWalk(p, k).prefix == q)
  {
    hide OnWalk;
    if q in Prefixes(view, r, k) {
      var x :| x in view && x.root == r && OnWalk(x, k).prefix == q;
      assert x != p ==> x in view - {p};
    }
  }

  lemma Budget(free0: set<nat>, n0: Nodes, free1: set<nat>, n1: Nodes, gone: set<Label>)
    requires free0 + n0.Values == free1 + n1.Values && free0 !! n0.Values && free1 !! n1.Values
    requires Injective(n0) && Injective(n1) && n0.Keys == n1.Keys + gone && gone !! n1.Keys
    ensures |free1| == |free0| + |gone|
  {
    ValuesCount(n0);
    ValuesCount(n1);
    assert |free0 + n0.Values| == |free0| + |n0.Values|;
    assert |free1 + n1.Values| == |free1| + |n1.Values|;
  }

  /** What unmapping a page gives back. */
  lemma UnmapBudget(m0: Memory, n0: Nodes, v0: View, free0: set<nat>, m1: Memory, n1: Nodes, free1: set<nat>, p: Page)
    requires Tree(m0, n0, v0) && Compact(n0, v0, {}) && p in v0 && Extends(n1, n0)
    requires Tree(m1, n1, v0 - {p}) && Compact(n1, v0 - {p}, {})
    requires free0 + n0.Values == free1 + n1.Values && free0 !! n0.Values && free1 !! n1.Values && Injective(n0)
    requires Injective(n1)
    ensures |free1| == |free0| + TablesMissing(v0 - {p}, p)
  {
    hide Tree, Compact, Gone, Injective, TablesMissing, MissingBelow, Extends;
    TablesGiven(m0, n0, v0, m1, n1, p);
    GoneCount(n1, p);
    MissingIsMissing(m1, n1, v0 - {p}, p);
    Budget(free0, n0, free1, n1, Gone(n1, p));
  }

  // ------------------------------------------------------------ the cost of a set of pages

  /** The page numbers an address space maps. */
  ghost function Mapped(view: View, r: nat): set<nat>
  {
    set p | p in view && p.root == r :: p.vpn
  }

  /**
   * The frames that pages with these numbers take, their tables included, in an address space that starts with none.
   */
  ghost function Cost(pages: set<nat>): nat
  {
    PageCost.Cost(pages, {}, PageCost.Numbers)
  }

  lemma CostNone()
    ensures Cost({}) == 0
  {
    assert PageCost.Needed({}, PageCost.Numbers) == {};
  }

  /** One more page costs its frame and the tables no other page has paid for. */
  lemma CostAdd(pages: set<nat>, v: nat)
    requires v !in pages
    ensures Cost(pages + {v}) == Cost(pages) + 1 + Paid(pages, v, 1) + Paid(pages, v, 2) + Paid(pages, v, 3)
  {
    hide PageCost.Needed, PageCost.TableOf, PageCost.Lacking, PageCost.Cost;
    PageCost.CostAdd(pages, v, {}, PageCost.Numbers);
    var have := (PageCost.Needed(pages, PageCost.Numbers) - {}) + {};
    assert have == PageCost.Needed(pages, PageCost.Numbers);
    PageCost.LackingBelow(v, 3, have, PageCost.Numbers);
    PageCost.LackingBelow(v, 2, have, PageCost.Numbers);
    PageCost.LackingBelow(v, 1, have, PageCost.Numbers);
    PageCost.LackingNone(v, have, PageCost.Numbers);
  }

  /** What the table of level k on the way to v costs. */
  ghost function Paid(pages: set<nat>, v: nat, k: nat): nat
  {
    if PageCost.TableOf(v, k, PageCost.Numbers) in PageCost.Needed(pages, PageCost.Numbers) then 0 else 1
  }

  /** More pages never cost less. */
  lemma CostGrows(pages: set<nat>, more: set<nat>)
    requires pages <= more
    ensures Cost(pages) <= Cost(more)
  {
    hide PageCost.Cost;
    PageCost.CostGrows(pages, more, {}, PageCost.Numbers);
  }

  /** The tables of level k are named by the prefixes the mapped pages have. */
  lemma PrefixesAreNeeded(view: View, p: Page, k: nat)
    requires 1 <= k <= 3
    ensures PageCost.TableOf(p.vpn, k, PageCost.Numbers) in PageCost.Needed(Mapped(view, p.root), PageCost.Numbers) <==>
              OnWalk(p, k).prefix in Prefixes(view, p.root, k)
  {
    var pages, t := Mapped(view, p.root), PageCost.TableOf(p.vpn, k, PageCost.Numbers);
    if t in PageCost.Needed(pages, PageCost.Numbers) {
      var v, j: nat :| v in pages && j in {1, 2, 3} && t == PageCost.TableOf(v, j, PageCost.Numbers);
      var q :| q in view && q.root == p.root && q.vpn == v;
      assert OnWalk(q, k).prefix == OnWalk(p, k).prefix;
    }
    if OnWalk(p, k).prefix in Prefixes(view, p.root, k) {
      var q :| q in view && q.root == p.root && OnWalk(q, k).prefix == OnWalk(p, k).prefix;
      assert q.vpn in pages && t == PageCost.TableOf(q.vpn, k, PageCost.Numbers) && k in {1, 2, 3};
    }
  }

  lemma MappedIs(view: View, r: nat, v: nat)
    ensures v in Mapped(view, r) <==> Page(r, v) in view
  {
    if v in Mapped(view, r) {
      var p :| p in view && p.root == r && p.vpn == v;
      assert p == Page(r, v);
    }
  }

  /** Mapping a page raises the cost by its frame and the tables created for it. */
  lemma MapCost(view: View, view': View, p: Page)
    requires p !in view && view'.Keys == view.Keys + {p}
    ensures Mapped(view', p.root) == Mapped(view, p.root) + {p.vpn}
    ensures Cost(Mapped(view', p.root)) == Cost(Mapped(view, p.root)) + 1 + TablesMissing(view, p)
  {
    hide Cost, Prefixes, OnWalk, PageCost.TableOf, PageCost.Needed, Mapped;
    var pages := Mapped(view, p.root);
    MappedIs(view, p.root, p.vpn);
    forall v
      ensures v in Mapped(view', p.root) <==> v in pages + {p.vpn}
    {
      MappedIs(view, p.root, v);
      MappedIs(view', p.root, v);
    }
    PrefixesAreNeeded(view, p, 1);
    PrefixesAreNeeded(view, p, 2);
    PrefixesAreNeeded(view, p, 3);
    CostAdd(pages, p.vpn);
  }
}
