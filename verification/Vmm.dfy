/**
 Four-level page tables (mm/vmm.c), restricted to the lower half of an address space.
 Page tables are frames of physical memory holding 512 entries; the tree they form
 refines a partial map from (address space, page number) to (frame, permissions).
 */
module PageTree {

  /** A page-table entry, decoded: the flag bits the kernel uses and the frame number. */
  datatype Entry = Entry(present: bool, writable: bool, user: bool, noExecute: bool,
                         huge: bool, ownedTable: bool, ownedMapping: bool, frame: nat)

  const EMPTY := Entry(false, false, false, false, false, false, false, 0)

  type Table = seq<Entry>

  const EMPTY_TABLE: Table := seq(512, _ => EMPTY)

  /** What a mapped page denotes. */
  datatype Leaf = Leaf(frame: nat, writable: bool, user: bool, noExecute: bool)

  /** A page of the lower half of one address space, named by its PML4 frame. */
  datatype Page = Page(root: nat, vpn: nat)

  /**
   The position of a table in the tree: level 4 is the PML4, level 1 a page table. A table of
   level k covers the pages whose number divided by 512^k is its prefix.
   */
  datatype Label = Label(root: nat, level: nat, prefix: nat)

  function TableEntry(frame: nat): Entry
  {
    Entry(true, true, true, false, false, true, false, frame)
  }

  function LeafEntry(leaf: Leaf): Entry
  {
    Entry(true, leaf.writable, leaf.user, leaf.noExecute, false, false, true, leaf.frame)
  }

  /** Number of entries of a table that belong to the lower half. */
  function Slots(level: nat): nat
  {
    if level == 4 then 256 else 512
  }

  function Child(l: Label, i: nat): Label
    requires l.level > 1
  {
    Label(l.root, l.level - 1, l.prefix * 512 + i)
  }

  function Parent(l: Label): Label
  {
    Label(l.root, l.level + 1, l.prefix / 512)
  }

  function PageAt(l: Label, i: nat): Page
  {
    Page(l.root, l.prefix * 512 + i)
  }

  function PageTableOf(p: Page): Label
  {
    Label(p.root, 1, p.vpn / 512)
  }

  predicate WellLabelled(l: Label)
  {
    || (l.level == 4 && l.prefix == 0)
    || (l.level == 3 && l.prefix < 256)
    || (l.level == 2 && l.prefix < 256 * 512)
    || (l.level == 1 && l.prefix < 256 * 512 * 512)
  }

  lemma ChildParent(l: Label, i: nat)
    requires l.level > 1 && i < 512
    ensures Parent(Child(l, i)) == l && Child(l, i).prefix % 512 == i
    ensures WellLabelled(l) && i < Slots(l.level) ==> WellLabelled(Child(l, i))
  {
  }

  lemma ParentChild(l: Label)
    requires l.level >= 1
    ensures Child(Parent(l), l.prefix % 512) == l
    ensures WellLabelled(l) && l.level < 4 ==> WellLabelled(Parent(l)) && l.prefix % 512 < Slots(l.level + 1)
  {
  }

  lemma PageInTable(p: Page)
    ensures PageAt(PageTableOf(p), p.vpn % 512) == p
  {
  }

  // -------------------------------------------------------------- invariant

  type Nodes = map<Label, nat>
  type View = map<Page, Leaf>
  type Memory = map<nat, Table>

  /** Entry `i` of the table at `l` is what the labelling and the view prescribe. */
  ghost predicate EntryOk(mem: Memory, node: Nodes, view: View, l: Label, i: nat)
    requires l in node && node[l] in mem && i < |mem[node[l]]|
  {
    mem[node[l]][i] ==
    if l.level > 1 then
      if Child(l, i) in node then TableEntry(node[Child(l, i)]) else EMPTY
    else
      if PageAt(l, i) in view then LeafEntry(view[PageAt(l, i)]) else EMPTY
  }

  ghost predicate Labels(mem: Memory, node: Nodes)
  {
    && (forall l | l in node :: WellLabelled(l) && node[l] in mem && |mem[node[l]]| == 512)
    && (forall l | l in node :: l.level == 4 ==> node[l] == l.root)
    && (forall l | l in node :: l.level < 4 ==> Parent(l) in node)
  }

  ghost predicate Injective(node: Nodes)
  {
    forall l, l' | l in node && l' in node && node[l] == node[l'] :: l == l'
  }

  ghost predicate Tree(mem: Memory, node: Nodes, view: View)
  {
    && Labels(mem, node)
    && Injective(node)
    && (forall p | p in view :: PageTableOf(p) in node)
    && (forall l, i: nat | l in node && i < Slots(l.level) :: EntryOk(mem, node, view, l, i))
  }

  ghost predicate HasEntry(node: Nodes, view: View, l: Label)
  {
    exists i: nat :: i < 512 && if l.level > 1 then Child(l, i) in node else PageAt(l, i) in view
  }

  /** Every table below the PML4 has an entry, except possibly those listed. */
  ghost predicate Compact(node: Nodes, view: View, except: set<Label>)
  {
    forall l | l in node && l.level < 4 && l !in except :: HasEntry(node, view, l)
  }

  /** Entries of the lower half point at tables or pages of the tree, or are zero. */
  lemma ReadEntry(mem: Memory, node: Nodes, view: View, l: Label, i: nat)
    requires Tree(mem, node, view) && l in node && i < Slots(l.level)
    ensures node[l] in mem && |mem[node[l]]| == 512 && EntryOk(mem, node, view, l, i)
    ensures var t := mem[node[l]]; t[i].present && l.level > 1 ==> mem[node[l] := t[i := t[i].(user := true)]] == mem
  {
    var t := mem[node[l]];
    assert EntryOk(mem, node, view, l, i);
    assert t[i := t[i]] == t;
  }

  // --------------------------------------------------------- tree rewriting

  ghost predicate Unused(node: Nodes, f: nat)
  {
    forall l | l in node :: node[l] != f
  }

  lemma ParentHasEntry(node: Nodes, view: View, m: Label)
    requires m in node && m.level >= 1
    ensures HasEntry(node, view, Parent(m))
  {
    ParentChild(m);
    assert Child(Parent(m), m.prefix % 512) in node;
  }

  lemma TableHasEntry(node: Nodes, view: View, p: Page)
    requires p in view
    ensures HasEntry(node, view, PageTableOf(p))
  {
    PageInTable(p);
    assert PageAt(PageTableOf(p), p.vpn % 512) in view;
  }

  /** A fresh frame can be added to the labelling. */
  lemma AddLabel(mem: Memory, mem': Memory, node: Nodes, c: Label, f: nat)
    requires Labels(mem, node) && Injective(node) && Unused(node, f) && c !in node
    requires WellLabelled(c) && (if c.level == 4 then f == c.root else Parent(c) in node)
    requires f in mem' && |mem'[f]| == 512
    requires forall l | l in node :: node[l] in mem' && |mem'[node[l]]| == 512
    ensures Labels(mem', node[c := f]) && Injective(node[c := f])
  {
    hide WellLabelled, Parent;
  }

  /** The facts about one entry of a tree. */
  lemma EntryFacts(mem: Memory, node: Nodes, view: View, l: Label, m: Label, j: nat)
    requires Tree(mem, node, view) && m in node && j < Slots(m.level) && l in node
    ensures node[m] in mem && |mem[node[m]]| == 512 && EntryOk(mem, node, view, m, j)
    ensures node[l] in mem && |mem[node[l]]| == 512
    ensures m != l ==> node[m] != node[l]
    ensures 1 <= m.level <= 4
  {
    hide EntryOk;
  }

  lemma LinkTableEntry(mem: Memory, node: Nodes, view: View, l: Label, i: nat, f: nat, m: Label, j: nat)
    requires Tree(mem, node, view) && Unused(node, f)
    requires l in node && l.level > 1 && i < Slots(l.level) && Child(l, i) !in node
    requires (m in node || m == Child(l, i)) && j < Slots(m.level)
    ensures var mem' := mem[f := EMPTY_TABLE][node[l] := mem[node[l]][i := TableEntry(f)]];
            var node' := node[Child(l, i) := f];
            node'[m] in mem' && |mem'[node'[m]]| == 512 && EntryOk(mem', node', view, m, j)
  {
    hide Tree, Child, PageAt;
    var c := Child(l, i);
    if m == c {
      NothingBelow(mem, node, view, l, i, j);
      EntryFacts(mem, node, view, l, l, i);
    } else {
      EntryFacts(mem, node, view, l, m, j);
      ChildUnique(m, j, l, i);
    }
  }

  /** A table that is not in the tree has neither children nor pages. */
  lemma NothingBelow(mem: Memory, node: Nodes, view: View, l: Label, i: nat, j: nat)
    requires Tree(mem, node, view) && l in node && l.level > 1 && i < 512 && j < 512 && Child(l, i) !in node
    ensures var c := Child(l, i);
            if c.level > 1 then Child(c, j) !in node && Child(c, j) != c else PageAt(c, j) !in view
    ensures Child(l, i) != l && Child(l, i).level == l.level - 1
  {
    hide EntryOk;
    var c := Child(l, i);
    ChildParent(l, i);
    if c.level > 1 {
      ChildParent(c, j);
    } else {
      assert PageTableOf(PageAt(c, j)) == c;
    }
  }

  lemma ChildLabel(mem: Memory, node: Nodes, view: View, l: Label, i: nat)
    requires Tree(mem, node, view) && l in node && l.level > 1 && i < Slots(l.level)
    ensures WellLabelled(Child(l, i)) && Child(l, i).level < 4 && Parent(Child(l, i)) == l
    ensures forall m | m in node :: node[m] in mem && |mem[node[m]]| == 512
  {
    hide EntryOk;
    ChildParent(l, i);
  }

  /** Linking a fresh empty table. */
  lemma LinkTable(mem: Memory, node: Nodes, view: View, l: Label, i: nat, f: nat)
    requires Tree(mem, node, view) && Unused(node, f)
    requires l in node && l.level > 1 && i < Slots(l.level) && Child(l, i) !in node
    ensures Tree(mem[f := EMPTY_TABLE][node[l] := mem[node[l]][i := TableEntry(f)]], node[Child(l, i) := f], view)
  {
    hide EntryOk, Labels, Injective, Child, Parent;
    var c := Child(l, i);
    EntryFacts(mem, node, view, l, l, i);
    ChildLabel(mem, node, view, l, i);
    var mem', node' := mem[f := EMPTY_TABLE][node[l] := mem[node[l]][i := TableEntry(f)]], node[c := f];
    AddLabel(mem, mem', node, c, f);
    forall m, j: nat | m in node' && j < Slots(m.level) ensures EntryOk(mem', node', view, m, j) {
      LinkTableEntry(mem, node, view, l, i, f, m, j);
    }
  }

  /** A table without entries can be dropped from the labelling. */
  lemma DropLabel(mem: Memory, mem': Memory, node: Nodes, view: View, c: Label)
    requires Labels(mem, node) && Injective(node) && !HasEntry(node, view, c)
    requires forall p | p in view :: PageTableOf(p) in node
    requires forall l | l in node :: node[l] in mem' && |mem'[node[l]]| == 512
    ensures Labels(mem', node - {c}) && Injective(node - {c})
    ensures forall p | p in view :: PageTableOf(p) in node - {c}
  {
    hide HasEntry;
    forall m | m in node && m.level < 4 ensures Parent(m) in node - {c} {
      assert WellLabelled(m);
      ParentHasEntry(node, view, m);
    }
    forall p | p in view ensures PageTableOf(p) in node - {c} { TableHasEntry(node, view, p); }
  }

  lemma UnlinkTableEntry(mem: Memory, node: Nodes, view: View, l: Label, i: nat, m: Label, j: nat)
    requires Tree(mem, node, view)
    requires l in node && l.level > 1 && i < Slots(l.level) && Child(l, i) in node
    requires m in node && m != Child(l, i) && j < Slots(m.level)
    ensures var mem', node' := mem[node[l] := mem[node[l]][i := EMPTY]], node - {Child(l, i)};
            EntryOk(mem', node', view, m, j)
  {
    hide Tree, Child, PageAt;
    EntryFacts(mem, node, view, l, m, j);
    ChildUnique(m, j, l, i);
  }

  /** Unlinking a table without entries. */
  lemma UnlinkTable(mem: Memory, node: Nodes, view: View, l: Label, i: nat)
    requires Tree(mem, node, view)
    requires l in node && l.level > 1 && i < Slots(l.level) && Child(l, i) in node
    requires !HasEntry(node, view, Child(l, i))
    ensures Tree(mem[node[l] := mem[node[l]][i := EMPTY]], node - {Child(l, i)}, view)
  {
    hide EntryOk, HasEntry;
    var c := Child(l, i);
    ChildParent(l, i);
    var mem', node' := mem[node[l] := mem[node[l]][i := EMPTY]], node - {c};
    DropLabel(mem, mem', node, view, c);
    hide Labels, Injective;
    forall m, j: nat | m in node' && j < Slots(m.level) ensures EntryOk(mem', node', view, m, j) {
      UnlinkTableEntry(mem, node, view, l, i, m, j);
    }
  }

  lemma PageUnique(l: Label, i: nat, m: Label, j: nat)
    requires l.level == 1 && m.level == 1 && i < 512 && j < 512
    ensures PageAt(m, j) == PageAt(l, i) <==> m == l && j == i
    ensures PageTableOf(PageAt(l, i)) == l
  {
  }

  /** One leaf entry rewritten, and the page it holds with it. */
  lemma LeafEntryAt(mem: Memory, node: Nodes, view: View, view': View, l: Label, i: nat, e: Entry, m: Label, j: nat)
    requires Tree(mem, node, view) && l in node && l.level == 1 && i < 512 && m in node && j < Slots(m.level)
    requires forall p | p != PageAt(l, i) :: (p in view' <==> p in view) && (p in view ==> view'[p] == view[p])
    requires e == if PageAt(l, i) in view' then LeafEntry(view'[PageAt(l, i)]) else EMPTY
    ensures node[l] in mem && |mem[node[l]]| == 512
    ensures var mem' := mem[node[l] := mem[node[l]][i := e]];
            node[m] in mem' && |mem'[node[m]]| == 512 && EntryOk(mem', node, view', m, j)
  {
    hide Tree, Child, PageAt, LeafEntry;
    EntryFacts(mem, node, view, l, m, j);
    if m.level == 1 {
      PageUnique(l, i, m, j);
    }
  }

  lemma SetLeaf(mem: Memory, node: Nodes, view: View, view': View, l: Label, i: nat, e: Entry)
    requires Tree(mem, node, view) && l in node && l.level == 1 && i < 512
    requires forall p | p != PageAt(l, i) :: (p in view' <==> p in view) && (p in view ==> view'[p] == view[p])
    requires e == if PageAt(l, i) in view' then LeafEntry(view'[PageAt(l, i)]) else EMPTY
    ensures node[l] in mem && |mem[node[l]]| == 512 && Tree(mem[node[l] := mem[node[l]][i := e]], node, view')
  {
    hide EntryOk, Injective, WellLabelled, Parent, PageAt, PageTableOf;
    PageUnique(l, i, l, i);
    var mem' := mem[node[l] := mem[node[l]][i := e]];
    forall m, j: nat | m in node && j < Slots(m.level)
      ensures EntryOk(mem', node, view', m, j)
    {
      LeafEntryAt(mem, node, view, view', l, i, e, m, j);
    }
  }

  /** Writing a present leaf entry. */
  lemma LinkLeaf(mem: Memory, node: Nodes, view: View, l: Label, i: nat, leaf: Leaf)
    requires Tree(mem, node, view)
    requires l in node && l.level == 1 && i < 512
    ensures var t := mem[node[l]];
            Tree(mem[node[l] := t[i := LeafEntry(leaf)]], node, view[PageAt(l, i) := leaf])
  {
    hide Tree;
    SetLeaf(mem, node, view, view[PageAt(l, i) := leaf], l, i, LeafEntry(leaf));
  }

  /** Zeroing a leaf entry. */
  lemma UnlinkLeaf(mem: Memory, node: Nodes, view: View, l: Label, i: nat)
    requires Tree(mem, node, view)
    requires l in node && l.level == 1 && i < 512
    ensures var t := mem[node[l]];
            Tree(mem[node[l] := t[i := EMPTY]], node, view - {PageAt(l, i)})
  {
    hide Tree;
    SetLeaf(mem, node, view, view - {PageAt(l, i)}, l, i, EMPTY);
  }

  lemma LinkRootEntry(mem: Memory, node: Nodes, view: View, f: nat, t: Table, m: Label, j: nat)
    requires Tree(mem, node, view) && Unused(node, f) && Label(f, 4, 0) !in node
    requires |t| == 512 && forall i | 0 <= i < 256 :: t[i] == EMPTY
    requires (m in node || m == Label(f, 4, 0)) && j < Slots(m.level)
    ensures var mem', node' := mem[f := t], node[Label(f, 4, 0) := f];
            node'[m] in mem' && |mem'[node'[m]]| == 512 && EntryOk(mem', node', view, m, j)
  {
    hide Tree, Child, PageAt;
    var r := Label(f, 4, 0);
    if m == r {
      NoChild(mem, node, view, r, j);
    } else {
      EntryFacts(mem, node, view, m, m, j);
      if m.level > 1 {
        ChildIsLower(mem, node, view, m, j);
      }
    }
  }

  /** A PML4 that is not in the tree has no children in it. */
  lemma NoChild(mem: Memory, node: Nodes, view: View, r: Label, j: nat)
    requires Tree(mem, node, view) && r.level == 4 && r !in node && j < 256
    ensures Child(r, j) !in node && Child(r, j) != r
  {
    hide EntryOk;
    ChildParent(r, j);
  }

  lemma ChildIsLower(mem: Memory, node: Nodes, view: View, m: Label, j: nat)
    requires Tree(mem, node, view) && m in node && m.level > 1
    ensures Child(m, j).level < 4
  {
    hide EntryOk;
  }

  /** A new PML4 with an empty lower half. */
  lemma LinkRoot(mem: Memory, node: Nodes, view: View, f: nat, t: Table)
    requires Tree(mem, node, view) && Unused(node, f) && Label(f, 4, 0) !in node
    requires |t| == 512 && forall i | 0 <= i < 256 :: t[i] == EMPTY
    ensures Tree(mem[f := t], node[Label(f, 4, 0) := f], view)
  {
    hide EntryOk, Parent, PageTableOf;
    var r := Label(f, 4, 0);
    var mem', node' := mem[f := t], node[r := f];
    AddLabel(mem, mem', node, r, f);
    forall m, j: nat | m in node' && j < Slots(m.level)
      ensures EntryOk(mem', node', view, m, j)
    {
      LinkRootEntry(mem, node, view, f, t, m, j);
    }
  }

  lemma UnlinkRootEntry(mem: Memory, node: Nodes, view: View, f: nat, m: Label, j: nat)
    requires Tree(mem, node, view) && m in node && m != Label(f, 4, 0) && j < Slots(m.level)
    ensures node[m] in mem && |mem[node[m]]| == 512 && EntryOk(mem, node - {Label(f, 4, 0)}, view, m, j)
  {
    hide Tree, Child, PageAt;
    EntryFacts(mem, node, view, m, m, j);
    if m.level > 1 {
      ChildIsLower(mem, node, view, m, j);
    }
  }

  /** Dropping a PML4 whose lower half is empty. */
  lemma UnlinkRoot(mem: Memory, node: Nodes, view: View, f: nat)
    requires Tree(mem, node, view) && Label(f, 4, 0) in node && !HasEntry(node, view, Label(f, 4, 0))
    ensures Tree(mem, node - {Label(f, 4, 0)}, view)
  {
    hide HasEntry, EntryOk, WellLabelled, Parent;
    var r := Label(f, 4, 0);
    var node' := node - {r};
    DropLabel(mem, mem, node, view, r);
    forall m, j: nat | m in node' && j < Slots(m.level)
      ensures EntryOk(mem, node', view, m, j)
    {
      UnlinkRootEntry(mem, node, view, f, m, j);
    }
  }

  // ------------------------------------------------- frames and compactness

  /** The kernel half of every PML4 is untouched. */
  ghost predicate SameUpperHalves(before: Memory, after: Memory, node: Nodes)
  {
    forall l | l in node && l.level == 4 ::
      && node[l] in before && |before[node[l]]| == 512
      && node[l] in after && |after[node[l]]| == 512
      && after[node[l]][256..] == before[node[l]][256..]
  }

  /** The tables of `node` hold the same entries. */
  ghost predicate SameTables(before: Memory, after: Memory, node: Nodes)
  {
    forall l | l in node :: node[l] in before && node[l] in after && after[node[l]] == before[node[l]]
  }

  lemma ValuesAdd(node: Nodes, l: Label, f: nat)
    requires l !in node
    ensures node[l := f].Values == node.Values + {f}
  {
    assert l in node[l := f];
    forall x | x in node.Values ensures x in node[l := f].Values {
      var m :| m in node && node[m] == x;
      assert node[l := f][m] == x;
    }
  }

  lemma ValuesRemove(node: Nodes, l: Label)
    requires l in node && Injective(node)
    ensures (node - {l}).Values == node.Values - {node[l]}
  {
    forall x | x in node.Values - {node[l]} ensures x in (node - {l}).Values {
      var m :| m in node && node[m] == x;
      assert (node - {l})[m] == x;
    }
  }

  lemma LinkTableStep(mem: Memory, node: Nodes, view: View, except: set<Label>, l: Label, i: nat, f: nat)
    requires Tree(mem, node, view) && Unused(node, f) && Compact(node, view, except)
    requires l in node && l.level > 1 && i < Slots(l.level) && Child(l, i) !in node
    ensures var mem' := mem[f := EMPTY_TABLE][node[l] := mem[node[l]][i := TableEntry(f)]];
            var node' := node[Child(l, i) := f];
            && Tree(mem', node', view) && SameUpperHalves(mem, mem', node)
            && Compact(node', view, except - {l} + {Child(l, i)})
            && node'.Values == node.Values + {f}
  {
    LinkTable(mem, node, view, l, i, f);
    ValuesAdd(node, Child(l, i), f);
    hide EntryOk;
    var node' := node[Child(l, i) := f];
    forall m | m in node' && m.level < 4 && m !in except - {l} + {Child(l, i)} ensures HasEntry(node', view, m) {
      if m == l {
        assert Child(l, i) in node';
      } else {
        HasEntryMonotone(node, view, node', view, m);
      }
    }
  }

  lemma HasEntryMonotone(node: Nodes, view: View, node': Nodes, view': View, m: Label)
    requires HasEntry(node, view, m)
    requires forall i: nat | i < 512 :: if m.level > 1 then Child(m, i) in node ==> Child(m, i) in node'
                                        else PageAt(m, i) in view ==> PageAt(m, i) in view'
    ensures HasEntry(node', view', m)
  {
    var i: nat :| i < 512 && if m.level > 1 then Child(m, i) in node else PageAt(m, i) in view;
    assert if m.level > 1 then Child(m, i) in node' else PageAt(m, i) in view';
  }

  lemma UnlinkTableStep(mem: Memory, node: Nodes, view: View, except: set<Label>, l: Label, i: nat)
    requires Tree(mem, node, view) && Compact(node, view, except)
    requires l in node && l.level > 1 && i < Slots(l.level) && Child(l, i) in node
    requires !HasEntry(node, view, Child(l, i))
    ensures var mem', node' := mem[node[l] := mem[node[l]][i := EMPTY]], node - {Child(l, i)};
            && Tree(mem', node', view) && SameUpperHalves(mem, mem', node)
            && Compact(node', view, except - {Child(l, i)} + {l})
            && node'.Values == node.Values - {node[Child(l, i)]}
  {
    var c := Child(l, i);
    UnlinkTable(mem, node, view, l, i);
    ValuesRemove(node, c);
    hide EntryOk;
    CompactUnlinkTable(node, view, except, l, i);
  }

  lemma RootStep(mem: Memory, node: Nodes, view: View, f: nat, t: Table)
    requires Tree(mem, node, view) && Unused(node, f) && Compact(node, view, {})
    requires |t| == 512 && forall i | 0 <= i < 256 :: t[i] == EMPTY
    ensures Label(f, 4, 0) !in node
    ensures var node' := node[Label(f, 4, 0) := f];
            && Tree(mem[f := t], node', view) && SameUpperHalves(mem, mem[f := t], node)
            && Compact(node', view, {}) && node'.Values == node.Values + {f}
  {
    hide EntryOk;
    var r := Label(f, 4, 0);
    assert r !in node;
    LinkRoot(mem, node, view, f, t);
    ValuesAdd(node, r, f);
    forall m | m in node[r := f] && m.level < 4 ensures HasEntry(node[r := f], view, m) {
      HasEntryMonotone(node, view, node[r := f], view, m);
    }
  }

  lemma CompactUnlinkTable(node: Nodes, view: View, except: set<Label>, l: Label, i: nat)
    requires Compact(node, view, except) && l.level > 1 && i < 512
    ensures Compact(node - {Child(l, i)}, view, except - {Child(l, i)} + {l})
  {
    var c := Child(l, i);
    hide HasEntry;
    forall m | m in node && m.level < 4 && m !in except && m != l && m != c ensures HasEntry(node - {c}, view, m) {
      forall j: nat | j < 512 ensures m.level > 1 ==> Child(m, j) != c { ChildUnique(m, j, l, i); }
      HasEntryMonotone(node, view, node - {c}, view, m);
    }
  }

  lemma ChildUnique(m: Label, j: nat, l: Label, i: nat)
    requires i < 512 && j < 512
    ensures m.level > 1 && l.level > 1 && Child(m, j) == Child(l, i) ==> m == l && j == i
    ensures m.level == 1 && l.level == 1 && PageAt(m, j) == PageAt(l, i) ==> m == l && j == i
  {
  }

  lemma CompactUnlinkLeaf(node: Nodes, view: View, except: set<Label>, l: Label, i: nat)
    requires Compact(node, view, except) && l.level == 1 && i < 512
    requires forall m | m in node :: m.level >= 1
    ensures Compact(node, view - {PageAt(l, i)}, except + {l})
  {
    var view' := view - {PageAt(l, i)};
    hide HasEntry;
    forall m | m in node && m.level < 4 && m !in except + {l} ensures HasEntry(node, view', m) {
      forall j: nat | j < 512 ensures m.level == 1 ==> PageAt(m, j) != PageAt(l, i) { ChildUnique(m, j, l, i); }
      HasEntryMonotone(node, view, node, view', m);
    }
  }

  lemma SlotsFit(l: Label)
    requires WellLabelled(l) && l.level < 4
    ensures Slots(l.level) == 512
  {
  }

  /** A table of the tree has no present entry exactly when it has no child and no page. */
  lemma EmptyIffNoEntry(mem: Memory, node: Nodes, view: View, c: Label)
    requires Tree(mem, node, view) && c in node && c.level < 4
    ensures node[c] in mem && |mem[node[c]]| == 512
    ensures (forall i | 0 <= i < 512 :: !mem[node[c]][i].present) <==> !HasEntry(node, view, c)
  {
    SlotsFit(c);
    forall i: nat | i < 512 ensures EntryOk(mem, node, view, c, i) {}
    if HasEntry(node, view, c) {
      var i: nat :| i < 512 && if c.level > 1 then Child(c, i) in node else PageAt(c, i) in view;
      assert EntryOk(mem, node, view, c, i);
      assert mem[node[c]][i].present;
    } else {
      forall i: nat | i < 512 ensures !mem[node[c]][i].present {
        assert EntryOk(mem, node, view, c, i);
        assert !(if c.level > 1 then Child(c, i) in node else PageAt(c, i) in view);
      }
    }
  }

  /** Nothing hangs below a label that is not in the tree. */
  lemma AbsentHasNoEntry(mem: Memory, node: Nodes, view: View, l: Label, f: nat)
    requires Tree(mem, node, view) && l !in node && 1 <= l.level < 4
    ensures !HasEntry(node[l := f], view, l)
  {
    hide EntryOk;
    forall i: nat | i < 512
      ensures !(if l.level > 1 then Child(l, i) in node[l := f] else PageAt(l, i) in view)
    {
      if l.level > 1 {
        ChildParent(l, i);
      } else {
        assert PageTableOf(PageAt(l, i)) == l;
      }
    }
  }

  /** The labelling and the view determine the content of every table. */
  lemma TreeDeterminesTables(mem: Memory, mem': Memory, node: Nodes, view: View)
    requires Tree(mem, node, view) && Tree(mem', node, view) && SameUpperHalves(mem, mem', node)
    ensures SameTables(mem, mem', node)
  {
    forall l | l in node ensures mem'[node[l]] == mem[node[l]] {
      var t, t' := mem[node[l]], mem'[node[l]];
      forall i: nat | i < 512 ensures t'[i] == t[i] {
        if i < Slots(l.level) {
          assert EntryOk(mem, node, view, l, i) && EntryOk(mem', node, view, l, i);
        } else {
          assert t'[256..][i - 256] == t[256..][i - 256];
        }
      }
    }
  }

  lemma SameUpperHalvesRefl(mem: Memory, node: Nodes, view: View)
    requires Tree(mem, node, view)
    ensures SameUpperHalves(mem, mem, node)
  {
  }

  lemma SameUpperHalvesTrans(m1: Memory, m2: Memory, m3: Memory, node: Nodes, node': Nodes)
    requires SameUpperHalves(m1, m2, node) && SameUpperHalves(m2, m3, node')
    requires Extends(node, node')
    ensures SameUpperHalves(m1, m3, node)
  {
  }

  /** Every table of `a` is a table of `b`, which has no further PML4. */
  ghost predicate Extends(a: Nodes, b: Nodes)
  {
    && (forall l | l in a :: l in b && b[l] == a[l])
    && (forall l | l in b && l.level == 4 :: l in a)
  }

  lemma ExtendsBy(a: Nodes, l: Label, f: nat)
    requires l !in a && l.level != 4
    ensures Extends(a, a) && Extends(a, a[l := f])
    ensures forall b | Extends(a[l := f], b) :: Extends(a, b)
  {
    forall b | Extends(a[l := f], b) ensures Extends(a, b) {
      forall m | m in a ensures m in b && b[m] == a[m] { assert m in a[l := f] && a[l := f][m] == a[m]; }
    }
  }

  // --------------------------------------------------------------- teardown

  ghost function LabelsOf(node: Nodes, r: nat): set<Label>
  {
    set l | l in node && l.root == r
  }

  /** The frames mapped by an address space. */
  ghost function LeafFrames(view: View, r: nat): set<nat>
  {
    set p | p in view && p.root == r :: view[p].frame
  }

  /** No page of the address space maps a page-table frame. */
  ghost predicate NoAlias(node: Nodes, view: View, r: nat)
  {
    forall p, l | p in view && p.root == r && l in node :: node[l] != view[p].frame
  }

  /** The first `n` entries of a table are empty. */
  ghost predicate Gone(node: Nodes, view: View, l: Label, n: nat)
  {
    forall j: nat | j < n :: if l.level > 1 then Child(l, j) !in node else PageAt(l, j) !in view
  }

  /** Only tables below `level` and pages of address space `r` have disappeared. */
  ghost predicate Shrunk(node: Nodes, view: View, node': Nodes, view': View, r: nat, level: nat)
  {
    && (forall m | m in node' :: m in node && node[m] == node'[m])
    && (forall m | m in node && (m.root != r || m.level >= level) :: m in node')
    && (forall p | p in view' :: p in view && view'[p] == view[p])
    && (forall p | p in view && p.root != r :: p in view')
  }

  lemma ShrunkTrans(n0: Nodes, v0: View, n1: Nodes, v1: View, n2: Nodes, v2: View, r: nat, a: nat, b: nat, c: nat)
    requires Shrunk(n0, v0, n1, v1, r, a) && Shrunk(n1, v1, n2, v2, r, b) && a <= c && b <= c
    ensures Shrunk(n0, v0, n2, v2, r, c)
  {
  }

  lemma ShrunkKeeps(n0: Nodes, v0: View, n1: Nodes, v1: View, r: nat, a: nat, l: Label)
    requires Shrunk(n0, v0, n1, v1, r, a)
    ensures l in n0 && l.level >= a ==> l in n1 && n1[l] == n0[l]
    ensures NoAlias(n0, v0, r) ==> NoAlias(n1, v1, r)
    ensures forall m, k | Gone(n0, v0, m, k) :: Gone(n1, v1, m, k)
  {
  }

  lemma ShrunkRefl(n0: Nodes, v0: View, r: nat, a: nat)
    ensures Shrunk(n0, v0, n0, v0, r, a)
  {
  }

  lemma LeafFramesRemove(view: View, p: Page)
    requires p in view
    ensures LeafFrames(view, p.root) == LeafFrames(view - {p}, p.root) + {view[p].frame}
  {
    var rest := view - {p};
    forall q | q in view && q.root == p.root && q != p ensures view[q].frame in LeafFrames(rest, p.root) {
      assert q in rest && rest[q] == view[q];
    }
  }

  lemma ShrunkByLeaf(n0: Nodes, v0: View, l: Label, i: nat)
    ensures Shrunk(n0, v0, n0, v0 - {PageAt(l, i)}, l.root, 1)
  {
  }

  lemma ShrunkByTable(n0: Nodes, v0: View, l: Label, i: nat)
    requires l.level > 1
    ensures Shrunk(n0, v0, n0 - {Child(l, i)}, v0, l.root, l.level)
  {
  }

  lemma LabelsOfShrunk(n0: Nodes, v0: View, n1: Nodes, v1: View, r: nat, a: nat)
    requires Shrunk(n0, v0, n1, v1, r, a)
    ensures LabelsOf(n1, r) <= LabelsOf(n0, r)
  {
  }

  lemma SameUpperHalvesShrunk(m0: Memory, m1: Memory, m2: Memory, n0: Nodes, v0: View, n1: Nodes, v1: View, r: nat,
                              a: nat)
    requires SameUpperHalves(m0, m1, n0) && SameUpperHalves(m1, m2, n1)
    requires Shrunk(n0, v0, n1, v1, r, a) && a <= 4
    ensures SameUpperHalves(m0, m2, n0)
  {
  }

  lemma GoneZero(node: Nodes, view: View, l: Label)
    ensures Gone(node, view, l, 0)
  {
  }

  lemma GoneStep(node: Nodes, view: View, l: Label, n: nat)
    requires Gone(node, view, l, n)
    requires if l.level > 1 then Child(l, n) !in node else PageAt(l, n) !in view
    ensures Gone(node, view, l, n + 1)
  {
  }

  ghost function PagesOf(view: View, r: nat): set<Page>
  {
    set p | p in view && p.root == r
  }

  /** The frames of the tables of an address space, PML4 included. */
  ghost function TableFrames(node: Nodes, r: nat): set<nat>
  {
    set l | l in node && l.root == r :: node[l]
  }

  /** A PML4 without entries has no tables and no pages left. */
  lemma EmptyRoot(mem: Memory, node: Nodes, view: View, r: nat)
    requires Tree(mem, node, view) && Label(r, 4, 0) in node && !HasEntry(node, view, Label(r, 4, 0))
    ensures forall l | l in node && l.root == r :: l == Label(r, 4, 0)
    ensures forall p | p in view :: p.root != r
  {
    hide EntryOk, HasEntry;
    var root := Label(r, 4, 0);
    forall l | l in node && l.root == r ensures l.level != 3 {
      ParentHasEntry(node, view, l);
      assert l.level == 3 ==> Parent(l) == root;
    }
    forall l | l in node && l.root == r ensures l.level != 2 {
      assert l.level < 4 ==> Parent(l) in node;
    }
    forall l | l in node && l.root == r ensures l.level != 1 {
      assert l.level < 4 ==> Parent(l) in node;
    }
    forall p | p in view ensures p.root != r {
      assert PageTableOf(p) in node && PageTableOf(p).level == 1;
    }
  }

  lemma ClearedMaps(mem: Memory, n0: Nodes, v0: View, node: Nodes, view: View, r: nat)
    requires Shrunk(n0, v0, node, view, r, 4) && Tree(mem, node, view)
    requires Label(r, 4, 0) in node && !HasEntry(node, view, Label(r, 4, 0))
    requires forall l | l in n0 && l.root == r && l.level == 4 :: l == Label(r, 4, 0)
    ensures view == v0 - PagesOf(v0, r)
    ensures node == n0 - (LabelsOf(n0, r) - {Label(r, 4, 0)})
    ensures LeafFrames(view, r) == {} && PagesOf(view, r) == {}
  {
    EmptyRoot(mem, node, view, r);
    hide Tree, HasEntry;
    assert view == v0 - PagesOf(v0, r);
    assert node == n0 - (LabelsOf(n0, r) - {Label(r, 4, 0)});
  }

  /** An injective image has as many elements as its domain. */
  lemma {:induction false} ImageCardinality<T>(domain: set<T>, f: map<T, nat>, image: set<nat>)
    requires domain <= f.Keys && image == set x | x in domain :: f[x]
    requires forall x, y | x in domain && y in domain && f[x] == f[y] :: x == y
    ensures |image| == |domain|
  {
    if domain == {} {
      assert image == {};
    } else {
      var x :| x in domain;
      var rest := image - {f[x]};
      assert rest == set y | y in domain - {x} :: f[y] by {
        forall v | v in rest ensures v in set y | y in domain - {x} :: f[y] {
          var y :| y in domain && f[y] == v;
          assert y in domain - {x};
        }
      }
      ImageCardinality(domain - {x}, f, rest);
      assert image == rest + {f[x]};
    }
  }

  /** Table frames after the tables of `r` below its PML4 are gone. */
  lemma ClearedValues(node: Nodes, r: nat)
    requires Injective(node) && Label(r, 4, 0) in node
    ensures var gone := LabelsOf(node, r) - {Label(r, 4, 0)};
            (node - gone).Values == node.Values - (TableFrames(node, r) - {node[Label(r, 4, 0)]})
  {
    var gone := LabelsOf(node, r) - {Label(r, 4, 0)};
    assert forall l | l in gone :: node[l] in TableFrames(node, r) && node[l] != node[Label(r, 4, 0)];
    forall x | x in node.Values - (TableFrames(node, r) - {node[Label(r, 4, 0)]}) ensures x in (node - gone).Values {
      var m :| m in node && node[m] == x;
      assert m !in gone;
      assert (node - gone)[m] == x;
    }
  }

  lemma TablesAreValues(node: Nodes, r: nat)
    ensures TableFrames(node, r) <= node.Values
  {
  }

  lemma LabelsOfRoot(node: Nodes, r: nat)
    ensures var kept := node - (LabelsOf(node, r) - {Label(r, 4, 0)});
            forall l | l in kept && l in LabelsOf(node, r) :: l.level == 4
  {
  }

  lemma UnlinkRootStep(mem: Memory, node: Nodes, view: View, f: nat)
    requires Tree(mem, node, view) && Compact(node, view, {})
    requires Label(f, 4, 0) in node && !HasEntry(node, view, Label(f, 4, 0))
    ensures Tree(mem, node - {Label(f, 4, 0)}, view) && Compact(node - {Label(f, 4, 0)}, view, {})
    ensures (node - {Label(f, 4, 0)}).Values == node.Values - {f}
  {
    hide Tree, HasEntry;
    var r := Label(f, 4, 0);
    RootIs(mem, node, view, f);
    UnlinkRoot(mem, node, view, f);
    ValuesRemove(node, r);
    forall m | m in node && m.level < 4
      ensures HasEntry(node - {r}, view, m)
    {
      HasEntryMonotone(node, view, node - {r}, view, m);
    }
  }

  lemma RootIs(mem: Memory, node: Nodes, view: View, f: nat)
    requires Tree(mem, node, view) && Label(f, 4, 0) in node
    ensures node[Label(f, 4, 0)] == f && Injective(node)
  {
    hide EntryOk;
  }

  lemma NoLabelsLeft(node: Nodes, view: View, r: nat)
    requires forall l | l in node && l.root == r :: l.level == 4
    ensures !HasEntry(node, view, Label(r, 4, 0))
  {
  }

  /** What the conserved pool says about the free frames after teardown. */
  lemma FreedFrames(free0: set<nat>, values0: set<nat>, leaves: set<nat>, free1: set<nat>, values1: set<nat>,
                    tables: set<nat>)
    requires free0 !! values0 && free1 !! values1 && leaves !! values0 && tables <= values0
    requires values1 == values0 - tables
    requires free1 + values1 == free0 + values0 + leaves
    ensures free1 == free0 + tables + leaves
  {
  }

  lemma CompactWeaken(node: Nodes, view: View, a: set<Label>, b: set<Label>)
    requires Compact(node, view, a) && forall l | l in a && l in node :: l in b
    ensures Compact(node, view, b)
  {
    hide HasEntry;
  }

  lemma GoneIsEmpty(mem: Memory, node: Nodes, view: View, l: Label)
    requires Tree(mem, node, view) && l in node && Gone(node, view, l, Slots(l.level))
    ensures !HasEntry(node, view, l)
  {
    hide EntryOk;
    forall i: nat | i < 512 ensures !(if l.level > 1 then Child(l, i) in node else PageAt(l, i) in view) {
      if i >= Slots(l.level) { assert !WellLabelled(Child(l, i)); }
    }
  }

  lemma ExtendsRemove(a: Nodes, l: Label)
    requires l.level != 4
    ensures Extends(a - {l}, a)
  {
  }

  lemma ExtendsTrans(a: Nodes, b: Nodes, c: Nodes)
    requires Extends(a, b) && Extends(b, c)
    ensures Extends(a, c)
  {
  }

  /** Chaining past the removal of a table below the PML4. */
  lemma SameUpperHalvesChain(m1: Memory, m2: Memory, m3: Memory, node: Nodes, node': Nodes, c: Label)
    requires SameUpperHalves(m1, m2, node) && SameUpperHalves(m2, m3, node')
    requires node' == node - {c} && c.level < 4
    ensures SameUpperHalves(m1, m3, node)
  {
  }

  lemma ExtendsRefl(a: Nodes)
    ensures Extends(a, a)
  {
  }

  lemma LinkLeafStep(mem: Memory, node: Nodes, view: View, except: set<Label>, l: Label, i: nat, leaf: Leaf)
    requires Tree(mem, node, view) && Compact(node, view, except)
    requires l in node && l.level == 1 && i < 512
    ensures var mem', view' := mem[node[l] := mem[node[l]][i := LeafEntry(leaf)]], view[PageAt(l, i) := leaf];
            && Tree(mem', node, view') && SameUpperHalves(mem, mem', node)
            && Compact(node, view', except - {l})
  {
    LinkLeaf(mem, node, view, l, i, leaf);
    hide EntryOk;
    var view' := view[PageAt(l, i) := leaf];
    forall m | m in node && m.level < 4 && m !in except - {l} ensures HasEntry(node, view', m) {
      if m == l {
        assert PageAt(l, i) in view';
      } else {
        HasEntryMonotone(node, view, node, view', m);
      }
    }
  }

  lemma UnlinkLeafStep(mem: Memory, node: Nodes, view: View, except: set<Label>, l: Label, i: nat)
    requires Tree(mem, node, view) && Compact(node, view, except)
    requires l in node && l.level == 1 && i < 512
    ensures var mem', view' := mem[node[l] := mem[node[l]][i := EMPTY]], view - {PageAt(l, i)};
            && Tree(mem', node, view') && SameUpperHalves(mem, mem', node)
            && Compact(node, view', except + {l})
  {
    UnlinkLeaf(mem, node, view, l, i);
    hide EntryOk;
    CompactUnlinkLeaf(node, view, except, l, i);
  }
}

/** The page-table operations of mm/vmm.c over the frame allocator. */
module Vmm {
  import opened PageTree
  import opened Options
  import opened Pmm

  const PAGE_SIZE: nat := 4096
  const LOWER_HALF_END: nat := 0x8000_0000_0000
  const UPPER_HALF_START: nat := 0xffff_8000_0000_0000

  /** The flag argument of the mapping calls; `other` stands for any further bit. */
  datatype Flags = Flags(writable: bool, user: bool, noExecute: bool, other: bool)

  /** page_table_index for the tables of level `level`. */
  function IndexAt(vpn: nat, level: nat): (i: nat)
    ensures i < 512
  {
    if level == 4 then (vpn / (512 * 512 * 512)) % 512
    else if level == 3 then (vpn / (512 * 512)) % 512
    else if level == 2 then (vpn / 512) % 512
    else vpn % 512
  }

  /** The tables on the walk to a page. */
  function OnWalk(p: Page, level: nat): (l: Label)
    requires 1 <= level <= 4
    ensures l.level == level
  {
    Label(p.root, level,
          if level == 4 then 0
          else if level == 3 then p.vpn / (512 * 512 * 512)
          else if level == 2 then p.vpn / (512 * 512)
          else p.vpn / 512)
  }

  lemma WalkStep(p: Page, level: nat)
    requires 2 <= level <= 4 && p.vpn < 256 * 512 * 512 * 512
    ensures Child(OnWalk(p, level), IndexAt(p.vpn, level)) == OnWalk(p, level - 1)
    ensures IndexAt(p.vpn, level) < Slots(level)
  {
  }

  lemma WalkLeaf(p: Page)
    ensures OnWalk(p, 1) == PageTableOf(p) && PageAt(OnWalk(p, 1), IndexAt(p.vpn, 1)) == p
  {
  }

  /** The table a present entry leads to; a huge page leads to none. */
  function TargetOf(entry: Entry): nat
  {
    if entry.huge then 0 else entry.frame
  }

  /** Number of tables below `level` that a mapping of `p` has to create. */
  ghost function MissingBelow(node: Nodes, p: Page, level: nat): nat
    requires 1 <= level <= 4
  {
    if level == 1 then 0
    else MissingBelow(node, p, level - 1) + (if OnWalk(p, level - 1) in node then 0 else 1)
  }

  lemma WalkDistinct(p: Page, level: nat)
    requires 2 <= level <= 4
    ensures forall k | level <= k <= 4 :: OnWalk(p, k) != OnWalk(p, level - 1)
  {
  }

  lemma MissingBelowStep(node: Nodes, p: Page, level: nat)
    requires 1 <= level <= 4
    ensures MissingBelow(node, p, 1) == 0
    ensures level > 1 ==>
              MissingBelow(node, p, level) ==
              MissingBelow(node, p, level - 1) + (if OnWalk(p, level - 1) in node then 0 else 1)
  {
  }

  /** Adding a table at `level` does not change what is missing below it. */
  lemma {:induction false} MissingBelowAdd(node: Nodes, p: Page, level: nat, upper: nat, f: nat)
    requires 1 <= level <= upper <= 4
    ensures MissingBelow(node[OnWalk(p, upper) := f], p, level) == MissingBelow(node, p, level)
  {
    if level > 1 { MissingBelowAdd(node, p, level - 1, upper, f); }
  }

  /** A mapped page has every table of its walk. */
  lemma ViewHasWalk(mem: Memory, node: Nodes, view: View, p: Page)
    requires Tree(mem, node, view) && p in view && p.vpn < 256 * 512 * 512 * 512
    ensures OnWalk(p, 1) in node && OnWalk(p, 2) in node && OnWalk(p, 3) in node && OnWalk(p, 4) in node
  {
    hide EntryOk;
    WalkLeaf(p);
    forall k: nat | 2 <= k <= 4 ensures Parent(OnWalk(p, k - 1)) == OnWalk(p, k) {
      WalkStep(p, k);
      ChildParent(OnWalk(p, k), IndexAt(p.vpn, k));
    }
    assert Parent(OnWalk(p, 1)) == OnWalk(p, 2) && Parent(OnWalk(p, 2)) == OnWalk(p, 3);
    assert Parent(OnWalk(p, 3)) == OnWalk(p, 4);
  }

  /** What a walk reads at each level. */
  lemma WalkRead(mem: Memory, node: Nodes, view: View, p: Page, level: nat)
    requires Tree(mem, node, view) && 1 <= level <= 4 && OnWalk(p, level) in node && p.vpn < 256 * 512 * 512 * 512
    ensures var f := node[OnWalk(p, level)];
            && f in mem && |mem[f]| == 512
            && var e := mem[f][IndexAt(p.vpn, level)];
               if level > 1 then
                 e == if OnWalk(p, level - 1) in node then TableEntry(node[OnWalk(p, level - 1)]) else EMPTY
               else e == if p in view then LeafEntry(view[p]) else EMPTY
  {
    hide Tree;
    if level > 1 { WalkStep(p, level); } else { WalkLeaf(p); }
    ReadEntry(mem, node, view, OnWalk(p, level), IndexAt(p.vpn, level));
  }

  /** combine_effective_flags */
  function CombineEffectiveFlags(parent: Entry, entry: Entry): Entry
  {
    entry.(writable := entry.writable && parent.writable,
           user := entry.user && parent.user,
           noExecute := entry.noExecute || parent.noExecute)
  }

  /** public_page_flags */
  function PublicFlags(entry: Entry): Entry
  {
    entry.(ownedTable := false, ownedMapping := false)
  }

  // ------------------------------------------------------------ what the processor sees

  /** What an address translates to, and what may be done there. */
  datatype Access = Access(address: nat, writable: bool, user: bool, noExecute: bool)

  ghost function EntryIn(mem: Memory, table: nat, i: nat): Entry
  {
    if table in mem && i < |mem[table]| then mem[table][i] else EMPTY
  }

  /** The entry a four-level walk for `va` ends at, if the three above it are present. */
  ghost function WalkEnd(mem: Memory, root: nat, va: nat): Option<Entry>
  {
    var e4 := EntryIn(mem, root, va / 0x80_0000_0000 % 512);
    var e3 := EntryIn(mem, e4.frame, va / 0x4000_0000 % 512);
    var e2 := EntryIn(mem, e3.frame, va / 0x20_0000 % 512);
    var e1 := EntryIn(mem, e2.frame, va / 0x1000 % 512);
    if e4.present && e3.present && e2.present && !e4.huge && !e3.huge && !e2.huge then Some(e1) else None
  }

  /**
   * The translation of a processor with four-level paging: a page may be written or used by user code if all entries
   * on the way allow it, and executed if none forbids it.
   */
  ghost function Translate(mem: Memory, root: nat, va: nat): Option<Access>
  {
    var e4 := EntryIn(mem, root, va / 0x80_0000_0000 % 512);
    var e3 := EntryIn(mem, e4.frame, va / 0x4000_0000 % 512);
    var e2 := EntryIn(mem, e3.frame, va / 0x20_0000 % 512);
    var end := WalkEnd(mem, root, va);
    if end.None? || !end.value.present then None
    else
      Some(Access(end.value.frame * 0x1000 + va % 0x1000,
                  e4.writable && e3.writable && e2.writable && end.value.writable,
                  e4.user && e3.user && e2.user && end.value.user,
                  e4.noExecute || e3.noExecute || e2.noExecute || end.value.noExecute))
  }

  /** The processor translates exactly the mapped pages, to their frames and with their own permissions. */
  lemma Translated(mem: Memory, node: Nodes, view: View, root: nat, va: nat)
    requires Tree(mem, node, view) && Label(root, 4, 0) in node && va < 0x8000_0000_0000
    ensures var p := Page(root, va / 0x1000);
            if p in view then
              && Translate(mem, root, va) ==
                   Some(Access(view[p].frame * 0x1000 + va % 0x1000, view[p].writable, view[p].user, view[p].noExecute))
              && WalkEnd(mem, root, va) ==
                   Some(Entry(true, view[p].writable, view[p].user, view[p].noExecute, false, false, true,
                       view[p].frame))
            else Translate(mem, root, va) == None
  {
    hide Tree, OnWalk, IndexAt;
    var p := Page(root, va / 0x1000);
    if p in view {
      ViewHasWalk(mem, node, view, p);
    }
    WalkIndices(va, root);
    RootIs(mem, node, view, root);
    WalkRead(mem, node, view, p, 4);
    if OnWalk(p, 3) in node {
      WalkRead(mem, node, view, p, 3);
      if OnWalk(p, 2) in node {
        WalkRead(mem, node, view, p, 2);
        if OnWalk(p, 1) in node {
          WalkRead(mem, node, view, p, 1);
        }
      }
    }
  }

  lemma WalkIndices(va: nat, root: nat)
    requires va < 0x8000_0000_0000
    ensures var p := Page(root, va / 0x1000);
            && p.vpn < 256 * 512 * 512 * 512 && OnWalk(p, 4) == Label(root, 4, 0)
            && IndexAt(p.vpn, 4) == va / 0x80_0000_0000 % 512 && IndexAt(p.vpn, 3) == va / 0x4000_0000 % 512
            && IndexAt(p.vpn, 2) == va / 0x20_0000 % 512 && IndexAt(p.vpn, 1) == va / 0x1000 % 512
  {
  }

  lemma RootLabel(p: Page)
    ensures OnWalk(p, 4) == Label(p.root, 4, 0)
  {
  }

  /** The page an address lies in. */
  function PageOf(pml4: nat, va: nat): Page
  {
    Page(pml4 / PAGE_SIZE, va / PAGE_SIZE)
  }

  /** The argument checks of vmm_map_page_in for addresses below the kernel half. */
  predicate Acceptable(pml4: nat, va: nat, pa: nat, flags: Flags)
  {
    && va % PAGE_SIZE == 0 && pa % PAGE_SIZE == 0 && IsRoot(pml4)
    && !flags.other && va < LOWER_HALF_END
  }

  predicate IsRoot(pml4: nat)
  {
    pml4 != 0 && pml4 % PAGE_SIZE == 0
  }

  /** The leaf a mapping stores: the frame number is the 40 bits an entry can hold. */
  function LeafOf(pa: nat, flags: Flags): Leaf
  {
    Leaf((pa / PAGE_SIZE) % 0x100_0000_0000, flags.writable, flags.user, flags.noExecute)
  }

  lemma PageBound(pml4: nat, va: nat)
    requires va < LOWER_HALF_END
    ensures PageOf(pml4, va).vpn < 256 * 512 * 512 * 512
    ensures OnWalk(PageOf(pml4, va), 4) == Label(pml4 / PAGE_SIZE, 4, 0)
  {
  }

  /** What holds right after a missing table on the walk has been created. */
  lemma FreshTable(mem: Memory, node: Nodes, view: View, p: Page, level: nat, f: nat, except: set<Label>,
                   free: set<nat>)
    requires 2 <= level <= 4 && Tree(mem, node, view) && OnWalk(p, level - 1) !in node
    requires except <= {OnWalk(p, level)} && f in free
    ensures !HasEntry(node[OnWalk(p, level - 1) := f], view, OnWalk(p, level - 1))
    ensures MissingBelow(node[OnWalk(p, level - 1) := f], p, level - 1) == MissingBelow(node, p, level - 1)
    ensures except - {OnWalk(p, level)} + {OnWalk(p, level - 1)} == {OnWalk(p, level - 1)}
    ensures node[OnWalk(p, level - 1) := f] - {OnWalk(p, level - 1)} == node
    ensures |free - {f}| == |free| - 1 && free - {f} + {f} == free
    ensures var node' := node[OnWalk(p, level - 1) := f];
            Extends(node, node') && forall b | Extends(node', b) :: Extends(node, b)
  {
    hide *;
    ExtendsBy(node, OnWalk(p, level - 1), f);
    AbsentHasNoEntry(mem, node, view, OnWalk(p, level - 1), f);
    MissingBelowAdd(node, p, level - 1, level - 1, f);
  }

  // --------------------------------------------- what an address space costs

  /** The distinct 2 MiB (k = 1), 1 GiB (k = 2) or 512 GiB (k = 3) prefixes of the mapped pages. */
  ghost function Prefixes(view: View, r: nat, k: nat): set<nat>
    requires 1 <= k <= 3
  {
    set p | p in view && p.root == r :: OnWalk(p, k).prefix
  }

  ghost function LabelsAt(node: Nodes, r: nat, k: nat): set<Label>
  {
    set l | l in node && l.root == r && l.level == k
  }

  /** In a compact tree some mapped page lies below every table. */
  lemma {:induction false} PageBelow(mem: Memory, node: Nodes, view: View, l: Label) returns (p: Page)
    requires Tree(mem, node, view) && Compact(node, view, {}) && l in node && l.level < 4
    ensures p in view && p.root == l.root && OnWalk(p, l.level) == l
    decreases l.level
  {
    hide Tree, OnWalk, Child, Parent, PageAt;
    LevelBounds(mem, node, view, l);
    assert HasEntry(node, view, l);
    var i: nat :| i < 512 && if l.level > 1 then Child(l, i) in node else PageAt(l, i) in view;
    if l.level == 1 {
      p := PageAt(l, i);
      WalkUp(p, l, i);
    } else {
      ChildParent(l, i);
      ChildLevel(l, i);
      p := PageBelow(mem, node, view, Child(l, i));
      WalkUp(p, l, i);
    }
  }

  lemma LevelBounds(mem: Memory, node: Nodes, view: View, l: Label)
    requires Tree(mem, node, view) && l in node
    ensures 1 <= l.level <= 4
  {
    hide EntryOk;
    assert WellLabelled(l);
  }

  lemma ChildLevel(l: Label, i: nat)
    requires l.level > 1
    ensures Child(l, i).level == l.level - 1 && Child(l, i).root == l.root
  {
  }

  /** Walks go up through parents. */
  lemma WalkUp(p: Page, l: Label, i: nat)
    requires 1 <= l.level <= 3 && i < 512
    ensures l.level == 1 && p == PageAt(l, i) ==> p.root == l.root && OnWalk(p, 1) == l
    ensures l.level > 1 && OnWalk(p, l.level - 1) == Child(l, i) ==> OnWalk(p, l.level) == l
  {
  }

  lemma PagesAreInLowerHalf(mem: Memory, node: Nodes, view: View, p: Page)
    requires Tree(mem, node, view) && p in view
    ensures p.vpn < 256 * 512 * 512 * 512
  {
    hide EntryOk;
    assert WellLabelled(PageTableOf(p));
  }

  /** The tables of a level are exactly the prefixes in use at that level. */
  lemma TablesArePrefixes(mem: Memory, node: Nodes, view: View, r: nat, k: nat)
    requires Tree(mem, node, view) && Compact(node, view, {}) && 1 <= k <= 3
    ensures forall l :: l in LabelsAt(node, r, k) <==> l == Label(r, k, l.prefix) && l.prefix in Prefixes(view, r, k)
  {
    hide Tree, Compact;
    forall l | l in LabelsAt(node, r, k) ensures l.prefix in Prefixes(view, r, k) {
      var p := PageBelow(mem, node, view, l);
    }
    forall q | q in Prefixes(view, r, k) ensures Label(r, k, q) in LabelsAt(node, r, k) {
      var p :| p in view && p.root == r && OnWalk(p, k).prefix == q;
      PagesAreInLowerHalf(mem, node, view, p);
      ViewHasWalk(mem, node, view, p);
      assert OnWalk(p, k) == Label(r, k, q);
    }
  }

  /** How many of the three tables on the walk to p no mapped page needs yet. */
  ghost function TablesMissing(view: View, p: Page): nat
  {
    (if OnWalk(p, 1).prefix in Prefixes(view, p.root, 1) then 0 else 1)
    + (if OnWalk(p, 2).prefix in Prefixes(view, p.root, 2) then 0 else 1)
    + (if OnWalk(p, 3).prefix in Prefixes(view, p.root, 3) then 0 else 1)
  }

  /** What a mapping costs can be read off the mapped pages alone. */
  lemma MissingIsMissing(mem: Memory, node: Nodes, view: View, p: Page)
    requires Tree(mem, node, view) && Compact(node, view, {})
    ensures MissingBelow(node, p, 4) == TablesMissing(view, p)
  {
    hide Tree, Compact, Prefixes;
    forall k | 1 <= k <= 3
      ensures OnWalk(p, k) in node <==> OnWalk(p, k).prefix in Prefixes(view, p.root, k)
    {
      TablesArePrefixes(mem, node, view, p.root, k);
      assert OnWalk(p, k) in LabelsAt(node, p.root, k) <==> OnWalk(p, k) in node;
    }
    assert MissingBelow(node, p, 1) == 0;
    assert MissingBelow(node, p, 2) == if OnWalk(p, 1) in node then 0 else 1;
    assert MissingBelow(node, p, 3) == MissingBelow(node, p, 2) + if OnWalk(p, 2) in node then 0 else 1;
  }

  lemma LabelsAtCount(mem: Memory, node: Nodes, view: View, r: nat, k: nat)
    requires Tree(mem, node, view) && Compact(node, view, {}) && 1 <= k <= 3
    ensures |LabelsAt(node, r, k)| == |Prefixes(view, r, k)|
  {
    hide Tree, Compact, OnWalk;
    TablesArePrefixes(mem, node, view, r, k);
    var labels := LabelsAt(node, r, k);
    var prefixOf := map l | l in labels :: l.prefix;
    var image := set l | l in labels :: prefixOf[l];
    forall q | q in Prefixes(view, r, k) ensures q in image {
      assert Label(r, k, q) in labels && prefixOf[Label(r, k, q)] == q;
    }
    assert image == Prefixes(view, r, k);
    ImageCardinality(labels, prefixOf, image);
  }

  /** The pages and the PML4s determine which tables there are. */
  lemma LabelsDetermined(m0: Memory, n0: Nodes, m1: Memory, n1: Nodes, view: View)
    requires Tree(m0, n0, view) && Compact(n0, view, {}) && Tree(m1, n1, view) && Compact(n1, view, {})
    requires forall l: Label | l.level == 4 :: l in n0 <==> l in n1
    ensures n0.Keys == n1.Keys
  {
    hide Tree, Compact, Prefixes;
    forall l: Label
      ensures l in n0 <==> l in n1
    {
      LabelLevels(m0, n0, view, l);
      LabelLevels(m1, n1, view, l);
      if 1 <= l.level <= 3 {
        TablesArePrefixes(m0, n0, view, l.root, l.level);
        TablesArePrefixes(m1, n1, view, l.root, l.level);
        assert l in LabelsAt(n0, l.root, l.level) <==> l in LabelsAt(n1, l.root, l.level);
      }
    }
  }

  lemma LabelLevels(mem: Memory, node: Nodes, view: View, l: Label)
    requires Tree(mem, node, view)
    ensures l in node ==> 1 <= l.level <= 4
  {
    hide EntryOk;
  }

  /** Tables that were added and given back leave the labelling as it was. */
  lemma NodesRestored(m0: Memory, n0: Nodes, n1: Nodes, m2: Memory, n2: Nodes, view: View)
    requires Tree(m0, n0, view) && Compact(n0, view, {}) && Tree(m2, n2, view) && Compact(n2, view, {})
    requires Extends(n0, n1) && Extends(n2, n1)
    ensures n2 == n0
  {
    hide Tree, Compact;
    LabelsDetermined(m0, n0, m2, n2, view);
    forall l | l in n0
      ensures n2[l] == n0[l]
    {
      assert l in n2.Keys;
    }
  }

  /** The frames an address space holds for its tables: one PML4 and one table per prefix in use. */
  lemma FramesHeld(mem: Memory, node: Nodes, view: View, r: nat)
    requires Tree(mem, node, view) && Compact(node, view, {}) && Label(r, 4, 0) in node
    ensures |TableFrames(node, r)| ==
            1 + |Prefixes(view, r, 1)| + |Prefixes(view, r, 2)| + |Prefixes(view, r, 3)|
  {
    hide Tree, Compact, Prefixes;
    TableFramesCount(mem, node, view, r);
    LabelsAtCount(mem, node, view, r, 1);
    LabelsAtCount(mem, node, view, r, 2);
    LabelsAtCount(mem, node, view, r, 3);
    LabelsByLevel(mem, node, view, r);
    FourParts(LabelsAt(node, r, 1), LabelsAt(node, r, 2), LabelsAt(node, r, 3), Label(r, 4, 0));
  }

  lemma TableFramesCount(mem: Memory, node: Nodes, view: View, r: nat)
    requires Tree(mem, node, view)
    ensures |TableFrames(node, r)| == |LabelsOf(node, r)|
  {
    hide EntryOk;
    ImageCardinality(LabelsOf(node, r), node, TableFrames(node, r));
  }

  lemma LabelsByLevel(mem: Memory, node: Nodes, view: View, r: nat)
    requires Tree(mem, node, view) && Label(r, 4, 0) in node
    ensures LabelsOf(node, r) == LabelsAt(node, r, 1) + LabelsAt(node, r, 2) + LabelsAt(node, r, 3) + {Label(r, 4, 0)}
  {
    hide EntryOk;
    forall l | l in LabelsOf(node, r) ensures WellLabelled(l) {}
  }

  lemma FourParts(a: set<Label>, b: set<Label>, c: set<Label>, d: Label)
    requires (forall l | l in a :: l.level == 1) && (forall l | l in b :: l.level == 2)
    requires forall l | l in c :: l.level == 3
    requires d.level == 4
    ensures |a + b + c + {d}| == |a| + |b| + |c| + 1
  {
    assert a !! b && (a + b) !! c && (a + b + c) !! {d};
  }

  /**
   Teardown frees every frame once: if the mapped frames are distinct, allocated and not tables, the
   number of free frames grows by the number of pages plus the number of tables.
   */
  lemma TeardownCount(mem: Memory, node: Nodes, view: View, r: nat, free: set<nat>)
    requires Tree(mem, node, view) && NoAlias(node, view, r)
    requires forall p, q | p in view && q in view && p.root == r && q.root == r && view[p].frame == view[q].frame ::
              p == q
    requires forall p | p in view && p.root == r :: view[p].frame !in free
    requires forall l | l in node :: node[l] !in free
    ensures |free + TableFrames(node, r) + LeafFrames(view, r)| == |free| + |LabelsOf(node, r)| + |PagesOf(view, r)|
  {
    hide Tree;
    TableFramesCount(mem, node, view, r);
    LeafFramesCount(view, r);
    DisjointSum(free, TableFrames(node, r), LeafFrames(view, r));
  }

  lemma LeafFramesCount(view: View, r: nat)
    requires forall p, q | p in view && q in view && p.root == r && q.root == r && view[p].frame == view[q].frame ::
              p == q
    ensures |LeafFrames(view, r)| == |PagesOf(view, r)|
  {
    var frameOf := map p | p in view :: view[p].frame;
    var pages := PagesOf(view, r);
    var image := set p | p in pages :: frameOf[p];
    forall p | p in pages ensures frameOf[p] in LeafFrames(view, r) && view[p].frame in image {}
    assert LeafFrames(view, r) == image;
    ImageCardinality(pages, frameOf, image);
  }

  lemma DisjointSum(a: set<nat>, b: set<nat>, c: set<nat>)
    requires a !! b && a !! c && b !! c
    ensures |a + b + c| == |a| + |b| + |c|
  {
    assert (a + b) !! c;
  }

  class AddressSpaces {
    const pmm: FrameAllocator
    var mem: Memory
    var kernel: Table
    var kernelRoot: nat
    var initialized: bool
    ghost var node: Nodes
    ghost var view: View

    /** vmm_initialize, after the frame allocator is up. */
    constructor (pmm: FrameAllocator, kernel: Table, kernelRoot: nat)
      requires pmm.Valid() && pmm.initialized && |kernel| == 512
      ensures this.pmm == pmm && this.kernel == kernel && this.kernelRoot == kernelRoot
      ensures Valid() && initialized && view == map[] && node == map[]
    {
      this.pmm, this.kernel, this.kernelRoot := pmm, kernel, kernelRoot;
      mem, initialized := map[], true;
      node, view := map[], map[];
    }

    /** Table frames are allocated. */
    ghost predicate Held()
      reads this, pmm, pmm.usable, pmm.free
    {
      forall l | l in node :: node[l] in pmm.Usable() && node[l] !in pmm.Free()
    }

    /** The invariant, with tables in `except` allowed to be empty for the moment. */
    ghost predicate Inv(except: set<Label>)
      reads this, pmm, pmm.usable, pmm.free
    {
      && pmm.Valid() && pmm.initialized && |kernel| == 512
      && Tree(mem, node, view) && Held() && Compact(node, view, except)
    }

    ghost predicate Valid()
      reads this, pmm, pmm.usable, pmm.free
    {
      Inv({})
    }

    /** Frames that are free or hold a table; every operation but teardown conserves them. */
    ghost function Pool(): set<nat>
      reads this, pmm, pmm.free
    {
      pmm.Free() + node.Values
    }

    /** The allocating half of next_table: a cleared table is linked into an absent entry. */
    method CreateTable(ghost l: Label, table: nat, i: nat, isUser: bool, ghost except: set<Label>)
      returns (child: nat)
      requires Inv(except) && l in node && node[l] == table && l.level > 1 && i < Slots(l.level) && isUser
      requires Child(l, i) !in node
      modifies this`mem, this`node, pmm`freeCount, pmm`hint, pmm.free
      ensures Pool() == old(Pool())
      ensures SameUpperHalves(old(mem), mem, old(node))
      ensures child == 0 <==> old(pmm.Free()) == {}
      ensures child == 0 ==> Inv(except) && node == old(node) && mem == old(mem) && pmm.Free() == old(pmm.Free())
      ensures child != 0 ==>
                && Inv(except - {l} + {Child(l, i)}) && node == old(node)[Child(l, i) := child]
                && child in old(pmm.Free()) && pmm.Free() == old(pmm.Free()) - {child}
    {
      hide Tree, Compact, SameUpperHalves, HasEntry, Frames, FrameAllocator.Valid, Held;
      ReadEntry(mem, node, view, l, i);
      SameUpperHalvesRefl(mem, node, view);
      child := AllocateTable(except);
      if child == 0 {
        return 0;
      }
      Link(l, table, i, child, isUser, except);
    }

    /** A frame for a new table. */
    method AllocateTable(ghost except: set<Label>) returns (f: nat)
      requires Inv(except)
      modifies pmm`freeCount, pmm`hint, pmm.free
      ensures Inv(except) && pmm.Usable() == old(pmm.Usable())
      ensures f == 0 <==> old(pmm.Free()) == {}
      ensures f == 0 ==> pmm.Free() == old(pmm.Free())
      ensures f != 0 ==>
                f in old(pmm.Free()) && pmm.Free() == old(pmm.Free()) - {f} && f in pmm.Usable() && Unused(node, f)
    {
      pmm.FreeIsUsable();
      hide Tree, Compact, Frames, FrameAllocator.Valid;
      var address := pmm.AllocateFrame();
      f := address / FRAME_SIZE;
    }

    /** Storing the entry of a new table. */
    method Link(ghost l: Label, table: nat, i: nat, child: nat, isUser: bool, ghost except: set<Label>)
      requires Inv(except) && l in node && node[l] == table && l.level > 1 && i < Slots(l.level) && isUser
      requires Child(l, i) !in node && Unused(node, child) && child in pmm.Usable() && child !in pmm.Free()
      modifies this`mem, this`node
      ensures Inv(except - {l} + {Child(l, i)}) && node == old(node)[Child(l, i) := child]
      ensures node.Values == old(node).Values + {child}
      ensures SameUpperHalves(old(mem), mem, old(node))
    {
      hide Tree, Compact, SameUpperHalves, HasEntry, Frames, FrameAllocator.Valid;
      ReadEntry(mem, node, view, l, i);
      LinkTableStep(mem, node, view, except, l, i, child);
      var e := Entry(true, true, isUser, false, false, true, false, child);
      var cleared := mem[child := EMPTY_TABLE];
      assert cleared[table] == mem[table];
      mem, node := cleared[table := cleared[table][i := e]], node[Child(l, i) := child];
    }

    /** next_table: the table behind an entry, allocated and cleared if absent; 0 when no frame is left. */
    method NextTable(ghost l: Label, table: nat, i: nat, isUser: bool, ghost except: set<Label>)
      returns (child: nat, created: bool)
      requires Inv(except) && l in node && node[l] == table && l.level > 1 && i < Slots(l.level) && isUser
      modifies this`mem, this`node, pmm`freeCount, pmm`hint, pmm.free
      ensures Pool() == old(Pool())
      ensures SameUpperHalves(old(mem), mem, old(node))
      ensures child == 0 <==> Child(l, i) !in old(node) && old(pmm.Free()) == {}
      ensures created <==> child != 0 && Child(l, i) !in old(node)
      ensures child != 0 ==> Child(l, i) in node && node[Child(l, i)] == child
      ensures !created ==> Inv(except) && node == old(node) && mem == old(mem) && pmm.Free() == old(pmm.Free())
      ensures created ==>
                && Inv(except - {l} + {Child(l, i)}) && node == old(node)[Child(l, i) := child]
                && child in old(pmm.Free()) && pmm.Free() == old(pmm.Free()) - {child}
    {
      ReadEntry(mem, node, view, l, i);
      SameUpperHalvesRefl(mem, node, view);
      assert Child(l, i) in node ==> node[Child(l, i)] != 0 by { pmm.FrameZeroIsNotUsable(); }
      hide Tree, Compact, SameUpperHalves, HasEntry, Frames, Consistent, Held;
      var entry := mem[table][i];
      if entry.present {
        if isUser && !entry.huge {
          mem := mem[table := mem[table][i := entry.(user := true)]];
        }
        return TargetOf(entry), false;
      }
      child := CreateTable(l, table, i, isUser, except);
      created := child != 0;
    }

    /** page_table_is_empty */
    static method PageTableIsEmpty(table: Table) returns (empty: bool)
      requires |table| == 512
      ensures empty <==> forall i | 0 <= i < 512 :: !table[i].present
    {
      for i := 0 to 512
        invariant forall j | 0 <= j < i :: !table[j].present
      {
        if table[i].present {
          return false;
        }
      }
      return true;
    }

    /** release_owned_empty_table: unlinks and frees the table behind an entry if it has become empty. */
    method ReleaseOwnedEmptyTable(ghost l: Label, table: nat, i: nat, ghost except: set<Label>) returns (ok: bool)
      requires Inv(except) && l in node && node[l] == table && l.level > 1 && i < Slots(l.level)
      modifies this`mem, this`node, pmm`freeCount, pmm`hint, pmm.free
      ensures ok <==> Child(l, i) in old(node) && !HasEntry(old(node), view, Child(l, i))
      ensures Pool() == old(Pool()) && pmm.Usable() == old(pmm.Usable())
      ensures SameUpperHalves(old(mem), mem, old(node))
      ensures !ok ==> Inv(except) && node == old(node) && mem == old(mem) && pmm.Free() == old(pmm.Free())
      ensures ok ==>
                && Inv(except - {Child(l, i)} + {l}) && node == old(node) - {Child(l, i)}
                && pmm.Free() == old(pmm.Free()) + {old(node)[Child(l, i)]}
    {
      hide Compact, SameUpperHalves, HasEntry, Frames, FrameAllocator.Valid, Held;
      ReadEntry(mem, node, view, l, i);
      SameUpperHalvesRefl(mem, node, view);
      ghost var c := Child(l, i);
      ChildParent(l, i);
      var entry := mem[table][i];
      if !(entry.present && entry.ownedTable) {
        return false;
      }
      EmptyIffNoEntry(mem, node, view, c);
      hide Tree;
      var empty := PageTableIsEmpty(mem[entry.frame]);
      if !empty {
        return false;
      }
      UnlinkAndFree(l, table, i, entry.frame, except);
      ok := true;
    }

    method UnlinkAndFree(ghost l: Label, table: nat, i: nat, child: nat, ghost except: set<Label>)
      requires Inv(except) && l in node && node[l] == table && l.level > 1 && i < Slots(l.level)
      requires Child(l, i) in node && node[Child(l, i)] == child && !HasEntry(node, view, Child(l, i))
      modifies this`mem, this`node, pmm`freeCount, pmm`hint, pmm.free
      ensures Pool() == old(Pool()) && pmm.Usable() == old(pmm.Usable())
      ensures SameUpperHalves(old(mem), mem, old(node))
      ensures Inv(except - {Child(l, i)} + {l}) && node == old(node) - {Child(l, i)}
      ensures pmm.Free() == old(pmm.Free()) + {child}
    {
      hide Tree, Compact, SameUpperHalves, HasEntry, Frames, FrameAllocator.Valid, EntryOk;
      ReadEntry(mem, node, view, l, i);
      UnlinkTableStep(mem, node, view, except, l, i);
      assert child !in (node - {Child(l, i)}).Values;
      mem, node := mem[table := mem[table][i := EMPTY]], node - {Child(l, i)};
      assert forall m | m in node :: node[m] in node.Values;
      var freed := pmm.FreeFrame(child * FRAME_SIZE);
    }

    /** The last step of a mapping: an entry that is present is never replaced. */
    method MapLeaf(ghost p: Page, table: nat, i: nat, leaf: Leaf, ghost except: set<Label>) returns (ok: bool)
      requires Inv(except) && OnWalk(p, 1) in node && node[OnWalk(p, 1)] == table && i == IndexAt(p.vpn, 1)
      requires except <= {OnWalk(p, 1)}
      modifies this`mem, this`view
      ensures ok <==> p !in old(view)
      ensures Pool() == old(Pool()) && SameUpperHalves(old(mem), mem, node)
      ensures ok ==> Inv({}) && view == old(view)[p := leaf]
      ensures !ok ==> Inv(except) && mem == old(mem) && view == old(view)
    {
      hide Tree, Compact, SameUpperHalves, HasEntry, Frames, FrameAllocator.Valid;
      ghost var l := OnWalk(p, 1);
      WalkLeaf(p);
      ReadEntry(mem, node, view, l, i);
      SameUpperHalvesRefl(mem, node, view);
      if mem[table][i].present {
        return false;
      }
      LinkLeafStep(mem, node, view, except, l, i, leaf);
      assert except - {l} == {};
      mem, view := mem[table := mem[table][i := LeafEntry(leaf)]], view[p := leaf];
      ok := true;
    }

    lemma InvParts(except: set<Label>)
      requires Inv(except)
      ensures Tree(mem, node, view) && Compact(node, view, except)
    {
    }

    /** Releasing a table that was created for nothing restores the former compactness. */
    method Rollback(ghost l: Label, table: nat, i: nat, ghost inner: set<Label>, ghost except: set<Label>)
      requires Inv(inner) && l in node && node[l] == table && l.level > 1 && i < Slots(l.level)
      requires Child(l, i) in node && !HasEntry(node, view, Child(l, i))
      requires Compact(node - {Child(l, i)}, view, except)
      modifies this`mem, this`node, pmm`freeCount, pmm`hint, pmm.free
      ensures Inv(except) && node == old(node) - {Child(l, i)}
      ensures pmm.Free() == old(pmm.Free()) + {old(node)[Child(l, i)]}
      ensures Pool() == old(Pool()) && SameUpperHalves(old(mem), mem, old(node))
    {
      hide Tree, Compact, SameUpperHalves, HasEntry, Frames, FrameAllocator.Valid, Held;
      var released := ReleaseOwnedEmptyTable(l, table, i, inner);
    }

    /**
     The walk of vmm_map_page_in from a table of `level` down, with the rollback labels: a table
     created on the way is released again when a later step fails.
     */
    method MapAt(ghost p: Page, vpn: nat, level: nat, table: nat, leaf: Leaf, isUser: bool, ghost except: set<Label>)
      returns (ok: bool)
      requires 1 <= level <= 4 && p.vpn == vpn < 256 * 512 * 512 * 512 && isUser
      requires Inv(except) && OnWalk(p, level) in node && node[OnWalk(p, level)] == table
      requires except <= {OnWalk(p, level)}
      requires except != {} ==> !HasEntry(node, view, OnWalk(p, level))
      modifies this`mem, this`node, this`view, pmm`freeCount, pmm`hint, pmm.free
      ensures Pool() == old(Pool())
      ensures SameUpperHalves(old(mem), mem, old(node))
      ensures ok <==> p !in old(view) && MissingBelow(old(node), p, level) <= |old(pmm.Free())|
      ensures ok ==>
                Inv({}) && view == old(view)[p := leaf]
                && |pmm.Free()| + MissingBelow(old(node), p, level) == |old(pmm.Free())|
      ensures ok ==> Extends(old(node), node)
      ensures !ok ==> Inv(except) && node == old(node) && view == old(view) && pmm.Free() == old(pmm.Free())
      decreases level, 2
    {
      hide *;
      MissingBelowStep(node, p, level);
      ExtendsRefl(node);
      if level == 1 {
        ok := MapLeaf(p, table, IndexAt(vpn, 1), leaf, except);
      } else {
        ok := MapBelow(p, vpn, level, table, leaf, isUser, except);
      }
    }

    /** One upper level of the walk. */
    method MapBelow(ghost p: Page, vpn: nat, level: nat, table: nat, leaf: Leaf, isUser: bool, ghost except: set<Label>)
      returns (ok: bool)
      requires 2 <= level <= 4 && p.vpn == vpn < 256 * 512 * 512 * 512 && isUser
      requires Inv(except) && OnWalk(p, level) in node && node[OnWalk(p, level)] == table
      requires except <= {OnWalk(p, level)}
      requires except != {} ==> !HasEntry(node, view, OnWalk(p, level))
      modifies this`mem, this`node, this`view, pmm`freeCount, pmm`hint, pmm.free
      ensures Pool() == old(Pool())
      ensures SameUpperHalves(old(mem), mem, old(node))
      ensures ok <==> p !in old(view) && MissingBelow(old(node), p, level) <= |old(pmm.Free())|
      ensures ok ==>
                Inv({}) && view == old(view)[p := leaf]
                && |pmm.Free()| + MissingBelow(old(node), p, level) == |old(pmm.Free())|
      ensures ok ==> Extends(old(node), node)
      ensures !ok ==> Inv(except) && node == old(node) && view == old(view) && pmm.Free() == old(pmm.Free())
      decreases level, 1
    {
      hide *;
      ghost var l, c := OnWalk(p, level), OnWalk(p, level - 1);
      ghost var mem0, node0, view0, free0 := mem, node, view, pmm.Free();
      var i := IndexAt(vpn, level);
      MissingBelowStep(node, p, level);
      InvParts(except);
      ExtendsRefl(node);
      WalkStep(p, level);
      ChildParent(l, i);
      if c in node { ParentHasEntry(node, view, c); }
      var child, created := NextTable(l, table, i, isUser, except);
      if child == 0 {
        assert |free0| == 0;
        return false;
      }
      ghost var mem1, node1 := mem, node;
      if created {
        FreshTable(mem0, node0, view0, p, level, child, except, free0);
        ok := MapFresh(p, vpn, level, table, child, leaf, isUser, except);
      } else {
        ok := MapAt(p, vpn, level - 1, child, leaf, isUser, {});
      }
      SameUpperHalvesTrans(mem0, mem1, mem, node0, node1);
    }

    /** The continuation of the walk below a table created for it, with its rollback. */
    method MapFresh(ghost p: Page, vpn: nat, level: nat, table: nat, child: nat, leaf: Leaf,
                    isUser: bool, ghost except: set<Label>)
      returns (ok: bool)
      requires 2 <= level <= 4 && p.vpn == vpn < 256 * 512 * 512 * 512 && isUser
      requires OnWalk(p, level) in node && node[OnWalk(p, level)] == table
      requires OnWalk(p, level - 1) in node && node[OnWalk(p, level - 1)] == child
      requires Inv({OnWalk(p, level - 1)}) && !HasEntry(node, view, OnWalk(p, level - 1))
      requires Compact(node - {OnWalk(p, level - 1)}, view, except)
      modifies this`mem, this`node, this`view, pmm`freeCount, pmm`hint, pmm.free
      ensures Pool() == old(Pool())
      ensures SameUpperHalves(old(mem), mem, old(node))
      ensures ok <==> p !in old(view) && MissingBelow(old(node), p, level - 1) <= |old(pmm.Free())|
      ensures ok ==>
                Inv({}) && view == old(view)[p := leaf]
                && |pmm.Free()| + MissingBelow(old(node), p, level - 1) == |old(pmm.Free())|
      ensures ok ==> Extends(old(node), node)
      ensures !ok ==> Inv(except) && view == old(view) && node == old(node) - {OnWalk(p, level - 1)}
      ensures !ok ==> pmm.Free() == old(pmm.Free()) + {child}
      decreases level, 0
    {
      hide *;
      ghost var l, c := OnWalk(p, level), OnWalk(p, level - 1);
      ghost var mem0, node0 := mem, node;
      ExtendsRefl(node);
      ok := MapAt(p, vpn, level - 1, child, leaf, isUser, {c});
      if !ok {
        ghost var mem2 := mem;
        WalkStep(p, level);
        Rollback(l, table, IndexAt(vpn, level), {c}, except);
        SameUpperHalvesTrans(mem0, mem2, mem, node0, node0);
      }
    }

    /** Two valid states with the same labelling and view hold the same tables. */
    twostate lemma TablesUnchanged()
      requires old(Valid()) && Valid() && node == old(node) && view == old(view)
      requires SameUpperHalves(old(mem), mem, node)
      ensures SameTables(old(mem), mem, node)
    {
      hide Tree, Compact, Held, FrameAllocator.Valid, SameUpperHalves, SameTables;
      TreeDeterminesTables(old(mem), mem, node, view);
    }

    lemma RootEntry(pml4: nat)
      requires Valid() && Label(pml4 / PAGE_SIZE, 4, 0) in node
      ensures node[Label(pml4 / PAGE_SIZE, 4, 0)] == pml4 / PAGE_SIZE
      ensures SameUpperHalves(mem, mem, node)
    {
      hide EntryOk, Compact, Held, FrameAllocator.Valid, SameUpperHalves;
      SameUpperHalvesRefl(mem, node, view);
    }

    /** vmm_map_page_in on the lower half: adds exactly one binding, or changes nothing. */
    method MapPage(pml4: nat, va: nat, pa: nat, flags: Flags) returns (ok: bool)
      requires Valid() && va < UPPER_HALF_START
      requires IsRoot(pml4) ==> Label(pml4 / PAGE_SIZE, 4, 0) in node
      modifies this`mem, this`node, this`view, pmm`freeCount, pmm`hint, pmm.free
      ensures Valid() && Pool() == old(Pool()) && SameUpperHalves(old(mem), mem, old(node))
      ensures ok <==> && Acceptable(pml4, va, pa, flags) && initialized && PageOf(pml4, va) !in old(view)
                      && TablesMissing(old(view), PageOf(pml4, va)) <= |old(pmm.Free())|
      ensures ok ==> view == old(view)[PageOf(pml4, va) := LeafOf(pa, flags)] && Extends(old(node), node)
      ensures ok ==> WalkEnd(mem, pml4 / 0x1000, va) ==
                     Some(Entry(true, flags.writable, flags.user, flags.noExecute, false, false, true,
                                pa / 0x1000 % 0x100_0000_0000))
      ensures ok ==> |pmm.Free()| + TablesMissing(old(view), PageOf(pml4, va)) == |old(pmm.Free())|
      ensures !ok ==> view == old(view) && node == old(node) && pmm.Free() == old(pmm.Free())
      ensures !ok ==> SameTables(old(mem), mem, node)
    {
      hide Inv, Pool, SameUpperHalves, SameTables, Extends, MissingBelow, OnWalk, LeafOf, TablesMissing;
      hide FrameAllocator.Free, Tree, Compact, Held;
      InvParts({});
      MissingIsMissing(mem, node, view, PageOf(pml4, va));
      if va % PAGE_SIZE != 0 || pa % PAGE_SIZE != 0 || pml4 == 0 || pml4 % PAGE_SIZE != 0 || flags.other {
        Unchanged();
        return false;
      }
      RootEntry(pml4);
      if flags.user && va >= LOWER_HALF_END {
        Unchanged();
        return false;
      }
      if va >= LOWER_HALF_END && va < UPPER_HALF_START {
        Unchanged();
        return false;
      }
      if !initialized {
        Unchanged();
        return false;
      }
      PageBound(pml4, va);
      var isUser := va < LOWER_HALF_END || flags.user;
      ok := MapAt(PageOf(pml4, va), va / PAGE_SIZE, 4, pml4 / PAGE_SIZE, LeafOf(pa, flags), isUser, {});
      if !ok {
        TablesUnchanged();
      } else {
        RootStays(old(node), node, pml4 / PAGE_SIZE);
        Stored(pml4, va, pa, flags);
      }
    }

    lemma RootStays(a: Nodes, b: Nodes, root: nat)
      requires Extends(a, b) && Label(root, 4, 0) in a
      ensures Label(root, 4, 0) in b
    {
    }

    /** What a mapping leaves at the end of the walk. */
    lemma Stored(pml4: nat, va: nat, pa: nat, flags: Flags)
      requires Valid() && va < LOWER_HALF_END && Label(pml4 / PAGE_SIZE, 4, 0) in node
      requires PageOf(pml4, va) in view && view[PageOf(pml4, va)] == LeafOf(pa, flags)
      ensures WalkEnd(mem, pml4 / 0x1000, va) ==
              Some(Entry(true, flags.writable, flags.user, flags.noExecute, false, false, true,
                         pa / 0x1000 % 0x100_0000_0000))
    {
      hide Tree, Compact, Held, FrameAllocator.Valid, WalkEnd, Translate;
      Translated(mem, node, view, pml4 / PAGE_SIZE, va);
    }

    /** Querying what was just mapped answers with the address and the permissions asked for. */
    method MapThenQuery(pml4: nat, va: nat, pa: nat, flags: Flags, offset: nat)
      returns (ok: bool, found: bool, address: nat, answer: Entry)
      requires Valid() && va < UPPER_HALF_START && offset < 0x1000
      requires IsRoot(pml4) ==> Label(pml4 / PAGE_SIZE, 4, 0) in node
      modifies this`mem, this`node, this`view, pmm`freeCount, pmm`hint, pmm.free
      ensures Valid() && (ok ==> found && address == pa % 0x10_0000_0000_0000 + offset)
      ensures ok ==> answer.present && answer.writable == flags.writable && answer.user == flags.user
      ensures ok ==> answer.noExecute == flags.noExecute && !answer.ownedTable && !answer.ownedMapping && !answer.huge
      ensures ok ==> Translate(mem, pml4 / 0x1000, va + offset) ==
                     Some(Access(address, flags.writable, flags.user, flags.noExecute))
    {
      hide Inv, Pool, SameUpperHalves, SameTables, Tree, Compact, Held, WalkEnd, Translate, TablesMissing;
      hide FrameAllocator.Free;
      ok := MapPage(pml4, va, pa, flags);
      found, address, answer := false, 0, EMPTY;
      if ok {
        SamePage(pml4, va, pa, offset);
        InvParts({});
        Translated(mem, node, view, pml4 / PAGE_SIZE, va + offset);
        found, address, answer := QueryPage(pml4, va + offset);
      }
    }

    lemma SamePage(pml4: nat, va: nat, pa: nat, offset: nat)
      requires va % PAGE_SIZE == 0 && pa % PAGE_SIZE == 0 && offset < 0x1000 && va < LOWER_HALF_END
      ensures PageOf(pml4, va + offset) == PageOf(pml4, va) && va + offset < LOWER_HALF_END
      ensures (va + offset) % PAGE_SIZE == offset
      ensures pa / PAGE_SIZE % 0x100_0000_0000 * PAGE_SIZE == pa % 0x10_0000_0000_0000
    {
    }

    lemma Unchanged()
      requires Valid()
      ensures SameUpperHalves(mem, mem, node) && SameTables(mem, mem, node)
    {
      hide EntryOk, Compact, Held, FrameAllocator.Valid;
      SameUpperHalvesRefl(mem, node, view);
    }

    /** vmm_query_page_in on the lower half: the view, read through four table look-ups. */
    method QueryPage(pml4: nat, va: nat) returns (found: bool, pa: nat, flags: Entry)
      requires Valid() && va < LOWER_HALF_END
      requires IsRoot(pml4) ==> Label(pml4 / PAGE_SIZE, 4, 0) in node
      ensures found <==> IsRoot(pml4) && initialized && PageOf(pml4, va) in view
      ensures found ==>
                var leaf := view[PageOf(pml4, va)];
                && pa == leaf.frame * 0x1000 + va % 0x1000 && flags.present && flags.frame == leaf.frame
                && flags.writable == leaf.writable && flags.user == leaf.user && flags.noExecute == leaf.noExecute
                && !flags.huge && !flags.ownedTable && !flags.ownedMapping
    {
      hide Tree, Compact, Held, OnWalk, IndexAt, FrameAllocator.Valid;
      pa, flags := 0, EMPTY;
      if pml4 == 0 || pml4 % PAGE_SIZE != 0 {
        return false, pa, flags;
      }
      if !initialized {
        return false, pa, flags;
      }
      PageBound(pml4, va);
      RootEntry(pml4);
      ghost var p := PageOf(pml4, va);
      if p in view { ViewHasWalk(mem, node, view, p); }
      var vpn := va / PAGE_SIZE;

      WalkRead(mem, node, view, p, 4);
      var entry := mem[pml4 / PAGE_SIZE][IndexAt(vpn, 4)];
      if !entry.present {
        return false, pa, flags;
      }
      var effective := entry;
      WalkRead(mem, node, view, p, 3);
      entry := mem[entry.frame][IndexAt(vpn, 3)];
      if !entry.present {
        return false, pa, flags;
      }
      effective := CombineEffectiveFlags(effective, entry);
      WalkRead(mem, node, view, p, 2);
      entry := mem[entry.frame][IndexAt(vpn, 2)];
      if !entry.present {
        return false, pa, flags;
      }
      effective := CombineEffectiveFlags(effective, entry);
      WalkRead(mem, node, view, p, 1);
      entry := mem[entry.frame][IndexAt(vpn, 1)];
      if !entry.present {
        return false, pa, flags;
      }
      effective := CombineEffectiveFlags(effective, entry);
      return true, entry.frame * PAGE_SIZE + va % PAGE_SIZE, PublicFlags(effective);
    }

    /** When the one table that may be empty is not, every table is in use again. */
    lemma InvDrop(l: Label)
      requires Inv({l}) && (l !in node || l.level == 4 || HasEntry(node, view, l))
      ensures Inv({})
    {
      hide Tree, HasEntry, Held, FrameAllocator.Valid;
    }

    /** The release cascade after a leaf of `p` has been removed. */
    method ReleaseUpwards(ghost p: Page, vpn: nat, level: nat, tables: seq<nat>)
      requires 2 <= level <= 4 && p.vpn == vpn < 256 * 512 * 512 * 512 && |tables| == 5
      requires Inv({OnWalk(p, level - 1)})
      requires forall k | level <= k <= 4 :: OnWalk(p, k) in node && node[OnWalk(p, k)] == tables[k]
      requires OnWalk(p, level - 1) in node
      modifies this`mem, this`node, pmm`freeCount, pmm`hint, pmm.free
      ensures Inv({}) && Pool() == old(Pool()) && SameUpperHalves(old(mem), mem, old(node))
      ensures Extends(node, old(node))
      decreases 4 - level
    {
      hide Inv, Tree, Compact, Held, OnWalk, IndexAt, Child, FrameAllocator.Valid, SameUpperHalves, Pool, HasEntry;
      hide Extends;
      ghost var l, c := OnWalk(p, level), OnWalk(p, level - 1);
      ghost var mem0, node0 := mem, node;
      WalkStep(p, level);
      ExtendsRefl(node);
      var ok := ReleaseOwnedEmptyTable(l, tables[level], IndexAt(vpn, level), {c});
      if !ok {
        InvDrop(c);
        return;
      }
      assert {c} - {c} + {l} == {l};
      ExtendsRemove(node0, c);
      if level == 4 {
        InvDrop(l);
        return;
      }
      WalkDistinct(p, level);
      ghost var mem1, node1 := mem, node;
      ReleaseUpwards(p, vpn, level + 1, tables);
      ExtendsTrans(node, node1, node0);
      SameUpperHalvesChain(mem0, mem1, mem, node0, node1, c);
    }

    /** The table reads of vmm_unmap_page_in; `tables[k]` is the table of level k. */
    method FindPageTable(pml4: nat, vpn: nat) returns (found: bool, tables: seq<nat>)
      requires Valid() && vpn < 256 * 512 * 512 * 512
      requires Label(pml4 / PAGE_SIZE, 4, 0) in node
      ensures |tables| == 5
      ensures var p := Page(pml4 / PAGE_SIZE, vpn);
              && (found ==> forall k | 1 <= k <= 4 :: OnWalk(p, k) in node && node[OnWalk(p, k)] == tables[k])
              && (!found ==> p !in view)
    {
      hide Tree, Compact, Held, OnWalk, IndexAt, FrameAllocator.Valid;
      ghost var p := Page(pml4 / PAGE_SIZE, vpn);
      RootLabel(p);
      RootEntry(pml4);
      if p in view { ViewHasWalk(mem, node, view, p); }
      var root := pml4 / PAGE_SIZE;
      tables := [0, 0, 0, 0, root];
      WalkRead(mem, node, view, p, 4);
      var e4 := mem[root][IndexAt(vpn, 4)];
      if !e4.present || e4.huge {
        return false, tables;
      }
      WalkRead(mem, node, view, p, 3);
      var e3 := mem[e4.frame][IndexAt(vpn, 3)];
      if !e3.present || e3.huge {
        return false, tables;
      }
      WalkRead(mem, node, view, p, 2);
      var e2 := mem[e3.frame][IndexAt(vpn, 2)];
      if !e2.present || e2.huge {
        return false, tables;
      }
      return true, [0, e2.frame, e3.frame, e4.frame, root];
    }

    /** Zeroing the leaf entry of a mapped page. */
    method UnmapLeaf(ghost p: Page, table: nat, i: nat)
      requires Inv({}) && OnWalk(p, 1) in node && node[OnWalk(p, 1)] == table && i == IndexAt(p.vpn, 1)
      modifies this`mem, this`view
      ensures Inv({OnWalk(p, 1)}) && view == old(view) - {p}
      ensures Pool() == old(Pool()) && SameUpperHalves(old(mem), mem, node)
    {
      hide Tree, Compact, SameUpperHalves, HasEntry, Frames, FrameAllocator.Valid;
      ghost var l := OnWalk(p, 1);
      WalkLeaf(p);
      ReadEntry(mem, node, view, l, i);
      UnlinkLeafStep(mem, node, view, {}, l, i);
      assert {} + {l} == {l};
      mem, view := mem[table := mem[table][i := EMPTY]], view - {p};
    }

    /**
     vmm_unmap_page_in on the lower half: removes exactly one binding and returns its frame. The
     result is 0 when nothing was mapped, and also when the page was mapped to frame 0.
     */
    method UnmapPage(pml4: nat, va: nat) returns (pa: nat)
      requires Valid() && va < LOWER_HALF_END
      requires IsRoot(pml4) ==> Label(pml4 / PAGE_SIZE, 4, 0) in node
      modifies this`mem, this`node, this`view, pmm`freeCount, pmm`hint, pmm.free
      ensures Valid() && Pool() == old(Pool()) && SameUpperHalves(old(mem), mem, old(node))
      ensures var p := PageOf(pml4, va);
              if va % PAGE_SIZE == 0 && IsRoot(pml4) && initialized && p in old(view)
              then view == old(view) - {p} && pa == old(view)[p].frame * PAGE_SIZE && Extends(node, old(node))
              else pa == 0 && view == old(view) && node == old(node) && mem == old(mem) && pmm.Free() == old(pmm.Free())
    {
      hide Inv, Tree, Compact, Held, OnWalk, IndexAt, FrameAllocator.Valid, SameUpperHalves, Pool, Extends;
      if va % PAGE_SIZE != 0 || pml4 == 0 || pml4 % PAGE_SIZE != 0 {
        Unchanged();
        return 0;
      }
      if !initialized {
        Unchanged();
        return 0;
      }
      Unchanged();
      PageBound(pml4, va);
      ghost var p := PageOf(pml4, va);
      ghost var mem0, node0 := mem, node;
      var vpn := va / PAGE_SIZE;
      var found, tables := FindPageTable(pml4, vpn);
      if !found {
        return 0;
      }
      WalkReadHere(p, 1);
      var entry := mem[tables[1]][IndexAt(vpn, 1)];
      if !(entry.present && entry.ownedMapping) {
        return 0;
      }
      UnmapLeaf(p, tables[1], IndexAt(vpn, 1));
      ghost var mem1 := mem;
      ReleaseUpwards(p, vpn, 2, tables);
      ExtendsRefl(node0);
      SameUpperHalvesTrans(mem0, mem1, mem, node0, node0);
      pa := entry.frame * PAGE_SIZE;
    }

    lemma WalkReadHere(p: Page, level: nat)
      requires Valid() && 1 <= level <= 4 && OnWalk(p, level) in node && p.vpn < 256 * 512 * 512 * 512
      ensures var f := node[OnWalk(p, level)];
              && f in mem && |mem[f]| == 512
              && var e := mem[f][IndexAt(p.vpn, level)];
                 if level > 1 then e == if OnWalk(p, level - 1) in node then TableEntry(node[OnWalk(p, level - 1)])
                     else EMPTY
                 else e == if p in view then LeafEntry(view[p]) else EMPTY
    {
      hide Tree, Compact, Held, OnWalk, IndexAt, FrameAllocator.Valid;
      WalkRead(mem, node, view, p, level);
    }

    /** vmm_create_address_space: an empty lower half under the current kernel half; 0 when no frame is left. */
    method CreateAddressSpace() returns (pml4: nat)
      requires Valid()
      modifies this`mem, this`node, pmm`freeCount, pmm`hint, pmm.free
      ensures Valid() && Pool() == old(Pool()) && SameUpperHalves(old(mem), mem, old(node))
      ensures pml4 == 0 <==> !initialized || old(pmm.Free()) == {}
      ensures pml4 == 0 ==> node == old(node) && mem == old(mem) && pmm.Free() == old(pmm.Free())
      ensures pml4 != 0 ==>
                var root := pml4 / PAGE_SIZE;
                && IsRoot(pml4) && root in old(pmm.Free()) && pmm.Free() == old(pmm.Free()) - {root}
                && Label(root, 4, 0) !in old(node) && node == old(node)[Label(root, 4, 0) := root]
                && root in mem && |mem[root]| == 512 && mem[root][256..] == kernel[256..]
    {
      hide Inv, Tree, Compact, Held, FrameAllocator.Valid, SameUpperHalves, FrameAllocator.Free, FrameAllocator.Usable;
      Unchanged();
      if !initialized {
        return 0;
      }
      var frame := AllocateTable({});
      if frame == 0 {
        return 0;
      }
      InstallRoot(frame);
      pml4 := frame * PAGE_SIZE;
    }

    /** Filling and registering a new PML4. */
    method InstallRoot(frame: nat)
      requires Valid() && Unused(node, frame) && frame in pmm.Usable() && frame !in pmm.Free()
      modifies this`mem, this`node
      ensures Valid() && Label(frame, 4, 0) !in old(node) && node == old(node)[Label(frame, 4, 0) := frame]
      ensures node.Values == old(node).Values + {frame} && SameUpperHalves(old(mem), mem, old(node))
      ensures frame in mem && |mem[frame]| == 512 && mem[frame][256..] == kernel[256..]
    {
      hide Tree, FrameAllocator.Valid, SameUpperHalves, HasEntry;
      var table := EMPTY_TABLE[..256] + kernel[256..];
      RootStep(mem, node, view, frame, table);
      assert table[256..] == kernel[256..];
      mem, node := mem[frame := table], node[Label(frame, 4, 0) := frame];
    }

    /** Frames that are free, hold a table, or are usable and mapped by `r`: conserved by its teardown. */
    ghost function TeardownPool(r: nat): set<nat>
      reads this, pmm, pmm.usable, pmm.free
    {
      Pool() + LeafFrames(view, r) * pmm.Usable()
    }

    /** pmm_free_frame on a mapped frame, with its entry cleared. */
    method ClearLeaf(ghost l: Label, table: nat, i: nat, frame: nat, ghost except: set<Label>)
      requires Inv(except) && l in node && l in except && node[l] == table && l.level == 1 && i < 512
      requires NoAlias(node, view, l.root) && PageAt(l, i) in view && view[PageAt(l, i)].frame == frame
      modifies this`mem, this`view, pmm`freeCount, pmm`hint, pmm.free
      ensures Inv(except) && view == old(view) - {PageAt(l, i)} && pmm.Usable() == old(pmm.Usable())
      ensures TeardownPool(l.root) == old(TeardownPool(l.root)) && SameUpperHalves(old(mem), mem, node)
    {
      hide Tree, Compact, SameUpperHalves, HasEntry, FrameAllocator.Valid, FrameAllocator.Free, FrameAllocator.Usable;
      ghost var p := PageAt(l, i);
      ReadEntry(mem, node, view, l, i);
      UnlinkLeafStep(mem, node, view, except, l, i);
      assert except + {l} == except;
      LeafFramesRemove(view, p);
      var freed := pmm.FreeFrame(frame * FRAME_SIZE);
      mem, view := mem[table := mem[table][i := EMPTY]], view - {p};
    }

    lemma InvWeaken(a: set<Label>, b: set<Label>)
      requires Inv(a) && forall l | l in a && l in node :: l in b
      ensures Inv(b)
    {
      hide Tree, Compact, Held, FrameAllocator.Valid;
      CompactWeaken(node, view, a, b);
    }

    /** Releasing a cleared table during teardown. */
    method ClearBranch(ghost l: Label, table: nat, i: nat, child: nat, ghost except: set<Label>)
      requires Inv(except) && l in node && l in except && node[l] == table && l.level > 1 && i < Slots(l.level)
      requires Child(l, i) in node && node[Child(l, i)] == child && !HasEntry(node, view, Child(l, i))
      modifies this`mem, this`node, pmm`freeCount, pmm`hint, pmm.free
      ensures Inv(except) && node == old(node) - {Child(l, i)} && pmm.Usable() == old(pmm.Usable())
      ensures TeardownPool(l.root) == old(TeardownPool(l.root)) && SameUpperHalves(old(mem), mem, old(node))
    {
      hide Inv, Tree, Compact, SameUpperHalves, HasEntry, Pool, Child, FrameAllocator.Valid, FrameAllocator.Free;
      hide FrameAllocator.Usable;
      UnlinkAndFree(l, table, i, child, except);
      InvWeaken(except - {Child(l, i)} + {l}, except);
    }

    /** One iteration of the loop of vmm_clear_user_address_space at `level`. */
    method ClearEntry(ghost l: Label, table: nat, level: nat, i: nat, ghost except: set<Label>)
      requires Inv(except) && l in node && node[l] == table && l.level == level && i < Slots(level) && 1 <= level <= 4
      requires NoAlias(node, view, l.root) && LabelsOf(node, l.root) <= except
      modifies this`mem, this`node, this`view, pmm`freeCount, pmm`hint, pmm.free
      ensures Inv(except) && Shrunk(old(node), old(view), node, view, l.root, level)
      ensures pmm.Usable() == old(pmm.Usable())
      ensures if level > 1 then Child(l, i) !in node else PageAt(l, i) !in view
      ensures TeardownPool(l.root) == old(TeardownPool(l.root)) && SameUpperHalves(old(mem), mem, old(node))
      decreases level, 0
    {
      hide Inv, Tree, Compact, SameUpperHalves, HasEntry, Pool, Child, PageAt, Shrunk, NoAlias, TeardownPool, Extends;
      hide FrameAllocator.Valid, FrameAllocator.Free, FrameAllocator.Usable;
      ghost var mem0, node0, view0 := mem, node, view;
      ReadHere(l, i, except);
      assert l in LabelsOf(node, l.root);
      var entry := mem[table][i];
      if !entry.present {
        ShrunkRefl(node, view, l.root, level);
        return;
      }
      if level == 1 {
        ShrunkByLeaf(node, view, l, i);
        ClearLeaf(l, table, i, entry.frame, except);
      } else {
        ghost var c := Child(l, i);
        ClearTable(c, entry.frame, level - 1, except);
        ghost var mem1, node1, view1 := mem, node, view;
        ShrunkKeeps(node0, view0, node, view, l.root, level - 1, l);
        ShrunkKeeps(node0, view0, node, view, l.root, level - 1, c);
        ShrunkByTable(node, view, l, i);
        ClearBranch(l, table, i, entry.frame, except);
        ShrunkTrans(node0, view0, node1, view1, node, view, l.root, level - 1, level, level);
        SameUpperHalvesShrunk(mem0, mem1, mem, node0, view0, node1, view1, l.root, level - 1);
      }
    }

    lemma ReadHere(l: Label, i: nat, except: set<Label>)
      requires Inv(except) && l in node && i < Slots(l.level)
      ensures node[l] in mem && |mem[node[l]]| == 512 && EntryOk(mem, node, view, l, i)
      ensures SameUpperHalves(mem, mem, node)
      ensures l.level > 1 ==> Child(l, i).root == l.root && Child(l, i).level == l.level - 1
    {
      hide Tree, Compact, SameUpperHalves, Held, FrameAllocator.Valid;
      ReadEntry(mem, node, view, l, i);
      SameUpperHalvesRefl(mem, node, view);
    }

    /** The nested loops of vmm_clear_user_address_space below a table of `level`. */
    method ClearTable(ghost l: Label, table: nat, level: nat, ghost except: set<Label>)
      requires Inv(except) && l in node && node[l] == table && l.level == level && 1 <= level <= 4
      requires NoAlias(node, view, l.root) && LabelsOf(node, l.root) <= except
      modifies this`mem, this`node, this`view, pmm`freeCount, pmm`hint, pmm.free
      ensures Inv(except) && Shrunk(old(node), old(view), node, view, l.root, level)
      ensures pmm.Usable() == old(pmm.Usable())
      ensures !HasEntry(node, view, l)
      ensures TeardownPool(l.root) == old(TeardownPool(l.root)) && SameUpperHalves(old(mem), mem, old(node))
      decreases level, 1
    {
      hide Inv, Tree, Compact, SameUpperHalves, HasEntry, Pool, Child, PageAt, Shrunk, NoAlias, TeardownPool, Gone;
      hide LabelsOf, EntryOk;
      hide FrameAllocator.Valid, FrameAllocator.Free, FrameAllocator.Usable;
      ghost var mem0, node0, view0 := mem, node, view;
      ShrunkRefl(node, view, l.root, level);
      ReadHere(l, 0, except);
      GoneZero(node, view, l);
      for i := 0 to Slots(level)
        invariant Inv(except) && Shrunk(node0, view0, node, view, l.root, level)
        invariant l in node && node[l] == table && NoAlias(node, view, l.root) && LabelsOf(node, l.root) <= except
        invariant Gone(node, view, l, i) && pmm.Usable() == old(pmm.Usable())
        invariant TeardownPool(l.root) == old(TeardownPool(l.root)) && SameUpperHalves(mem0, mem, node0)
      {
        ghost var mem1, node1, view1 := mem, node, view;
        ClearEntry(l, table, level, i, except);
        ShrunkKeeps(node1, view1, node, view, l.root, level, l);
        LabelsOfShrunk(node1, view1, node, view, l.root, level);
        ShrunkTrans(node0, view0, node1, view1, node, view, l.root, level, level, level);
        SameUpperHalvesShrunk(mem0, mem1, mem, node0, view0, node1, view1, l.root, level);
        GoneStep(node, view, l, i);
      }
      InvParts(except);
      GoneIsEmpty(mem, node, view, l);
    }

    lemma PoolIsDisjoint(except: set<Label>)
      requires Inv(except)
      ensures pmm.Free() !! node.Values
      ensures forall r | NoAlias(node, view, r) :: LeafFrames(view, r) !! node.Values
      ensures forall l | l in node && l.level == 4 :: l == Label(l.root, 4, 0)
      ensures Injective(node)
    {
      hide EntryOk, Compact, FrameAllocator.Valid;
    }

    lemma InvNarrow(r: nat, except: set<Label>)
      requires Inv(except) && forall l | l in node && l in except :: l.level == 4
      ensures Inv({})
    {
      hide Tree, HasEntry, Held, FrameAllocator.Valid;
    }

    /**
     vmm_clear_user_address_space: every page and every table below the PML4 disappears, and all of
     their frames that the allocator manages are free afterwards. The kernel's own PML4 is refused.
     */
    method ClearUserAddressSpace(pml4: nat)
      requires Valid()
      requires IsRoot(pml4) ==> Label(pml4 / PAGE_SIZE, 4, 0) in node && NoAlias(node, view, pml4 / PAGE_SIZE)
      modifies this`mem, this`node, this`view, pmm`freeCount, pmm`hint, pmm.free
      ensures Valid() && SameUpperHalves(old(mem), mem, old(node)) && pmm.Usable() == old(pmm.Usable())
      ensures var r := pml4 / PAGE_SIZE;
              if !IsRoot(pml4) || !initialized || r == kernelRoot then
                view == old(view) && node == old(node) && mem == old(mem) && pmm.Free() == old(pmm.Free())
              else
                && view == old(view) - PagesOf(old(view), r)
                && node == old(node) - (LabelsOf(old(node), r) - {Label(r, 4, 0)})
                && pmm.Free() == old(pmm.Free()) + (TableFrames(old(node), r) - {r})
                    + LeafFrames(old(view), r) * pmm.Usable()
    {
      hide Inv, Tree, Compact, SameUpperHalves, HasEntry, Shrunk, NoAlias, LabelsOf, PagesOf, TableFrames, LeafFrames;
      hide FrameAllocator.Valid, FrameAllocator.Free, FrameAllocator.Usable, Injective;
      Unchanged();
      if pml4 == 0 || pml4 % PAGE_SIZE != 0 {
        return;
      }
      if !initialized || pml4 / PAGE_SIZE == kernelRoot {
        return;
      }
      var r := pml4 / PAGE_SIZE;
      ghost var l := Label(r, 4, 0);
      ghost var node0, view0 := node, view;
      ghost var except := LabelsOf(node, r);
      RootEntry(pml4);
      InvWeaken({}, except);
      PoolIsDisjoint(except);
      ClearedValues(node, r);
      TablesAreValues(node, r);
      ClearTable(l, r, 4, except);
      InvParts(except);
      ShrunkKeeps(node0, view0, node, view, r, 4, l);
      ClearedMaps(mem, node0, view0, node, view, r);
      PoolIsDisjoint(except);
      FreedFrames(old(pmm.Free()), node0.Values, LeafFrames(view0, r) * pmm.Usable(), pmm.Free(), node.Values,
          TableFrames(node0, r) - {r});
      LabelsOfRoot(node0, r);
      InvNarrow(r, except);
    }

    /** pmm_free_frame on an empty PML4. */
    method DropRoot(r: nat)
      requires Valid() && Label(r, 4, 0) in node && forall l | l in node && l.root == r :: l.level == 4
      modifies this`node, pmm`freeCount, pmm`hint, pmm.free
      ensures Valid() && node == old(node) - {Label(r, 4, 0)} && pmm.Usable() == old(pmm.Usable())
      ensures pmm.Free() == old(pmm.Free()) + {r} && Pool() == old(Pool())
    {
      hide Tree, Compact, HasEntry, FrameAllocator.Valid, FrameAllocator.Free, FrameAllocator.Usable;
      RootEntry(r * PAGE_SIZE);
      NoLabelsLeft(node, view, r);
      UnlinkRootStep(mem, node, view, r);
      node := node - {Label(r, 4, 0)};
      assert forall m | m in node :: node[m] in node.Values;
      var freed := pmm.FreeFrame(r * FRAME_SIZE);
    }

    /**
     vmm_destroy_address_space: everything the address space held goes back to the allocator, so the
     pool afterwards is the former pool plus the managed frames it had mapped.
     */
    method DestroyAddressSpace(pml4: nat)
      requires Valid()
      requires IsRoot(pml4) ==> Label(pml4 / PAGE_SIZE, 4, 0) in node && NoAlias(node, view, pml4 / PAGE_SIZE)
      modifies this`mem, this`node, this`view, pmm`freeCount, pmm`hint, pmm.free
      ensures Valid() && SameUpperHalves(old(mem), mem, old(node)) && pmm.Usable() == old(pmm.Usable())
      ensures var r := pml4 / PAGE_SIZE;
              if !IsRoot(pml4) || !initialized || r == kernelRoot then
                view == old(view) && node == old(node) && mem == old(mem) && pmm.Free() == old(pmm.Free())
              else
                && view == old(view) - PagesOf(old(view), r) && node == old(node) - LabelsOf(old(node), r)
                && pmm.Free() == old(pmm.Free()) + TableFrames(old(node), r) + LeafFrames(old(view), r) * pmm.Usable()
                && Pool() == old(TeardownPool(r))
    {
      hide Inv, Tree, Compact, SameUpperHalves, HasEntry, NoAlias, PagesOf, LeafFrames;
      hide FrameAllocator.Valid, FrameAllocator.Free, FrameAllocator.Usable, Injective;
      Unchanged();
      if pml4 == 0 || pml4 % PAGE_SIZE != 0 {
        return;
      }
      if !initialized || pml4 / PAGE_SIZE == kernelRoot {
        return;
      }
      var r := pml4 / PAGE_SIZE;
      ghost var node0 := node;
      RootEntry(pml4);
      InvWeaken({}, {});
      PoolIsDisjoint({});
      ClearedValues(node, r);
      ClearUserAddressSpace(pml4);
      LabelsOfRoot(node0, r);
      ghost var node1 := node;
      DropRoot(r);
      assert node == node0 - LabelsOf(node0, r);
      assert r in TableFrames(node0, r);
    }
  }
}
