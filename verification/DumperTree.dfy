/** On an acyclic heap the dump is that of the heap's tree unfolding; on any heap a
    circular marker means a real cycle. */
module DumperTree {
  import opened Wrappers
  import opened Heap
  import opened DumperWalk
  import opened Dumper
  import DumperTermination

  // ----- the pure dump of a tree -----

  function TreeLarge(cfg: Config, t: Tree): Option<string> {
    if !cfg.compactLarge then None
    else match t.cell.content
      case Ptr(Some(u)) => u.cell.large
      case Iface(Some(u)) => u.cell.large
      case _ => t.cell.large
  }

  /** The dump cut at the depth rule; nothing is remembered on the way. */
  function TreeDump(cfg: Config, t: Tree, depth: int): Dump
    decreases t, 1
  {
    if TreeLarge(cfg, t).Some? then Text(TreeLarge(cfg, t).value)
    else if CutOff(cfg, t.cell.content, depth) then Truncated(LenInfo(t.cell.content), depth)
    else Combine(cfg, t.cell, TreeDumps(cfg, t, DepthBelow(t.cell.content, depth)))
  }

  function TreeDumps(cfg: Config, t: Tree, depth: int): (r: seq<Dump>)
    ensures |r| == |Kids(cfg, t.cell)|
    decreases t, 0
  {
    seq(|Kids(cfg, t.cell)|, i requires 0 <= i < |Kids(cfg, t.cell)| =>
      KidSmaller(cfg, t, i);
      TreeDump(cfg, Kids(cfg, t.cell)[i], depth))
  }

  lemma KidSmaller(cfg: Config, t: Tree, k: nat)
    requires k < |Kids(cfg, t.cell)|
    ensures Kids(cfg, t.cell)[k] < t
  {
    KidsAreReferred(cfg, t.cell);
    assert Kids(cfg, t.cell)[k] in Kids(cfg, t.cell);
    ReferredSmaller(t, Kids(cfg, t.cell)[k]);
  }

  lemma ReferredSmaller(t: Tree, u: Tree)
    requires Refers(t.cell, u)
    ensures u < t
  {
  }

  // ----- unfolding an acyclic heap -----

  ghost predicate OrderedBy(h: Cells, order: map<nat, nat>) {
    && (forall a | a in h :: a in order)
    && (forall a, b {:trigger Refers(h[a], b)} | a in h && Refers(h[a], b) :: b in h && order[b] < order[a])
  }

  ghost predicate Acyclic(h: Cells) {
    exists order :: OrderedBy(h, order)
  }

  ghost function OrderOf(h: Cells): map<nat, nat>
    requires Acyclic(h)
    ensures OrderedBy(h, OrderOf(h))
  {
    var order :| OrderedBy(h, order);
    order
  }

  /** The value at `a` with every reference replaced by what it leads to; shared cells are copied. */
  function Unfold(h: Cells, a: nat): Tree
    requires Acyclic(h) && a in h
    decreases OrderOf(h)[a]
  {
    var c := h[a];
    Tree(Cell(c.addressable, c.large,
      match c.content
      case Leaf(s) => Leaf(s)
      case Bytes(s, n) => Bytes(s, n)
      case Ptr(None) => Ptr(None)
      case Ptr(Some(t)) => assert Refers(c, t); Ptr(Some(Unfold(h, t)))
      case Iface(None) => Iface(None)
      case Iface(Some(b)) => assert Refers(c, b); Iface(Some(Unfold(h, b)))
      case Struct(typ, fs) =>
        assert forall i | 0 <= i < |fs| :: Refers(c, fs[i].child);
        Struct(typ, seq(|fs|, i requires 0 <= i < |fs| => Field(fs[i].name, fs[i].exported, Unfold(h, fs[i].child))))
      case Slice(isNil, xs) =>
        assert forall i | 0 <= i < |xs| :: Refers(c, xs[i]);
        Slice(isNil, seq(|xs|, i requires 0 <= i < |xs| => Unfold(h, xs[i])))
      case Array(xs) =>
        assert forall i | 0 <= i < |xs| :: Refers(c, xs[i]);
        Array(seq(|xs|, i requires 0 <= i < |xs| => Unfold(h, xs[i])))
      case Map(typ, isNil, es) =>
        assert forall i | 0 <= i < |es| :: Refers(c, es[i].child);
        Map(typ, isNil, seq(|es|, i requires 0 <= i < |es| => Entry(es[i].key, Unfold(h, es[i].child))))))
  }

  // ----- refinement -----

  lemma ShapeUnfold(h: Cells, a: nat)
    requires Acyclic(h) && a in h
    ensures Unfold(h, a).cell.addressable == h[a].addressable
    ensures SameShape(h[a].content, Unfold(h, a).cell.content)
  {
  }

  lemma KidInHeap(h: Cells, cfg: Config, a: nat, k: nat)
    requires Acyclic(h) && a in h && k < |Kids(cfg, h[a])|
    ensures Refers(h[a], Kids(cfg, h[a])[k]) && Kids(cfg, h[a])[k] in h
  {
    KidsAreReferred(cfg, h[a]);
    assert Kids(cfg, h[a])[k] in Kids(cfg, h[a]);
    var _ := OrderOf(h);
  }

  /** Child `k` of a content, in order. */
  function ChildAt<T>(content: Content<T>, k: nat): Option<T> {
    match content
    case Ptr(t) => if k == 0 then t else None
    case Iface(t) => if k == 0 then t else None
    case Struct(_, fs) => if k < |fs| then Some(fs[k].child) else None
    case Slice(_, xs) => if k < |xs| then Some(xs[k]) else None
    case Array(xs) => if k < |xs| then Some(xs[k]) else None
    case Map(_, _, es) => if k < |es| then Some(es[k].child) else None
    case _ => None
  }

  lemma ChildUnfold(h: Cells, a: nat, k: nat)
    requires Acyclic(h) && a in h && ChildAt(h[a].content, k).Some? && ChildAt(h[a].content, k).value in h
    ensures ChildAt(Unfold(h, a).cell.content, k) == Some(Unfold(h, ChildAt(h[a].content, k).value))
  {
  }

  /** The position of kid `k` among the children. */
  function KidPosition<T>(cfg: Config, cell: Cell<T>, k: nat): nat {
    if cell.content.Struct? && k < |WalkedAt(cfg, cell.addressable, cell.content.fields, |cell.content.fields|)|
    then WalkedAt(cfg, cell.addressable, cell.content.fields, |cell.content.fields|)[k] else k
  }

  lemma KidIsChild<T>(cfg: Config, cell: Cell<T>, k: nat)
    requires k < |Kids(cfg, cell)|
    ensures ChildAt(cell.content, KidPosition(cfg, cell, k)) == Some(Kids(cfg, cell)[k])
  {
  }

  /** The unfolded cell has the kids of the heap's cell, unfolded. */
  lemma KidsUnfold(h: Cells, cfg: Config, a: nat, k: nat)
    requires Acyclic(h) && a in h && k < |Kids(cfg, h[a])|
    ensures Refers(h[a], Kids(cfg, h[a])[k]) && Kids(cfg, h[a])[k] in h
    ensures k < |Kids(cfg, Unfold(h, a).cell)|
    ensures Kids(cfg, Unfold(h, a).cell)[k] == Unfold(h, Kids(cfg, h[a])[k])
  {
    var tree := Unfold(h, a).cell;
    KidInHeap(h, cfg, a, k);
    ShapeUnfold(h, a);
    SameKidCount(cfg, h[a], tree);
    KidIsChild(cfg, h[a], k);
    KidIsChild(cfg, tree, k);
    if h[a].content.Struct? {
      SameWalked(cfg, h[a].addressable, h[a].content.fields, tree.content.fields, |tree.content.fields|);
    }
    ChildUnfold(h, a, KidPosition(cfg, h[a], k));
  }

  lemma StopUnfold(h: Cells, cfg: Config, c: Call)
    requires Acyclic(h) && c.addr in h && c.addr !in c.visited
    ensures var t := Unfold(h, c.addr);
      Stop(h, cfg, c) == if TreeLarge(cfg, t).Some? then Some(Text(TreeLarge(cfg, t).value))
                         else if CutOff(cfg, t.cell.content, c.depth)
                         then Some(Truncated(LenInfo(t.cell.content), c.depth))
                         else None
  {
    var cell := h[c.addr];
    match cell.content
    case Ptr(Some(t)) => assert Refers(cell, t);
    case Iface(Some(b)) => assert Refers(cell, b);
    case _ =>
  }

  /** On an acyclic heap, shared cells included, with the slots of any path above `a`
      remembered, the dump is the pure dump of the unfolded tree. */
  lemma {:induction false} DumpRefinesTree(h: Cells, cfg: Config, c: Call)
    requires Valid(h, cfg) && Acyclic(h) && c.addr in h
    requires forall v | v in c.visited :: v in h && OrderOf(h)[c.addr] < OrderOf(h)[v]
    ensures DumpOf(h, cfg, c) == TreeDump(cfg, Unfold(h, c.addr), c.depth)
    decreases OrderOf(h)[c.addr], 1
  {
    StopUnfold(h, cfg, c);
    if Stop(h, cfg, c).None? {
      SubAt(h, cfg, c);
      ShapeUnfold(h, c.addr);
      SameKidCount(cfg, h[c.addr], Unfold(h, c.addr).cell);
      var below := DepthBelow(h[c.addr].content, c.depth);
      forall i | 0 <= i < |KidDumps(h, cfg, c)|
        ensures KidDumps(h, cfg, c)[i] == TreeDumps(cfg, Unfold(h, c.addr), below)[i]
      {
        KidRefinesTree(h, cfg, c, i);
      }
      assert KidDumps(h, cfg, c) == TreeDumps(cfg, Unfold(h, c.addr), below);
      SameCombine(cfg, h[c.addr], Unfold(h, c.addr).cell, KidDumps(h, cfg, c));
    }
  }

  lemma {:induction false} KidRefinesTree(h: Cells, cfg: Config, c: Call, i: nat)
    requires Valid(h, cfg) && Acyclic(h) && c.addr in h && Stop(h, cfg, c).None?
    requires forall v | v in c.visited :: v in h && OrderOf(h)[c.addr] < OrderOf(h)[v]
    requires i < |Kids(cfg, h[c.addr])| == |Kids(cfg, Unfold(h, c.addr).cell)|
    ensures |KidDumps(h, cfg, c)| == |Kids(cfg, h[c.addr])|
    ensures KidDumps(h, cfg, c)[i] == TreeDumps(cfg, Unfold(h, c.addr), DepthBelow(h[c.addr].content, c.depth))[i]
    decreases OrderOf(h)[c.addr], 0
  {
    KidDumpAt(h, cfg, c, i);
    KidsUnfold(h, cfg, c.addr, i);
    DumpRefinesTree(h, cfg, Call(Kids(cfg, h[c.addr])[i], DepthBelow(h[c.addr].content, c.depth), VisitedBelow(h, c)));
  }

  /** An acyclic heap needs no separate condition on its boxes. */
  lemma AcyclicIsWellBoxed(h: Cells, cfg: Config)
    requires Acyclic(h)
    ensures DumperTermination.WellBoxed(h, cfg)
  {
    var order := OrderOf(h);
    forall a, b | FreeHop(h, cfg, a, b) ensures order[b] < order[a] {
      KidsAreReferred(cfg, h[a]);
      assert Refers(h[a], b);
    }
    DumperTermination.RankedIsWellBoxed(h, cfg, order);
  }

  /** Dump refinement, from the root. */
  lemma RootDumpIsTreeDump(h: Cells, cfg: Config, a: nat)
    requires Closed(h) && Acyclic(h) && a in h
    ensures DumperTermination.WellBoxed(h, cfg)
    ensures DumpOf(h, cfg, Call(a, -1, {})) == TreeDump(cfg, Unfold(h, a), -1)
  {
    AcyclicIsWellBoxed(h, cfg);
    DumpRefinesTree(h, cfg, Call(a, -1, {}));
  }

  // ----- circular markers -----

  ghost predicate HasMarker(d: Dump, slot: nat) {
    match d
    case Circular(s) => s == slot
    case Obj(ms) => exists i :: 0 <= i < |ms| && HasMarker(ms[i].value, slot)
    case Arr(xs) => exists i :: 0 <= i < |xs| && HasMarker(xs[i], slot)
    case _ => false
  }

  /** `path` leads along references from its first to its last address. */
  ghost predicate Path(h: Cells, path: seq<nat>) {
    && path != []
    && (forall i | 0 <= i < |path| :: path[i] in h)
    && forall i | 0 <= i < |path| - 1 :: Refers(h[path[i]], path[i + 1])
  }

  ghost predicate Leads(h: Cells, a: nat, b: nat, path: seq<nat>) {
    Path(h, path) && path[0] == a && path[|path| - 1] == b
  }

  ghost predicate Reaches(h: Cells, a: nat, b: nat) {
    exists path :: Leads(h, a, b, path)
  }

  /** Slot `s` lies on a cycle of references. */
  ghost predicate OnCycle(h: Cells, s: nat) {
    exists path :: Leads(h, s, s, path) && |path| > 1
  }

  lemma ReachesStep(h: Cells, a: nat, b: nat, c: nat)
    requires a in h && Refers(h[a], b) && Reaches(h, b, c)
    ensures Reaches(h, a, c) && (a == c ==> OnCycle(h, a))
  {
    var path :| Leads(h, b, c, path);
    assert Leads(h, a, c, [a] + path);
  }

  lemma MarkerInPart(d: Dump, slot: nat) returns (k: nat)
    requires HasMarker(d, slot) && (d.Obj? || d.Arr?)
    ensures k < |PartsOf(d)| && HasMarker(PartsOf(d)[k], slot)
  {
    match d
    case Obj(ms) => k :| 0 <= k < |ms| && HasMarker(ms[k].value, slot);
    case Arr(xs) => k :| 0 <= k < |xs| && HasMarker(xs[k], slot);
  }

  /** A marker in a combined dump comes from one of the results. */
  lemma CombineMarker(cfg: Config, cell: Cell<nat>, results: seq<Dump>, slot: nat) returns (k: nat)
    requires |results| == |Kids(cfg, cell)| && HasMarker(Combine(cfg, cell, results), slot)
    ensures k < |results| && HasMarker(results[k], slot)
  {
    if Unwraps(cell.content) {
      k := 0;
    } else {
      CombineParts(cfg, cell, results);
      var i := MarkerInPart(Combine(cfg, cell, results), slot);
      assert Part(PartsOf(Combine(cfg, cell, results))[i], results);
      k :| 0 <= k < |results| && results[k] == PartsOf(Combine(cfg, cell, results))[i];
    }
  }

  /** A circular marker names a slot of the current path that the marked place leads back
      to, or a slot on a cycle below. */
  lemma {:induction false} MarkerMeaning(h: Cells, cfg: Config, c: Call, slot: nat)
    requires Valid(h, cfg) && c.addr in h && HasMarker(DumpOf(h, cfg, c), slot)
    ensures OnCycle(h, slot) || (slot in c.visited && Reaches(h, c.addr, slot))
    ensures slot in h && h[slot].addressable && h[slot].content.Ptr?
    decreases Remaining(cfg, c), |FreshSlots(h, c.visited)|, Rank(h, cfg, c)
  {
    if Stop(h, cfg, c).Some? {
      assert Leads(h, c.addr, c.addr, [c.addr]);
    } else {
      SubAt(h, cfg, c);
      var k := CombineMarker(cfg, h[c.addr], KidDumps(h, cfg, c), slot);
      KidDumpAt(h, cfg, c, k);
      SubSmaller(h, cfg, c, k);
      var d := Sub(h, cfg, c)[k];
      MarkerMeaning(h, cfg, d, slot);
      if !OnCycle(h, slot) {
        ReachesStep(h, c.addr, d.addr, slot);
      }
    }
  }

  /** From the root: every circular marker names a pointer slot on a true cycle. */
  lemma MarkersAreCycles(h: Cells, cfg: Config, a: nat, slot: nat)
    requires Valid(h, cfg) && a in h && HasMarker(DumpOf(h, cfg, Call(a, -1, {})), slot)
    ensures OnCycle(h, slot) && slot in h && h[slot].content.Ptr?
  {
    MarkerMeaning(h, cfg, Call(a, -1, {}), slot);
  }
}
