/** The calls a dump makes on a possibly cyclic heap. */
module DumperWalk {
  import opened Wrappers
  import opened Heap

  /** The arguments of one `dumpWithDepth` call; `visited` is the set of pointer slots on
      the current path. */
  datatype Call = Call(addr: nat, depth: int, visited: set<nat>)

  /** No dangling references, and addressability as Go has it: what a pointer or a slice
      leads to has an address, what is boxed or in a map has none, parts go with the whole. */
  ghost predicate Closed(h: Cells) {
    forall a, b {:trigger Refers(h[a], b)} | a in h && Refers(h[a], b) ::
      b in h &&
      match h[a].content
      case Ptr(_) => h[b].addressable
      case Slice(_, _) => h[b].addressable
      case Iface(_) => !h[b].addressable
      case Map(_, _, _) => !h[b].addressable
      case _ => h[b].addressable == h[a].addressable
  }

  /** The registry looks through one pointer or interface. */
  function LargeText(h: Cells, cfg: Config, a: nat): Option<string>
    requires a in h
  {
    if !cfg.compactLarge then None
    else match h[a].content
      case Ptr(Some(t)) => if t in h then h[t].large else None
      case Iface(Some(b)) => if b in h then h[b].large else None
      case _ => h[a].large
  }

  predicate OnPath(h: Cells, c: Call)
    requires c.addr in h
  {
    h[c.addr].addressable && h[c.addr].content.Ptr? && c.addr in c.visited
  }

  /** The result of a call that makes no further call, if it is one. */
  function Stop(h: Cells, cfg: Config, c: Call): Option<Dump>
    requires c.addr in h
  {
    if LargeText(h, cfg, c.addr).Some? then Some(Text(LargeText(h, cfg, c.addr).value))
    else if CutOff(cfg, h[c.addr].content, c.depth) then Some(Truncated(LenInfo(h[c.addr].content), c.depth))
    else if OnPath(h, c) then Some(Circular(c.addr))
    else None
  }

  function VisitedBelow(h: Cells, c: Call): set<nat>
    requires c.addr in h
  {
    if h[c.addr].content.Ptr? && h[c.addr].addressable then c.visited + {c.addr} else c.visited
  }

  /** The calls a call makes, in order. */
  function Sub(h: Cells, cfg: Config, c: Call): seq<Call>
    requires c.addr in h
  {
    if Stop(h, cfg, c).Some? then []
    else
      var kids := Kids(cfg, h[c.addr]);
      var depth := DepthBelow(h[c.addr].content, c.depth);
      seq(|kids|, i requires 0 <= i < |kids| => Call(kids[i], depth, VisitedBelow(h, c)))
  }

  lemma SubAt(h: Cells, cfg: Config, c: Call)
    requires c.addr in h && Stop(h, cfg, c).None?
    ensures |Sub(h, cfg, c)| == |Kids(cfg, h[c.addr])|
    ensures forall i | 0 <= i < |Kids(cfg, h[c.addr])| ::
              Sub(h, cfg, c)[i] ==
              Call(Kids(cfg, h[c.addr])[i], DepthBelow(h[c.addr].content, c.depth), VisitedBelow(h, c))
  {
  }

  /** The walk goes from `a` to `b` without entering a pointer slot and without using up
      depth: through an interface or a boxed pointer or, when there is no depth limit,
      through any container. */
  ghost predicate FreeHop(h: Cells, cfg: Config, a: nat, b: nat) {
    && a in h && b in h && b in Kids(cfg, h[a])
    && !(h[a].content.Ptr? && h[a].addressable)
    && (Unwraps(h[a].content) || cfg.maxDepth <= 0)
    && LargeText(h, cfg, a).None?
  }

  function Remaining(cfg: Config, c: Call): nat {
    if cfg.maxDepth <= 0 || c.depth > cfg.maxDepth then 0 else cfg.maxDepth + 1 - c.depth
  }

  /** The pointer slots a path may still enter. */
  function FreshSlots(h: Cells, visited: set<nat>): set<nat> {
    set a | a in h && h[a].addressable && h[a].content.Ptr? && a !in visited
  }

  /** A call made has less depth left, or the same and fewer fresh pointer slots, or is
      reached by a free hop. */
  lemma SubProgress(h: Cells, cfg: Config, c: Call, i: nat)
    requires Closed(h) && c.addr in h && i < |Sub(h, cfg, c)|
    ensures var d := Sub(h, cfg, c)[i];
      && d.addr in h && Refers(h[c.addr], d.addr)
      && (|| Remaining(cfg, d) < Remaining(cfg, c)
          || (Remaining(cfg, d) == Remaining(cfg, c) && |FreshSlots(h, d.visited)| < |FreshSlots(h, c.visited)|)
          || (Remaining(cfg, d) == Remaining(cfg, c) && d.visited == c.visited && FreeHop(h, cfg, c.addr, d.addr)))
  {
    var cell, d := h[c.addr], Sub(h, cfg, c)[i];
    KidsAreReferred(cfg, cell);
    assert d == Call(Kids(cfg, cell)[i], DepthBelow(cell.content, c.depth), VisitedBelow(h, c));
    assert Refers(h[c.addr], d.addr);
    if cell.content.Ptr? && cell.addressable {
      assert c.addr in FreshSlots(h, c.visited);
      assert FreshSlots(h, c.visited + {c.addr}) == FreshSlots(h, c.visited) - {c.addr};
    } else if Unwraps(cell.content) || cfg.maxDepth <= 0 {
      assert d.addr in Kids(cfg, cell);
    }
  }
}
