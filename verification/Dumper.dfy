/** The recursive dump of a possibly cyclic heap. */
module Dumper {
  import opened Wrappers
  import opened Heap
  import opened DumperWalk
  import DumperTermination

  /** References are sound and no cycle is made of free hops only, so that every dump ends. */
  ghost predicate Valid(h: Cells, cfg: Config) {
    Closed(h) && DumperTermination.WellBoxed(h, cfg)
  }

  ghost function Rank(h: Cells, cfg: Config, c: Call): nat
    requires Valid(h, cfg) && c.addr in h
  {
    DumperTermination.RankOf(h, cfg)[c.addr]
  }

  /** Every call made is smaller: less depth remains, or the same depth and fewer fresh
      pointer slots, or both the same and a lower rank. */
  lemma SubSmaller(h: Cells, cfg: Config, c: Call, i: nat)
    requires Valid(h, cfg) && c.addr in h && i < |Sub(h, cfg, c)|
    ensures var d := Sub(h, cfg, c)[i];
      && d.addr in h && Refers(h[c.addr], d.addr)
      && (|| Remaining(cfg, d) < Remaining(cfg, c)
          || (Remaining(cfg, d) == Remaining(cfg, c) && |FreshSlots(h, d.visited)| < |FreshSlots(h, c.visited)|)
          || (Remaining(cfg, d) == Remaining(cfg, c) && |FreshSlots(h, d.visited)| == |FreshSlots(h, c.visited)| &&
              Rank(h, cfg, d) < Rank(h, cfg, c)))
  {
    SubProgress(h, cfg, c, i);
    var _ := DumperTermination.RankOf(h, cfg);
  }

  /** `dumpWithDepth`. */
  function DumpOf(h: Cells, cfg: Config, c: Call): Dump
    requires Valid(h, cfg) && c.addr in h
    decreases Remaining(cfg, c), |FreshSlots(h, c.visited)|, Rank(h, cfg, c), 1
  {
    match Stop(h, cfg, c)
    case Some(d) => d
    case None => Combine(cfg, h[c.addr], KidDumps(h, cfg, c))
  }

  /** The results of the calls that `c` makes. */
  function KidDumps(h: Cells, cfg: Config, c: Call): (r: seq<Dump>)
    requires Valid(h, cfg) && c.addr in h
    ensures |r| == |Sub(h, cfg, c)|
    decreases Remaining(cfg, c), |FreshSlots(h, c.visited)|, Rank(h, cfg, c), 0
  {
    seq(|Sub(h, cfg, c)|, i requires 0 <= i < |Sub(h, cfg, c)| =>
      SubSmaller(h, cfg, c, i);
      DumpOf(h, cfg, Sub(h, cfg, c)[i]))
  }

  lemma KidDumpAt(h: Cells, cfg: Config, c: Call, i: nat)
    requires Valid(h, cfg) && c.addr in h && Stop(h, cfg, c).None? && i < |Kids(cfg, h[c.addr])|
    ensures |KidDumps(h, cfg, c)| == |Kids(cfg, h[c.addr])| && Kids(cfg, h[c.addr])[i] in h
    ensures KidDumps(h, cfg, c)[i] ==
            DumpOf(h, cfg, Call(Kids(cfg, h[c.addr])[i], DepthBelow(h[c.addr].content, c.depth), VisitedBelow(h, c)))
  {
    SubAt(h, cfg, c);
    SubSmaller(h, cfg, c, i);
  }
}
