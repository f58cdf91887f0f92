/** Exactly when the dump terminates. */
module DumperTermination {
  import opened Wrappers
  import opened Heap
  import opened DumperWalk

  /** The calls below `c` nest less than `height` deep: the recursion comes to an end. */
  ghost predicate Halts(h: Cells, cfg: Config, c: Call, height: nat)
    decreases height
  {
    && height > 0 && c.addr in h
    && forall i | 0 <= i < |Sub(h, cfg, c)| :: Halts(h, cfg, Sub(h, cfg, c)[i], height - 1)
  }

  lemma {:induction false} HaltsHigher(h: Cells, cfg: Config, c: Call, height: nat, higher: nat)
    requires Halts(h, cfg, c, height) && height <= higher
    ensures Halts(h, cfg, c, higher)
    decreases height
  {
    forall i | 0 <= i < |Sub(h, cfg, c)| ensures Halts(h, cfg, Sub(h, cfg, c)[i], higher - 1) {
      HaltsHigher(h, cfg, Sub(h, cfg, c)[i], height - 1, higher - 1);
    }
  }

  // ----- cycles of free hops -----

  ghost predicate FreePath(h: Cells, cfg: Config, path: seq<nat>) {
    path != [] && forall i | 0 <= i < |path| - 1 :: FreeHop(h, cfg, path[i], path[i + 1])
  }

  /** A path of one or more free hops back to where it began. */
  ghost predicate FreeCycle(h: Cells, cfg: Config, path: seq<nat>) {
    FreePath(h, cfg, path) && |path| > 1 && path[0] == path[|path| - 1]
  }

  /** Calls each of which is made by the one before. */
  ghost predicate Walk(h: Cells, cfg: Config, walk: seq<Call>) {
    && walk != []
    && (forall i | 0 <= i < |walk| :: walk[i].addr in h)
    && forall i | 0 <= i < |walk| - 1 :: walk[i + 1] in Sub(h, cfg, walk[i])
  }

  ghost predicate Enters(h: Cells, cfg: Config, c: Call, walk: seq<Call>, path: seq<nat>)
    requires walk != []
  {
    var last := walk[|walk| - 1];
    Walk(h, cfg, walk) && walk[0] == c && Stop(h, cfg, last).None? && FreeCycle(h, cfg, path) && path[0] == last.addr
  }

  /** The walk from `c` comes to a cell on a cycle of free hops and does not stop there. */
  ghost predicate EntersCycle(h: Cells, cfg: Config, c: Call) {
    exists walk, path :: walk != [] && Enters(h, cfg, c, walk, path)
  }

  lemma EntersBelow(h: Cells, cfg: Config, c: Call, d: Call)
    requires c.addr in h && d in Sub(h, cfg, c) && EntersCycle(h, cfg, d)
    ensures EntersCycle(h, cfg, c)
  {
    var walk, path :| walk != [] && Enters(h, cfg, d, walk, path);
    assert Enters(h, cfg, c, [c] + walk, path);
  }

  // ----- a walk that enters no cycle ends -----

  /** `run` is the chain of free hops by which the walk has just come to `c`. */
  ghost predicate CameBy(h: Cells, cfg: Config, run: seq<nat>, c: Call) {
    && FreePath(h, cfg, run + [c.addr])
    && forall i | 0 <= i < |run| :: run[i] in h
  }

  function Unseen(h: Cells, run: seq<nat>): set<nat> {
    set a | a in h && a !in run
  }

  lemma BackIsCycle(h: Cells, cfg: Config, run: seq<nat>, c: Call)
    requires c.addr in h && CameBy(h, cfg, run, c) && c.addr in run && Stop(h, cfg, c).None?
    ensures EntersCycle(h, cfg, c)
  {
    var i :| 0 <= i < |run| && run[i] == c.addr;
    var path := (run + [c.addr])[i..];
    assert FreeCycle(h, cfg, path);
    assert Enters(h, cfg, c, [c], path);
  }

  lemma LongerRun(h: Cells, cfg: Config, run: seq<nat>, c: Call, d: Call)
    requires c.addr in h && CameBy(h, cfg, run, c) && c.addr !in run && FreeHop(h, cfg, c.addr, d.addr)
    ensures CameBy(h, cfg, run + [c.addr], d)
    ensures |Unseen(h, run + [c.addr])| < |Unseen(h, run)|
  {
    var longer := run + [c.addr];
    assert forall i | 0 <= i < |longer| :: (longer + [d.addr])[i] == longer[i];
    assert Unseen(h, longer) == Unseen(h, run) - {c.addr};
  }

  lemma {:induction false} EndsUnlessCycle(h: Cells, cfg: Config, c: Call, run: seq<nat>) returns (height: nat)
    requires Closed(h) && c.addr in h && !EntersCycle(h, cfg, c) && CameBy(h, cfg, run, c)
    ensures Halts(h, cfg, c, height)
    decreases Remaining(cfg, c), |FreshSlots(h, c.visited)|, |Unseen(h, run)|, 1, 0
  {
    height := 1;
    if Stop(h, cfg, c).None? {
      if c.addr in run { BackIsCycle(h, cfg, run, c); }
      var below := AllEnd(h, cfg, c, run, 0);
      height := below + 1;
    }
  }

  lemma {:induction false} AllEnd(h: Cells, cfg: Config, c: Call, run: seq<nat>, k: nat) returns (height: nat)
    requires Closed(h) && c.addr in h && !EntersCycle(h, cfg, c) && CameBy(h, cfg, run, c)
    requires c.addr !in run && k <= |Sub(h, cfg, c)|
    ensures forall i | k <= i < |Sub(h, cfg, c)| :: Halts(h, cfg, Sub(h, cfg, c)[i], height)
    decreases Remaining(cfg, c), |FreshSlots(h, c.visited)|, |Unseen(h, run)|, 0, |Sub(h, cfg, c)| - k
  {
    height := 0;
    if k < |Sub(h, cfg, c)| {
      var first := KidEnds(h, cfg, c, run, k);
      var rest := AllEnd(h, cfg, c, run, k + 1);
      height := if first < rest then rest else first;
      HaltsHigher(h, cfg, Sub(h, cfg, c)[k], first, height);
      forall i | k + 1 <= i < |Sub(h, cfg, c)| ensures Halts(h, cfg, Sub(h, cfg, c)[i], height) {
        HaltsHigher(h, cfg, Sub(h, cfg, c)[i], rest, height);
      }
    }
  }

  lemma {:induction false} KidEnds(h: Cells, cfg: Config, c: Call, run: seq<nat>, k: nat) returns (height: nat)
    requires Closed(h) && c.addr in h && !EntersCycle(h, cfg, c) && CameBy(h, cfg, run, c)
    requires c.addr !in run && k < |Sub(h, cfg, c)|
    ensures Halts(h, cfg, Sub(h, cfg, c)[k], height)
    decreases Remaining(cfg, c), |FreshSlots(h, c.visited)|, |Unseen(h, run)|, 0, |Sub(h, cfg, c)| - k, 0
  {
    var d := Sub(h, cfg, c)[k];
    SubProgress(h, cfg, c, k);
    if EntersCycle(h, cfg, d) { EntersBelow(h, cfg, c, d); }
    if FreeHop(h, cfg, c.addr, d.addr) && Remaining(cfg, d) == Remaining(cfg, c) && d.visited == c.visited {
      LongerRun(h, cfg, run, c, d);
      height := EndsUnlessCycle(h, cfg, d, run + [c.addr]);
    } else {
      height := EndsUnlessCycle(h, cfg, d, []);
    }
  }

  // ----- a walk that enters a cycle never ends -----

  /** One hop on along a cycle: the walk makes a call there, and does not stop either. */
  lemma HopOn(h: Cells, cfg: Config, c: Call, path: seq<nat>) returns (i: nat, onward: seq<nat>)
    requires c.addr in h && Stop(h, cfg, c).None? && FreeCycle(h, cfg, path) && path[0] == c.addr
    ensures i < |Sub(h, cfg, c)|
    ensures FreeCycle(h, cfg, onward) && onward[0] == Sub(h, cfg, c)[i].addr
    ensures Sub(h, cfg, c)[i].addr in h && Stop(h, cfg, Sub(h, cfg, c)[i]).None?
  {
    onward := path[1..] + [path[1]];
    assert FreeHop(h, cfg, path[0], path[1]);
    assert FreeHop(h, cfg, onward[0], onward[1]);
    SubAt(h, cfg, c);
    i :| 0 <= i < |Kids(cfg, h[c.addr])| && Kids(cfg, h[c.addr])[i] == path[1];
  }

  lemma {:induction false} CycleNeverEnds(h: Cells, cfg: Config, c: Call, path: seq<nat>, height: nat)
    requires c.addr in h && Stop(h, cfg, c).None? && FreeCycle(h, cfg, path) && path[0] == c.addr
    ensures !Halts(h, cfg, c, height)
    decreases height
  {
    if height > 0 {
      var i, onward := HopOn(h, cfg, c, path);
      CycleNeverEnds(h, cfg, Sub(h, cfg, c)[i], onward, height - 1);
    }
  }

  lemma {:induction false} EnteredNeverEnds(h: Cells, cfg: Config, c: Call, walk: seq<Call>, path: seq<nat>,
                                            height: nat)
    requires walk != [] && Enters(h, cfg, c, walk, path)
    ensures !Halts(h, cfg, c, height)
    decreases height
  {
    if |walk| == 1 {
      CycleNeverEnds(h, cfg, c, path, height);
    } else if height > 0 {
      var d := walk[1];
      assert d in Sub(h, cfg, walk[0]);
      var i :| 0 <= i < |Sub(h, cfg, c)| && Sub(h, cfg, c)[i] == d;
      assert Enters(h, cfg, d, walk[1..], path);
      EnteredNeverEnds(h, cfg, d, walk[1..], path, height - 1);
    }
  }

  /** On a finite heap of any shape, for any depth limit and from any point of a walk: the
      dump ends if and only if it does not come to a cycle of free hops, which are hops
      through interfaces and boxed pointers when depth is limited and through anything but
      pointer slots when it is not. */
  lemma DumpTerminatesIff(h: Cells, cfg: Config, c: Call)
    requires Closed(h) && c.addr in h
    ensures (exists height :: Halts(h, cfg, c, height)) <==> !EntersCycle(h, cfg, c)
  {
    if EntersCycle(h, cfg, c) {
      var walk, path :| walk != [] && Enters(h, cfg, c, walk, path);
      forall height ensures !Halts(h, cfg, c, height) {
        EnteredNeverEnds(h, cfg, c, walk, path, height);
      }
    } else {
      assert CameBy(h, cfg, [], c);
      var height := EndsUnlessCycle(h, cfg, c, []);
      assert Halts(h, cfg, c, height);
    }
  }

  // ----- all dumps of a heap -----

  /** No cycle is made of free hops only. */
  ghost predicate WellBoxed(h: Cells, cfg: Config) {
    forall path :: !FreeCycle(h, cfg, path)
  }

  /** The call `dump` makes on a root value. */
  function Root(a: nat): Call {
    Call(a, -1, {})
  }

  ghost predicate AllHalt(h: Cells, cfg: Config) {
    forall a | a in h :: exists height :: Halts(h, cfg, Root(a), height)
  }

  /** Every dump on a heap ends if and only if the heap has no cycle of free hops at all. */
  lemma AllTerminateIff(h: Cells, cfg: Config)
    requires Closed(h)
    ensures AllHalt(h, cfg) <==> WellBoxed(h, cfg)
  {
    if WellBoxed(h, cfg) {
      forall a | a in h ensures exists height :: Halts(h, cfg, Root(a), height) {
        DumpTerminatesIff(h, cfg, Root(a));
      }
    }
    if AllHalt(h, cfg) {
      forall path ensures !FreeCycle(h, cfg, path) {
        if FreeCycle(h, cfg, path) {
          var c := Root(path[0]);
          assert FreeHop(h, cfg, path[0], path[1]);
          assert Enters(h, cfg, c, [c], path);
          var height :| Halts(h, cfg, c, height);
          EnteredNeverEnds(h, cfg, c, [c], path, height);
        }
      }
    }
  }

  ghost predicate RankedBy(h: Cells, cfg: Config, rank: map<nat, nat>) {
    && (forall a | a in h :: a in rank)
    && (forall a, b {:trigger FreeHop(h, cfg, a, b)} | FreeHop(h, cfg, a, b) :: rank[b] < rank[a])
  }

  /** A rank for the free hops of a heap without free cycles: how high the walk from there is. */
  ghost function RankOf(h: Cells, cfg: Config): map<nat, nat>
    requires Closed(h) && WellBoxed(h, cfg)
    ensures RankedBy(h, cfg, RankOf(h, cfg))
  {
    AllTerminateIff(h, cfg);
    var rank := Heights(h, cfg);
    assert RankedBy(h, cfg, rank) by {
      forall a, b | FreeHop(h, cfg, a, b) ensures rank[b] < rank[a] {
        HopLowersHeight(h, cfg, a, b, rank[a]);
      }
    }
    rank
  }

  ghost function Heights(h: Cells, cfg: Config): (rank: map<nat, nat>)
    requires AllHalt(h, cfg)
    ensures rank.Keys == h.Keys
    ensures forall a | a in h :: Halts(h, cfg, Root(a), rank[a])
    ensures forall a, k: nat | a in h && Halts(h, cfg, Root(a), k) :: rank[a] <= k
  {
    map a | a in h :: var bound: nat :| Halts(h, cfg, Root(a), bound); Height(h, cfg, a, bound)
  }

  /** The least height at which the dump of root `a` ends. */
  ghost function Height(h: Cells, cfg: Config, a: nat, bound: nat): (height: nat)
    requires Halts(h, cfg, Root(a), bound)
    ensures Halts(h, cfg, Root(a), height)
    ensures forall k: nat | Halts(h, cfg, Root(a), k) :: height <= k
    decreases bound
  {
    if bound > 0 && Halts(h, cfg, Root(a), bound - 1) then Height(h, cfg, a, bound - 1)
    else
      assert forall k: nat | Halts(h, cfg, Root(a), k) :: bound <= k by {
        forall k: nat | Halts(h, cfg, Root(a), k) ensures bound <= k {
          if k < bound { HaltsHigher(h, cfg, Root(a), k, bound - 1); }
        }
      }
      bound
  }

  /** Without a limit the depth is not looked at. */
  lemma {:induction false} DepthIgnored(h: Cells, cfg: Config, a: nat, depth: int, depth': int, visited: set<nat>,
                                        height: nat)
    requires cfg.maxDepth <= 0 && Halts(h, cfg, Call(a, depth, visited), height)
    ensures Halts(h, cfg, Call(a, depth', visited), height)
    decreases height
  {
    var c, c' := Call(a, depth, visited), Call(a, depth', visited);
    if Stop(h, cfg, c).None? {
      SubAt(h, cfg, c);
      SubAt(h, cfg, c');
      forall i | 0 <= i < |Sub(h, cfg, c')| ensures Halts(h, cfg, Sub(h, cfg, c')[i], height - 1) {
        var d, d' := Sub(h, cfg, c)[i], Sub(h, cfg, c')[i];
        assert d' == Call(d.addr, d'.depth, d.visited);
        DepthIgnored(h, cfg, d.addr, d.depth, d'.depth, d.visited, height - 1);
      }
    }
  }

  /** A free hop leads to a root dump that ends strictly earlier. */
  lemma HopLowersHeight(h: Cells, cfg: Config, a: nat, b: nat, height: nat)
    requires FreeHop(h, cfg, a, b) && Halts(h, cfg, Root(a), height)
    ensures height > 0 && Halts(h, cfg, Root(b), height - 1)
  {
    var c := Root(a);
    assert Stop(h, cfg, c).None?;
    SubAt(h, cfg, c);
    var i :| 0 <= i < |Kids(cfg, h[a])| && Kids(cfg, h[a])[i] == b;
    assert Sub(h, cfg, c)[i] == Call(b, DepthBelow(h[a].content, -1), {});
    if !Unwraps(h[a].content) {
      DepthIgnored(h, cfg, b, 0, -1, {}, height - 1);
    }
  }

  /** A rank along the free hops rules out cycles. */
  lemma {:induction false} RankFalls(h: Cells, cfg: Config, rank: map<nat, nat>, path: seq<nat>)
    requires RankedBy(h, cfg, rank) && FreePath(h, cfg, path) && |path| > 1
    ensures path[0] in h && path[0] in rank && path[|path| - 1] in rank && rank[path[|path| - 1]] < rank[path[0]]
    decreases |path|
  {
    assert FreeHop(h, cfg, path[0], path[1]);
    if |path| > 2 {
      RankFalls(h, cfg, rank, path[1..]);
    }
  }

  lemma RankedIsWellBoxed(h: Cells, cfg: Config, rank: map<nat, nat>)
    requires RankedBy(h, cfg, rank)
    ensures WellBoxed(h, cfg)
  {
    forall path ensures !FreeCycle(h, cfg, path) {
      if FreeCycle(h, cfg, path) { RankFalls(h, cfg, rank, path); }
    }
  }

  // ----- what the exclusions are about -----

  function Plain(content: Content<nat>, addressable: bool): Cell<nat> {
    Cell(addressable, None, content)
  }

  /** `var x interface{}; x = &x`: a boxed pointer (cell 1) to the variable (cell 0) that boxes it. */
  const SELF_INTERFACE: Cells := map[
    0 := Plain(Iface(Some(1)), true),
    1 := Plain(Ptr(Some(0)), false)]

  lemma {:induction false} SelfInterfaceLoops(cfg: Config, visited: set<nat>, depth: int, a: nat, height: nat)
    requires a < 2 && (cfg.maxDepth > 0 ==> depth <= cfg.maxDepth)
    ensures !Halts(SELF_INTERFACE, cfg, Call(a, depth, visited), height)
    decreases height
  {
    var c := Call(a, depth, visited);
    if height > 0 {
      assert Stop(SELF_INTERFACE, cfg, c).None?;
      SubAt(SELF_INTERFACE, cfg, c);
      assert Sub(SELF_INTERFACE, cfg, c)[0] == Call(1 - a, depth, visited);
      SelfInterfaceLoops(cfg, visited, depth, 1 - a, height - 1);
    }
  }

  /** `type T []T; t := make(T, 1); t[0] = t`: cell 0 is the one element slot. */
  const SELF_SLICE: Cells := map[0 := Plain(Slice(false, [0]), true)]

  /** Without a depth limit a slice that contains itself is walked for ever: only pointer
      slots are remembered. */
  lemma {:induction false} SelfSliceLoops(cfg: Config, visited: set<nat>, depth: int, height: nat)
    requires cfg.maxDepth <= 0
    ensures !Halts(SELF_SLICE, cfg, Call(0, depth, visited), height)
    decreases height
  {
    var c := Call(0, depth, visited);
    if height > 0 {
      assert Stop(SELF_SLICE, cfg, c).None?;
      SubAt(SELF_SLICE, cfg, c);
      assert Kids(cfg, SELF_SLICE[0]) == [0];
      assert Sub(SELF_SLICE, cfg, c)[0] == Call(0, depth + 1, visited);
      SelfSliceLoops(cfg, visited, depth + 1, height - 1);
    }
  }
}
