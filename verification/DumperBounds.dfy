/** How large a dump can get. */
module DumperBounds {
  import opened Wrappers
  import opened Heap
  import opened DumperWalk
  import opened Dumper
  import opened DumperTree

  /** At most `n` containers are nested in one another. */
  predicate NestsAtMost(d: Dump, n: nat) {
    match d
    case Obj(ms) => n > 0 && forall i | 0 <= i < |ms| :: NestsAtMost(ms[i].value, n - 1)
    case Arr(xs) => n > 0 && forall i | 0 <= i < |xs| :: NestsAtMost(xs[i], n - 1)
    case _ => true
  }

  function Nodes(d: Dump): nat {
    match d
    case Obj(ms) => 1 + MemberNodes(ms)
    case Arr(xs) => 1 + ItemNodes(xs)
    case _ => 1
  }

  function MemberNodes(ms: seq<Member>): nat {
    if ms == [] then 0 else Nodes(ms[0].value) + MemberNodes(ms[1..])
  }

  function ItemNodes(xs: seq<Dump>): nat {
    if xs == [] then 0 else Nodes(xs[0]) + ItemNodes(xs[1..])
  }

  function Pow(b: nat, e: nat): (r: nat)
    ensures b > 0 ==> r > 0
  {
    if e == 0 then 1 else b * Pow(b, e - 1)
  }

  lemma OneMore(k: nat, each: nat)
    ensures (k + 1) * each == each + k * each
  {
  }

  lemma {:induction false} ItemsBound(xs: seq<Dump>, each: nat)
    requires forall x | x in xs :: Nodes(x) <= each
    ensures ItemNodes(xs) <= |xs| * each
  {
    if xs != [] {
      ItemsBound(xs[1..], each);
      OneMore(|xs[1..]|, each);
    }
  }

  lemma {:induction false} MembersBound(ms: seq<Member>, each: nat)
    requires forall m | m in ms :: Nodes(m.value) <= each
    ensures MemberNodes(ms) <= |ms| * each
  {
    if ms != [] {
      MembersBound(ms[1..], each);
      OneMore(|ms[1..]|, each);
    }
  }

  lemma PartsBound(d: Dump, each: nat, width: nat)
    requires |PartsOf(d)| <= width && forall i | 0 <= i < |PartsOf(d)| :: Nodes(PartsOf(d)[i]) <= each
    ensures Nodes(d) <= 1 + width * each
  {
    match d
    case Obj(ms) =>
      forall m | m in ms ensures Nodes(m.value) <= each {
        var i :| 0 <= i < |ms| && ms[i] == m;
        assert PartsOf(d)[i] == m.value;
      }
      MembersBound(ms, each);
      Widen(|ms|, width, each);
    case Arr(xs) =>
      ItemsBound(xs, each);
      Widen(|xs|, width, each);
    case _ =>
  }

  lemma Widen(a: nat, b: nat, n: nat)
    requires a <= b
    ensures a * n <= b * n
  {
  }

  /** `width` is at least the fan-out of every cell. */
  ghost predicate Wide(h: Cells, cfg: Config, width: nat) {
    forall a | a in h :: FanOut(cfg, h[a].content) <= width
  }

  predicate Bounded(d: Dump, n: nat, width: nat) {
    NestsAtMost(d, n) && Nodes(d) <= Pow(width + 1, n)
  }

  /** The dump nests no deeper than the depth that remains, and its size is bounded by the
      fan-out to that power, however large the heap is. */
  lemma {:induction false} DumpBound(h: Cells, cfg: Config, c: Call, width: nat)
    requires Valid(h, cfg) && cfg.maxDepth > 0 && c.addr in h && Wide(h, cfg, width)
    ensures Bounded(DumpOf(h, cfg, c), Remaining(cfg, c), width)
    decreases Remaining(cfg, c), |FreshSlots(h, c.visited)|, Rank(h, cfg, c), 1
  {
    if Stop(h, cfg, c).None? {
      SubAt(h, cfg, c);
      var results := KidDumps(h, cfg, c);
      forall k | 0 <= k < |results| ensures Bounded(results[k], RemainingBelow(h, cfg, c), width) {
        KidBound(h, cfg, c, k, width);
      }
      CombineBound(h, cfg, c, results, width);
    }
  }

  lemma {:induction false} KidBound(h: Cells, cfg: Config, c: Call, k: nat, width: nat)
    requires Valid(h, cfg) && cfg.maxDepth > 0 && c.addr in h && Wide(h, cfg, width)
    requires Stop(h, cfg, c).None? && k < |Kids(cfg, h[c.addr])|
    ensures k < |KidDumps(h, cfg, c)|
    ensures Bounded(KidDumps(h, cfg, c)[k], RemainingBelow(h, cfg, c), width)
    decreases Remaining(cfg, c), |FreshSlots(h, c.visited)|, Rank(h, cfg, c), 0
  {
    SubAt(h, cfg, c);
    SubSmaller(h, cfg, c, k);
    KidDumpAt(h, cfg, c, k);
    DumpBound(h, cfg, Sub(h, cfg, c)[k], width);
  }

  lemma CombineBound(h: Cells, cfg: Config, c: Call, results: seq<Dump>, width: nat)
    requires c.addr in h && Wide(h, cfg, width) && Stop(h, cfg, c).None? && cfg.maxDepth > 0
    requires |results| == |Kids(cfg, h[c.addr])|
    requires forall k | 0 <= k < |results| :: Bounded(results[k], RemainingBelow(h, cfg, c), width)
    ensures Bounded(Combine(cfg, h[c.addr], results), Remaining(cfg, c), width)
  {
    var cell, d := h[c.addr], Combine(cfg, h[c.addr], results);
    if !Unwraps(cell.content) {
      CombineParts(cfg, cell, results);
      if d.Obj? || d.Arr? {
        ContainerBound(d, results, Remaining(cfg, c), width);
      }
    } else if results != [] {
      assert d == results[0];
    }
  }

  function RemainingBelow(h: Cells, cfg: Config, c: Call): nat
    requires c.addr in h
  {
    Remaining(cfg, c.(depth := DepthBelow(h[c.addr].content, c.depth)))
  }

  lemma ContainerBound(d: Dump, results: seq<Dump>, n: nat, width: nat)
    requires n > 0 && (d.Obj? || d.Arr?) && |PartsOf(d)| <= width
    requires AllParts(d, results)
    requires forall k | 0 <= k < |results| :: Bounded(results[k], n - 1, width)
    ensures Bounded(d, n, width)
  {
    var each := Pow(width + 1, n - 1);
    forall i | 0 <= i < |PartsOf(d)| ensures NestsAtMost(PartsOf(d)[i], n - 1) && Nodes(PartsOf(d)[i]) <= each {
      assert Part(PartsOf(d)[i], results);
    }
    PartsBound(d, each, width);
    assert (width + 1) * each == width * each + each;
    if d.Obj? {
      forall i | 0 <= i < |d.members| ensures NestsAtMost(d.members[i].value, n - 1) {
        assert PartsOf(d)[i] == d.members[i].value;
      }
    }
  }

  /** A slice or array that is walked gives one entry for each retained element, in order,
      and, when it is longer than the limit, one more that accounts for the rest. */
  lemma ListAccounting(h: Cells, cfg: Config, c: Call, xs: seq<nat>)
    requires Valid(h, cfg) && c.addr in h && Stop(h, cfg, c).None?
    requires h[c.addr].content == Slice(false, xs) || h[c.addr].content == Array(xs)
    ensures var limit := if cfg.maxElements > 0 then cfg.maxElements else 1000;
      var d := DumpOf(h, cfg, c);
      && d.Arr?
      && |d.items| == (if |xs| <= limit then |xs| else limit + 1)
      && (|xs| > limit ==> d.items[limit] == Omitted(|xs| - limit, |xs|))
      && forall i | 0 <= i < |xs| && i < limit ::
           xs[i] in h && d.items[i] == DumpOf(h, cfg, Call(xs[i], c.depth + 1, c.visited))
  {
    SubAt(h, cfg, c);
    var rs := KidDumps(h, cfg, c);
    forall i | 0 <= i < |xs| && i < ListLimit(cfg)
      ensures xs[i] in h && rs[i] == DumpOf(h, cfg, Call(xs[i], c.depth + 1, c.visited))
    {
      KidDumpAt(h, cfg, c, i);
    }
    assert DumpOf(h, cfg, c) == ListOf(ListLimit(cfg), |xs|, rs);
  }

  /** From the root, before it is wrapped as a JSON object. */
  lemma OutputBound(h: Cells, cfg: Config, a: nat, width: nat)
    requires Valid(h, cfg) && cfg.maxDepth > 0 && a in h && Wide(h, cfg, width)
    ensures NestsAtMost(DumpOf(h, cfg, Call(a, -1, {})), cfg.maxDepth + 2)
    ensures Nodes(DumpOf(h, cfg, Call(a, -1, {}))) <= Pow(width + 1, cfg.maxDepth + 2)
  {
    DumpBound(h, cfg, Call(a, -1, {}), width);
  }

  ghost predicate HasTruncation(d: Dump, depth: int) {
    match d
    case Truncated(_, at) => at == depth
    case Obj(ms) => exists i :: 0 <= i < |ms| && HasTruncation(ms[i].value, depth)
    case Arr(xs) => exists i :: 0 <= i < |xs| && HasTruncation(xs[i], depth)
    case _ => false
  }

  lemma TruncationInPart(cfg: Config, cell: Cell<nat>, results: seq<Dump>, depth: int) returns (k: nat)
    requires |results| == |Kids(cfg, cell)| && HasTruncation(Combine(cfg, cell, results), depth)
    ensures k < |results| && HasTruncation(results[k], depth)
  {
    var d := Combine(cfg, cell, results);
    if Unwraps(cell.content) {
      k := 0;
    } else {
      CombineParts(cfg, cell, results);
      var i;
      match d {
        case Obj(ms) => i :| 0 <= i < |ms| && HasTruncation(ms[i].value, depth);
        case Arr(xs) => i :| 0 <= i < |xs| && HasTruncation(xs[i], depth);
      }
      assert Part(PartsOf(d)[i], results);
      k :| 0 <= k < |results| && results[k] == PartsOf(d)[i];
    }
  }

  /** Nothing is cut short of the limit: a walk from within it truncates at exactly the first
      depth beyond it. */
  lemma {:induction false} TruncationDepth(h: Cells, cfg: Config, c: Call, depth: int)
    requires Valid(h, cfg) && cfg.maxDepth > 0 && c.addr in h && c.depth <= cfg.maxDepth + 1
    requires HasTruncation(DumpOf(h, cfg, c), depth)
    ensures depth == cfg.maxDepth + 1
    decreases Remaining(cfg, c), |FreshSlots(h, c.visited)|, Rank(h, cfg, c)
  {
    if Stop(h, cfg, c).None? {
      SubAt(h, cfg, c);
      var k := TruncationInPart(cfg, h[c.addr], KidDumps(h, cfg, c), depth);
      KidDumpAt(h, cfg, c, k);
      SubSmaller(h, cfg, c, k);
      TruncationDepth(h, cfg, Sub(h, cfg, c)[k], depth);
    }
  }
}
