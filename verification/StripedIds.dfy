/** Ids striped over independent counters, and the routing of trace ids to shards. */
module StripedIds {
  import opened Int64

  datatype Kind = Trace | Param

  /** One call: which counter family, and the stripe its key hashes to. */
  datatype Call = Call(kind: Kind, stripe: nat)

  /** The counters of both families. */
  datatype Counters = Counters(trace: seq<nat>, param: seq<nat>)

  predicate Fits(c: Counters, n: nat) {
    n > 0 && |c.trace| == n && |c.param| == n
  }

  function Of(c: Counters, kind: Kind): seq<nat> {
    if kind.Trace? then c.trace else c.param
  }

  function Bump(c: Counters, call: Call): Counters
    requires call.stripe < |Of(c, call.kind)|
  {
    var s := Of(c, call.kind);
    var s' := s[call.stripe := s[call.stripe] + 1];
    if call.kind.Trace? then c.(trace := s') else c.(param := s')
  }

  /** id = counter * n + stripe, in int64. */
  function IdFor(counter: nat, n: nat, stripe: nat): int64 {
    ToInt64(counter * n + stripe)
  }

  /** The ids of a run: each increment is atomic, so any interleaving of callers is a list. */
  function Ids(c: Counters, n: nat, calls: seq<Call>): (ids: seq<int64>)
    requires Fits(c, n) && forall i | 0 <= i < |calls| :: calls[i].stripe < n
    ensures |ids| == |calls|
    decreases |calls|
  {
    if calls == [] then []
    else
      var c' := Bump(c, calls[0]);
      [IdFor(Of(c', calls[0].kind)[calls[0].stripe], n, calls[0].stripe)] + Ids(c', n, calls[1..])
  }

  /** The counters after a run. */
  function After(c: Counters, n: nat, calls: seq<Call>): (d: Counters)
    requires Fits(c, n) && forall i | 0 <= i < |calls| :: calls[i].stripe < n
    ensures Fits(d, n)
    decreases |calls|
  {
    if calls == [] then c else After(Bump(c, calls[0]), n, calls[1..])
  }

  /** The calls on each stripe are few enough for its ids to stay in int64. */
  predicate Roomy(c: Counters, n: nat, calls: seq<Call>)
    requires Fits(c, n) && forall i | 0 <= i < |calls| :: calls[i].stripe < n
  {
    forall i | 0 <= i < n :: RoomAt(After(c, n, calls), n, i)
  }

  predicate RoomAt(d: Counters, n: nat, i: nat)
    requires Fits(d, n) && i < n
  {
    (d.trace[i] + 1) * n <= TWO_63 && (d.param[i] + 1) * n <= TWO_63
  }

  lemma RoomyNext(c: Counters, n: nat, calls: seq<Call>)
    requires Fits(c, n) && calls != [] && forall i | 0 <= i < |calls| :: calls[i].stripe < n
    requires Roomy(c, n, calls)
    ensures Roomy(Bump(c, calls[0]), n, calls[1..])
  {
    forall i | 0 <= i < n ensures RoomAt(After(Bump(c, calls[0]), n, calls[1..]), n, i) {
      assert RoomAt(After(c, n, calls), n, i);
    }
  }

  lemma Monotone(a: nat, b: nat, n: nat)
    requires a <= b
    ensures a * n <= b * n
  {
  }

  /** Counter and stripe can be read off an id. */
  lemma Linear(a: nat, b: nat, n: nat, i: nat, j: nat)
    requires i < n && j < n && a < b
    ensures a * n + i < b * n + j
  {
    Monotone(a + 1, b, n);
    assert (a + 1) * n == a * n + n;
  }

  lemma IdInRange(counter: nat, n: nat, stripe: nat)
    requires counter > 0 && stripe < n && (counter + 1) * n <= TWO_63
    ensures IdFor(counter, n, stripe) == counter * n + stripe > 0
  {
  }

  /** The wrap-around: an id is the number it should be if and only if that number fits. */
  lemma IdExactIffFits(counter: nat, n: nat, stripe: nat)
    ensures IdFor(counter, n, stripe) == counter * n + stripe <==> counter * n + stripe < TWO_63
  {
  }

  lemma {:induction false} CountersGrow(c: Counters, n: nat, calls: seq<Call>, i: nat)
    requires Fits(c, n) && i < n && forall k | 0 <= k < |calls| :: calls[k].stripe < n
    ensures c.trace[i] <= After(c, n, calls).trace[i] && c.param[i] <= After(c, n, calls).param[i]
    decreases |calls|
  {
    if calls != [] { CountersGrow(Bump(c, calls[0]), n, calls[1..], i); }
  }

  lemma Below(a: nat, b: nat, n: nat, bound: int)
    requires a <= b && (b + 1) * n <= bound
    ensures (a + 1) * n <= bound
  {
  }

  lemma FirstRoom(c: Counters, n: nat, calls: seq<Call>)
    requires Fits(c, n) && forall k | 0 <= k < |calls| :: calls[k].stripe < n
    requires calls != [] && Roomy(c, n, calls)
    ensures (Of(c, calls[0].kind)[calls[0].stripe] + 2) * n <= TWO_63
  {
    var kind, stripe, d := calls[0].kind, calls[0].stripe, After(c, n, calls);
    CountersGrow(Bump(c, calls[0]), n, calls[1..], stripe);
    assert RoomAt(d, n, stripe);
    Below(Of(c, kind)[stripe] + 1, Of(d, kind)[stripe], n, TWO_63);
  }

  lemma FirstId(c: Counters, n: nat, calls: seq<Call>)
    requires Fits(c, n) && forall k | 0 <= k < |calls| :: calls[k].stripe < n
    requires calls != [] && Roomy(c, n, calls)
    ensures Ids(c, n, calls)[0] == (Of(c, calls[0].kind)[calls[0].stripe] + 1) * n + calls[0].stripe > 0
  {
    FirstRoom(c, n, calls);
    IdInRange(Of(c, calls[0].kind)[calls[0].stripe] + 1, n, calls[0].stripe);
  }

  /** The `i`-th id of a run is positive and encodes a counter value above the start. */
  lemma {:induction false} IdShape(c: Counters, n: nat, calls: seq<Call>, i: nat) returns (counter: nat)
    requires Fits(c, n) && forall k | 0 <= k < |calls| :: calls[k].stripe < n
    requires i < |calls| && Roomy(c, n, calls)
    ensures Ids(c, n, calls)[i] == counter * n + calls[i].stripe > 0
    ensures counter > Of(c, calls[i].kind)[calls[i].stripe]
    decreases |calls|
  {
    if i == 0 {
      FirstId(c, n, calls);
      counter := Of(c, calls[0].kind)[calls[0].stripe] + 1;
    } else {
      RoomyNext(c, n, calls);
      counter := IdShape(Bump(c, calls[0]), n, calls[1..], i - 1);
    }
  }

  /** An id of a later counter value on the same stripe is larger, on another stripe different. */
  lemma Separate(id: int, id': int, a: nat, b: nat, n: nat, i: nat, j: nat)
    requires i < n && j < n && id == a * n + i && id' == b * n + j && (i == j ==> a < b)
    ensures id != id' && (i == j ==> id < id')
  {
    if a < b {
      Linear(a, b, n, i, j);
    } else if b < a {
      Linear(b, a, n, j, i);
    }
  }

  lemma FirstDiffers(c: Counters, n: nat, calls: seq<Call>, j: nat, b: nat)
    requires Fits(c, n) && 0 < j < |calls| && calls[0].stripe < n && calls[j].stripe < n
    requires b > Of(Bump(c, calls[0]), calls[j].kind)[calls[j].stripe]
    ensures var a := Of(c, calls[0].kind)[calls[0].stripe] + 1;
      calls[0].kind == calls[j].kind ==>
        && a * n + calls[0].stripe != b * n + calls[j].stripe
        && (calls[0] == calls[j] ==> a * n + calls[0].stripe < b * n + calls[j].stripe)
  {
    var a, i, k := Of(c, calls[0].kind)[calls[0].stripe] + 1, calls[0].stripe, calls[j].stripe;
    if calls[0].kind == calls[j].kind {
      Separate(a * n + i, b * n + k, a, b, n, i, k);
    }
  }

  /** Over a whole run, whatever the keys and their hashes and however the calls interleave,
      the ids of one kind are positive and pairwise distinct, and they rise along every key. */
  lemma {:induction false} IdsDistinct(c: Counters, n: nat, calls: seq<Call>, i: nat, j: nat)
    requires Fits(c, n) && forall k | 0 <= k < |calls| :: calls[k].stripe < n
    requires i < j < |calls| && Roomy(c, n, calls)
    ensures var ids := Ids(c, n, calls);
      && ids[i] > 0 && ids[j] > 0
      && (calls[i].kind == calls[j].kind ==> ids[i] != ids[j])
      && (calls[i] == calls[j] ==> ids[i] < ids[j])
    decreases |calls|
  {
    var d := Bump(c, calls[0]);
    RoomyNext(c, n, calls);
    if i > 0 {
      IdsDistinct(d, n, calls[1..], i - 1, j - 1);
    } else {
      FirstId(c, n, calls);
      var b := IdShape(d, n, calls[1..], j - 1);
      FirstDiffers(c, n, calls, j, b);
    }
  }

  /** Within int64 an id tells its counter and its stripe. */
  lemma ReadOff(counter: nat, n: nat, stripe: nat)
    requires counter > 0 && stripe < n
    ensures (counter + 1) * n <= TWO_63 ==>
              IdFor(counter, n, stripe) / n == counter && IdFor(counter, n, stripe) % n == stripe
  {
    if (counter + 1) * n <= TWO_63 {
      IdInRange(counter, n, stripe);
      DivUnique(counter * n + stripe, n, counter, stripe);
    }
  }

  // ----- the generator object -----

  /** The key hash is a parameter: the source uses 64-bit FNV-1a, the guarantees need none. */
  class StripedIDGenerator {
    const hash: uint64 -> uint64
    const shardCount: nat
    const traceShards: array<nat>
    const paramShards: array<nat>

    ghost predicate Valid() {
      && shardCount > 0 && traceShards != paramShards
      && traceShards.Length == shardCount && paramShards.Length == shardCount
    }

    ghost function State(): Counters
      reads traceShards, paramShards
    {
      Counters(traceShards[..], paramShards[..])
    }

    constructor (shardCount: nat, hash: uint64 -> uint64)
      ensures Valid() && fresh(traceShards) && fresh(paramShards)
      ensures this.shardCount == if shardCount == 0 then 32 else shardCount
      ensures Fits(State(), this.shardCount)
      ensures forall i | 0 <= i < this.shardCount :: State().trace[i] == 0 && State().param[i] == 0
    {
      var n := if shardCount == 0 then 32 else shardCount;
      this.hash := hash;
      this.shardCount := n;
      traceShards := new nat[n](_ => 0);
      paramShards := new nat[n](_ => 0);
    }

    function ShardIndex(key: uint64): (idx: nat)
      requires shardCount > 0
      ensures idx < shardCount
    {
      hash(key) % shardCount
    }

    method NextTraceID(key: uint64) returns (id: int64)
      requires Valid()
      modifies traceShards
      ensures State() == Bump(old(State()), Call(Trace, ShardIndex(key)))
      ensures id == IdFor(old(State()).trace[ShardIndex(key)] + 1, shardCount, ShardIndex(key))
      ensures (State().trace[ShardIndex(key)] + 1) * shardCount <= TWO_63 ==>
                id % shardCount == hash(key) % shardCount && id / shardCount == State().trace[ShardIndex(key)]
    {
      var idx := ShardIndex(key);
      traceShards[idx] := traceShards[idx] + 1;
      id := IdFor(traceShards[idx], shardCount, idx);
      ReadOff(traceShards[idx], shardCount, idx);
    }

    method NextParamID(key: uint64) returns (id: int64)
      requires Valid()
      modifies paramShards
      ensures State() == Bump(old(State()), Call(Param, ShardIndex(key)))
      ensures id == IdFor(old(State()).param[ShardIndex(key)] + 1, shardCount, ShardIndex(key))
      ensures (State().param[ShardIndex(key)] + 1) * shardCount <= TWO_63 ==>
                id % shardCount == hash(key) % shardCount && id / shardCount == State().param[ShardIndex(key)]
    {
      var idx := ShardIndex(key);
      paramShards[idx] := paramShards[idx] + 1;
      id := IdFor(paramShards[idx], shardCount, idx);
      ReadOff(paramShards[idx], shardCount, idx);
    }
  }

  // ----- routing -----

  /** `tracePipeline.shardIndex`: negation wraps at the minimum, then uint64 and modulo. */
  function ShardIndex(traceId: int64, shards: nat): nat {
    if shards == 0 then 0
    else
      var x: int := traceId;
      ToUint64(if x < 0 then ToInt64(-x) else x) % shards
  }

  /** In range for every int64, the minimum included, and the same for an id and its negation. */
  lemma ShardIndexInRange(traceId: int64, shards: nat)
    requires shards > 0
    ensures ShardIndex(traceId, shards) < shards
    ensures var x: int := traceId; ShardIndex(traceId, shards) == (if x < 0 then -x else x) % shards
  {
  }

  /** All traces of one session meet in one shard, for every stripe, exactly when the
      number of shards divides the number of stripes. */
  lemma SessionShard(n: nat, shards: nat)
    requires n > 0 && shards > 0 && 4 * n <= TWO_63
    ensures n % shards == 0 <==>
      forall stripe: nat, a: nat, b: nat |
        stripe < n && 0 < a && 0 < b && (a + 1) * n <= TWO_63 && (b + 1) * n <= TWO_63 ::
        ShardIndex(IdFor(a, n, stripe), shards) == ShardIndex(IdFor(b, n, stripe), shards)
  {
    if n % shards == 0 {
      forall stripe: nat, a: nat, b: nat |
        stripe < n && 0 < a && 0 < b && (a + 1) * n <= TWO_63 && (b + 1) * n <= TWO_63
        ensures ShardIndex(IdFor(a, n, stripe), shards) == ShardIndex(IdFor(b, n, stripe), shards)
      {
        OnStripe(a, n, stripe, shards);
        OnStripe(b, n, stripe, shards);
      }
    } else {
      IdInRange(1, n, 0);
      IdInRange(2, n, 0);
      if (1 * n + 0) % shards == (2 * n + 0) % shards {
        SameRemainder(n, 2 * n, shards);
      }
      assert ShardIndex(IdFor(1, n, 0), shards) != ShardIndex(IdFor(2, n, 0), shards);
    }
  }

  lemma OnStripe(a: nat, n: nat, stripe: nat, shards: nat)
    requires shards > 0 && n % shards == 0 && stripe < n && a > 0 && (a + 1) * n <= TWO_63
    ensures ShardIndex(IdFor(a, n, stripe), shards) == stripe % shards
  {
    IdInRange(a, n, stripe);
    var q := n / shards;
    assert n == q * shards;
    assert a * n + stripe == (a * q) * shards + stripe by {
      assert a * (q * shards) == (a * q) * shards;
    }
    AddMultiple(a * q, stripe, shards);
  }

  lemma AddOne(y: nat, m: nat)
    requires m > 0
    ensures (y + m) % m == y % m
  {
    var q, r := y / m, y % m;
    assert y + m == (q + 1) * m + r;
    DivUnique(y + m, m, q + 1, r);
  }

  lemma DivUnique(x: nat, m: nat, q: nat, r: nat)
    requires m > 0 && r < m && x == q * m + r
    ensures x % m == r && x / m == q
  {
    var q', r' := x / m, x % m;
    assert x == q' * m + r';
    if q < q' {
      Linear(q, q', m, r, r');
    } else if q' < q {
      Linear(q', q, m, r', r);
    }
  }

  lemma {:induction false} AddMultiple(k: nat, x: nat, m: nat)
    requires m > 0
    ensures (k * m + x) % m == x % m
    decreases k
  {
    if k > 0 {
      AddMultiple(k - 1, x, m);
      AddOne((k - 1) * m + x, m);
      assert k * m + x == ((k - 1) * m + x) + m;
    }
  }

  lemma SameRemainder(x: nat, y: nat, m: nat)
    requires m > 0 && x <= y && x % m == y % m
    ensures (y - x) % m == 0
  {
    var q, q' := x / m, y / m;
    if q' < q {
      Linear(q', q, m, y % m, x % m);
    }
    assert y - x == (q' - q) * m;
    AddMultiple(q' - q, 0, m);
  }
}
