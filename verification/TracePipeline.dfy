/** The shard and the pipeline as objects, each method tied to the step it performs. */
module TracePipelineObjects {
  import opened Int64
  import opened TraceShard
  import StripedIds

  class TraceStore {
    var rows: Table

    constructor ()
      ensures rows == map[]
    {
      rows := map[];
    }

    method SaveTrace(td: TraceData, fault: Fault) returns (ok: bool)
      modifies this
      ensures (rows, ok) == TraceShard.SaveTrace(old(rows), td, fault)
    {
      if td.id in rows || fault == Refused {
        return false;
      }
      rows := rows[td.id := Stored(td, "", false)];
      ok := fault == Healthy;
    }

    method UpdateTraceTimeCost(id: int, timeCost: string, fault: Fault) returns (ok: bool)
      modifies this
      ensures (rows, ok) == UpdateTimeCost(old(rows), id, timeCost, fault)
    {
      if id !in rows || fault == Refused {
        return false;
      }
      rows := rows[id := Stored(rows[id].trace, timeCost, true)];
      ok := fault == Healthy;
    }
  }

  /** Trace ids are handed out once: no insert sent from step `from` on reuses an id. */
  predicate UniqueSends(accepted: seq<Event>, steps: seq<Step>, from: nat) {
    forall k | from <= k < |steps| && steps[k].Accept? && steps[k].e.InsertEvt? ::
      && !HasInsert(accepted, steps[k].e.trace.id)
      && forall j | from <= j < k && steps[j].Accept? && steps[j].e.InsertEvt? ::
           steps[j].e.trace.id != steps[k].e.trace.id
  }

  lemma SendsLeft(accepted: seq<Event>, steps: seq<Step>, k: nat)
    requires k < |steps| && steps[k].Accept? && UniqueSends(accepted, steps, k)
    ensures UniqueSends(accepted + [steps[k].e], steps, k + 1) && UniqueSends(accepted, steps, k + 1)
  {
    forall i | k < i < |steps| && steps[i].Accept? && steps[i].e.InsertEvt?
      ensures !HasInsert(accepted + [steps[k].e], steps[i].e.trace.id)
    {
      AppliedAppend(accepted, steps[k].e, steps[i].e.trace.id);
    }
  }

  class TpShard {
    const store: TraceStore
    var inCh: seq<Event>
    var insertedSet: set<int>
    var retryQueue: seq<Event>
    var retryTimer: Timer
    ghost var accepted: seq<Event>
    ghost var applied: seq<Event>

    ghost function State(): Shard
      reads this, store
    {
      Shard(inCh, insertedSet, retryQueue, retryTimer, store.rows, accepted, applied)
    }

    constructor (store: TraceStore)
      requires store.rows == map[]
      ensures this.store == store && State() == INIT
    {
      this.store := store;
      inCh, insertedSet, retryQueue, retryTimer := [], {}, [], NoTimer;
      accepted, applied := [], [];
    }

    /** Stops the timer, swallows a pending tick and restarts it. */
    method ScheduleRetry()
      modifies this`retryTimer
      ensures retryTimer == Armed
    {
      if retryTimer == NoTimer {
        retryTimer := Armed;
        return;
      }
      var stopped := retryTimer == Armed;
      if !stopped && retryTimer == Fired {
        retryTimer := Spent;
      }
      retryTimer := Armed;
    }

    method HandleEvent(evt: Event, fault: Fault)
      modifies this, store
      ensures State() == Handle(old(State()), evt, fault) && accepted == old(accepted)
    {
      match evt {
        case InsertEvt(td) =>
          if td.id in insertedSet {
            return;
          }
          var ok := store.SaveTrace(td, fault);
          if !ok {
            retryQueue := retryQueue + [evt];
            ScheduleRetry();
            return;
          }
          insertedSet := insertedSet + {td.id};
        case UpdateEvt(id, timeCost) =>
          if id !in insertedSet {
            retryQueue := retryQueue + [evt];
            ScheduleRetry();
            return;
          }
          var ok := store.UpdateTraceTimeCost(id, timeCost, fault);
          if !ok {
            retryQueue := retryQueue + [evt];
            ScheduleRetry();
            return;
          }
          insertedSet := insertedSet - {id};
      }
      applied := applied + [evt];
    }

    method DrainRetry(faults: seq<Fault>)
      modifies this, store
      ensures State() == Drain(old(State()), faults) && accepted == old(accepted)
    {
      if retryQueue == [] {
        return;
      }
      var q := retryQueue;
      retryQueue := [];
      ghost var s := State();
      var i := 0;
      while i < |q|
        invariant 0 <= i <= |q|
        invariant HandleAll(State(), q, faults, i) == HandleAll(s, q, faults, 0) && accepted == old(accepted)
      {
        HandleEvent(q[i], FaultAt(faults, i));
        i := i + 1;
      }
      if retryQueue != [] {
        ScheduleRetry();
      }
    }

    /** A send on the shard's channel; it fails when the channel is full. */
    method Offer(evt: Event) returns (ok: bool)
      modifies this
      ensures ok <==> |old(inCh)| < CHANNEL_SIZE
      ensures State() == if ok then old(State()).(inCh := old(inCh) + [evt], accepted := old(accepted) + [evt])
                         else old(State())
    {
      ok := |inCh| < CHANNEL_SIZE;
      if ok {
        inCh := inCh + [evt];
        accepted := accepted + [evt];
      }
    }

    /** The shard's goroutine among its producers: `steps` are the scheduler's choices between
        the sends that arrive, the channel and the timer. */
    method Serve(steps: seq<Step>)
      requires UniqueSends(accepted, steps, 0)
      modifies this, store
      ensures State() == Run(old(State()), steps)
    {
      ghost var s := State();
      var k := 0;
      while k < |steps|
        invariant 0 <= k <= |steps| && UniqueSends(accepted, steps, k)
        invariant Run(State(), steps[k..]) == Run(s, steps)
      {
        assert steps[k..][1..] == steps[k + 1..];
        if steps[k].Accept? {
          SendsLeft(accepted, steps, k);
        }
        match steps[k] {
          case Accept(e) =>
            var _ := Offer(e);
          case Receive(fault) =>
            if inCh != [] {
              var evt := inCh[0];
              inCh := inCh[1..];
              HandleEvent(evt, fault);
            }
          case Expire =>
            if retryTimer == Armed {
              retryTimer := Fired;
            }
          case Tick(faults) =>
            if retryTimer == Fired {
              retryTimer := Spent;
              DrainRetry(faults);
            }
        }
        k := k + 1;
      }
      assert steps[k..] == [];
    }
  }

  class TracePipeline {
    const store: TraceStore
    const shards: seq<TpShard>

    ghost predicate Valid() {
      && shards != []
      && (forall i | 0 <= i < |shards| :: shards[i].store == store)
      && (forall i, j | 0 <= i < j < |shards| :: shards[i] != shards[j])
    }

    constructor (store: TraceStore, shards: seq<TpShard>)
      requires shards != [] && forall i | 0 <= i < |shards| :: shards[i].store == store
      requires forall i, j | 0 <= i < j < |shards| :: shards[i] != shards[j]
      ensures Valid() && this.store == store && this.shards == shards
    {
      this.store, this.shards := store, shards;
    }

    function ShardFor(traceId: int64): (sh: TpShard)
      requires Valid()
      ensures sh == var id: int := traceId; shards[(if id < 0 then -id else id) % |shards|]
      ensures sh in shards
    {
      StripedIds.ShardIndexInRange(traceId, |shards|);
      shards[StripedIds.ShardIndex(traceId, |shards|)]
    }

    /** Hands the insert to its shard, or writes the row at once when that channel is full. */
    method Insert(td: TraceData, fault: Fault)
      requires Valid() && -TWO_63 <= td.id < TWO_63
      modifies ShardFor(td.id), store
      ensures var sh := ShardFor(td.id);
        if |old(sh.inCh)| < CHANNEL_SIZE
        then store.rows == old(store.rows) &&
             (old(!HasInsert(sh.accepted, td.id)) ==>
                Enabled(old(sh.State()), Accept(InsertEvt(td))) &&
                sh.State() == Next(old(sh.State()), Accept(InsertEvt(td))))
        else store.rows == SaveTrace(old(store.rows), td, fault).0 &&
             sh.State() == old(sh.State()).(rows := store.rows)
    {
      var sh := ShardFor(td.id);
      var ok := sh.Offer(InsertEvt(td));
      if !ok {
        var _ := store.SaveTrace(td, fault);
      }
    }

    /** Hands the update to the shard its insert went to, or writes it at once. */
    method Update(id: int64, timeCost: string, fault: Fault)
      requires Valid()
      modifies ShardFor(id), store
      ensures var sh := ShardFor(id);
        if |old(sh.inCh)| < CHANNEL_SIZE
        then store.rows == old(store.rows) &&
             Enabled(old(sh.State()), Accept(UpdateEvt(id, timeCost))) &&
             sh.State() == Next(old(sh.State()), Accept(UpdateEvt(id, timeCost)))
        else store.rows == UpdateTimeCost(old(store.rows), id, timeCost, fault).0 &&
             sh.State() == old(sh.State()).(rows := store.rows)
    {
      var sh := ShardFor(id);
      var ok := sh.Offer(UpdateEvt(id, timeCost));
      if !ok {
        var _ := store.UpdateTraceTimeCost(id, timeCost, fault);
      }
    }
  }
}
