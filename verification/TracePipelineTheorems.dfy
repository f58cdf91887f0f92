/** All shards together over the one trace table they share. */
module TracePipelineTheorems {
  import opened Int64
  import opened TraceShard
  import opened TraceShardTheorems
  import StripedIds

  /** The shards' own state (their `rows` unused) and the shared table. */
  datatype Pipeline = Pipeline(locals: seq<Shard>, rows: Table)

  function Start(shards: nat): Pipeline {
    Pipeline(seq(shards, _ => INIT), map[])
  }

  function IdOf(e: Event): int {
    if e.InsertEvt? then e.trace.id else e.id
  }

  /** Ids are int64; `home` is the shard of an id. */
  predicate Home(id: int, shards: nat, home: nat) {
    -TWO_63 <= id < TWO_63 && StripedIds.ShardIndex(id, shards) == home
  }

  predicate PEnabled(p: Pipeline, i: nat, step: Step) {
    && i < |p.locals| && Enabled(p.locals[i].(rows := p.rows), step)
    && (step.Accept? ==> Home(IdOf(step.e), |p.locals|, i))
  }

  function PNext(p: Pipeline, i: nat, step: Step): Pipeline
    requires PEnabled(p, i, step)
  {
    var t := Next(p.locals[i].(rows := p.rows), step);
    Pipeline(p.locals[i := t.(rows := map[])], t.rows)
  }

  function PRun(p: Pipeline, steps: seq<(nat, Step)>): (r: Pipeline)
    ensures |r.locals| == |p.locals|
    decreases |steps|
  {
    if steps == [] then p
    else PRun(if PEnabled(p, steps[0].0, steps[0].1) then PNext(p, steps[0].0, steps[0].1) else p, steps[1..])
  }

  function Part(rows: Table, shards: nat, i: nat): Table {
    map id | id in rows && Home(id, shards, i) :: rows[id]
  }

  /** What shard `i` would be if the table held its own ids only. */
  function View(p: Pipeline, i: nat): Shard
    requires i < |p.locals|
  {
    p.locals[i].(rows := Part(p.rows, |p.locals|, i))
  }

  predicate AllHome(es: seq<Event>, shards: nat, i: nat) {
    forall e | e in es :: Home(IdOf(e), shards, i)
  }

  predicate PInv(p: Pipeline) {
    && (forall i | 0 <= i < |p.locals| ::
          AllHome(p.locals[i].inCh, |p.locals|, i) && AllHome(p.locals[i].retry, |p.locals|, i))
    && (forall id | id in p.rows :: -TWO_63 <= id < TWO_63)
  }

  /** Away from the ids of shard `i` the table is untouched, and on them the shard acts as alone. */
  ghost predicate Local(s: Shard, t: Shard, rows: Table, rows': Table, shards: nat, i: nat) {
    && t == s.(rows := Part(rows', shards, i))
    && (forall id | !Home(id, shards, i) :: (id in rows <==> id in rows') && (id in rows ==> rows[id] == rows'[id]))
  }

  lemma SaveLocal(rows: Table, td: TraceData, fault: Fault, shards: nat, i: nat)
    requires Home(td.id, shards, i)
    ensures SaveTrace(Part(rows, shards, i), td, fault)
         == (Part(SaveTrace(rows, td, fault).0, shards, i), SaveTrace(rows, td, fault).1)
  {
    assert SaveTrace(Part(rows, shards, i), td, fault).0 == Part(SaveTrace(rows, td, fault).0, shards, i);
  }

  lemma UpdateLocal(rows: Table, id: int, timeCost: string, fault: Fault, shards: nat, i: nat)
    requires Home(id, shards, i)
    ensures UpdateTimeCost(Part(rows, shards, i), id, timeCost, fault)
         == (Part(UpdateTimeCost(rows, id, timeCost, fault).0, shards, i), UpdateTimeCost(rows, id, timeCost, fault).1)
  {
    assert UpdateTimeCost(Part(rows, shards, i), id, timeCost, fault).0
        == Part(UpdateTimeCost(rows, id, timeCost, fault).0, shards, i);
  }

  lemma HandleLocal(s: Shard, e: Event, fault: Fault, shards: nat, i: nat)
    requires Home(IdOf(e), shards, i)
    ensures var t := Handle(s, e, fault);
      Local(t, Handle(s.(rows := Part(s.rows, shards, i)), e, fault), s.rows, t.rows, shards, i)
    ensures AllHome(s.retry, shards, i) ==> AllHome(Handle(s, e, fault).retry, shards, i)
  {
    match e
    case InsertEvt(td) => SaveLocal(s.rows, td, fault, shards, i);
    case UpdateEvt(id, timeCost) => UpdateLocal(s.rows, id, timeCost, fault, shards, i);
  }

  lemma {:induction false} HandleAllLocal(s: Shard, q: seq<Event>, faults: seq<Fault>, from: nat, shards: nat, i: nat)
    requires from <= |q| && AllHome(q, shards, i)
    ensures var t := HandleAll(s, q, faults, from);
      Local(t, HandleAll(s.(rows := Part(s.rows, shards, i)), q, faults, from), s.rows, t.rows, shards, i)
    ensures AllHome(s.retry, shards, i) ==> AllHome(HandleAll(s, q, faults, from).retry, shards, i)
    decreases |q| - from
  {
    if from < |q| {
      HandleLocal(s, q[from], FaultAt(faults, from), shards, i);
      HandleAllLocal(Handle(s, q[from], FaultAt(faults, from)), q, faults, from + 1, shards, i);
    }
  }

  lemma NextLocal(s: Shard, step: Step, shards: nat, i: nat)
    requires Enabled(s, step) && (step.Accept? ==> Home(IdOf(step.e), shards, i))
    requires AllHome(s.inCh, shards, i) && AllHome(s.retry, shards, i)
    ensures Enabled(s.(rows := Part(s.rows, shards, i)), step)
    ensures var t := Next(s, step);
      && Local(t, Next(s.(rows := Part(s.rows, shards, i)), step), s.rows, t.rows, shards, i)
      && AllHome(t.inCh, shards, i) && AllHome(t.retry, shards, i)
  {
    match step
    case Accept(e) =>
    case Expire =>
    case Receive(fault) =>
      HandleLocal(s.(inCh := s.inCh[1..]), s.inCh[0], fault, shards, i);
      HandleOutcome(s.(inCh := s.inCh[1..]), s.inCh[0], fault);
    case Tick(faults) =>
      HandleAllLocal(s.(timer := Spent, retry := []), s.retry, faults, 0, shards, i);
      DrainFrame(s.(timer := Spent, retry := []), s.retry, faults, 0);
  }

  /** A pipeline step is a step of one shard's view and leaves the others' views alone. */
  lemma ViewNext(p: Pipeline, i: nat, step: Step)
    requires PInv(p) && PEnabled(p, i, step)
    ensures PInv(PNext(p, i, step))
    ensures Enabled(View(p, i), step) && View(PNext(p, i, step), i) == Next(View(p, i), step)
    ensures forall j | 0 <= j < |p.locals| && j != i :: View(PNext(p, i, step), j) == View(p, j)
  {
    var n := |p.locals|;
    var s := p.locals[i].(rows := p.rows);
    NextLocal(s, step, n, i);
    var p' := PNext(p, i, step);
    forall j | 0 <= j < n && j != i ensures View(p', j) == View(p, j) {
      assert Part(p'.rows, n, j) == Part(p.rows, n, j);
    }
    forall id | id in p'.rows ensures -TWO_63 <= id < TWO_63 {
      if !Home(id, n, i) { assert id in p.rows; }
    }
  }

  lemma {:induction false} ViewsInv(p: Pipeline, steps: seq<(nat, Step)>)
    requires PInv(p) && forall i | 0 <= i < |p.locals| :: Inv(View(p, i), multiset{})
    ensures PInv(PRun(p, steps))
    ensures forall i | 0 <= i < |p.locals| :: Inv(View(PRun(p, steps), i), multiset{})
    decreases |steps|
  {
    if steps != [] {
      var (i, step) := steps[0];
      if PEnabled(p, i, step) {
        ViewNext(p, i, step);
        InvNext(View(p, i), step);
        var p' := PNext(p, i, step);
        forall j | 0 <= j < |p'.locals| ensures Inv(View(p', j), multiset{}) {
          if j != i { assert View(p', j) == View(p, j); }
        }
        ViewsInv(p', steps[1..]);
      } else {
        ViewsInv(p, steps[1..]);
      }
    }
  }

  lemma PipelineInv(shards: nat, steps: seq<(nat, Step)>)
    ensures var p := PRun(Start(shards), steps);
      PInv(p) && forall i | 0 <= i < shards :: Inv(View(p, i), multiset{})
  {
    forall i | 0 <= i < shards ensures Inv(View(Start(shards), i), multiset{}) {
      assert View(Start(shards), i) == INIT;
    }
    ViewsInv(Start(shards), steps);
  }

  /** Confluence of the whole pipeline: once every shard is at rest, the shared table holds,
      for each id, exactly what inserting and then updating that id's own events gives. */
  lemma PipelineConfluence(shards: nat, steps: seq<(nat, Step)>, id: int)
    requires shards > 0 && -TWO_63 <= id < TWO_63
    requires forall i | 0 <= i < shards :: Quiet(PRun(Start(shards), steps).locals[i])
    ensures var p := PRun(Start(shards), steps);
      var expected := Reference(p.locals[StripedIds.ShardIndex(id, shards)].accepted);
      StripedIds.ShardIndex(id, shards) < shards &&
      (id in p.rows <==> id in expected) && (id in p.rows ==> p.rows[id] == expected[id])
  {
    PipelineInv(shards, steps);
    var p := PRun(Start(shards), steps);
    StripedIds.ShardIndexInRange(id, shards);
    var i := StripedIds.ShardIndex(id, shards);
    var v := View(p, i);
    assert id in v.rows <==> id in p.rows;
    QuietRow(v, id);
  }
}
