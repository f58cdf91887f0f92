/** From the calls of a session to the trace table and back: the session's rows travel
    through the shards, and what the table then holds rebuilds the calls. */
module TraceTable {
  import opened Int64
  import opened TraceShard
  import opened TraceShardTheorems
  import opened TracePipelineTheorems
  import opened Wrappers
  import StripedIds
  import C = CallTree

  ghost predicate AtRest(p: Pipeline) {
    forall i | 0 <= i < |p.locals| :: Quiet(p.locals[i])
  }

  /** The event was accepted by the shard of its id. */
  predicate Accepted(p: Pipeline, e: Event) {
    && -TWO_63 <= IdOf(e) < TWO_63
    && var i := StripedIds.ShardIndex(IdOf(e), |p.locals|);
       i < |p.locals| && e in p.locals[i].accepted
  }

  function AsRow(td: TraceData): C.Row {
    C.Row(td.id, td.parentId, td.indent)
  }

  /** The accepted inserts of goroutine `gid` are the rows its session emitted, and each of
      its calls had its time cost accepted. */
  ghost predicate Delivered(p: Pipeline, gid: nat, evs: seq<C.Event>, cost: map<int, string>) {
    && (forall r | r in C.Run(C.INIT, evs).1 ::
          exists td :: Accepted(p, InsertEvt(td)) && td.gid == gid && AsRow(td) == r)
    && (forall td | Accepted(p, InsertEvt(td)) && td.gid == gid :: AsRow(td) in C.Run(C.INIT, evs).1)
    && (forall id | id in C.EnterIds(evs) :: id in cost && Accepted(p, UpdateEvt(id, cost[id])))
  }

  /** `ids` lists the table's rows of goroutine `gid`, in any order. */
  ghost predicate Lists(p: Pipeline, gid: nat, ids: seq<int>) {
    && NoRepeats(ids)
    && (forall i | 0 <= i < |ids| :: ids[i] in p.rows && p.rows[ids[i]].trace.gid == gid)
    && forall id | id in p.rows && p.rows[id].trace.gid == gid :: id in ids
  }

  function Listing(p: Pipeline, ids: seq<int>): seq<C.Row>
    requires forall i | 0 <= i < |ids| :: ids[i] in p.rows
  {
    seq(|ids|, i requires 0 <= i < |ids| => AsRow(p.rows[ids[i]].trace))
  }

  // ----- rows at rest -----

  lemma RestingView(shards: nat, steps: seq<(nat, Step)>, id: int)
    requires shards > 0 && -TWO_63 <= id < TWO_63 && AtRest(PRun(Start(shards), steps))
    ensures var p, i := PRun(Start(shards), steps), StripedIds.ShardIndex(id, shards);
      && i < |p.locals| == shards && Inv(View(p, i), multiset{}) && Quiet(View(p, i))
      && (id in p.rows <==> id in View(p, i).rows) && (id in p.rows ==> p.rows[id] == View(p, i).rows[id])
  {
    PipelineInv(shards, steps);
    StripedIds.ShardIndexInRange(id, shards);
  }

  lemma InsertStored(shards: nat, steps: seq<(nat, Step)>, td: TraceData)
    requires shards > 0 && AtRest(PRun(Start(shards), steps))
    requires Accepted(PRun(Start(shards), steps), InsertEvt(td))
    ensures var p := PRun(Start(shards), steps); td.id in p.rows && p.rows[td.id].trace == td
  {
    RestingView(shards, steps, td.id);
    var v := View(PRun(Start(shards), steps), StripedIds.ShardIndex(td.id, shards));
    QuietApplied(v, InsertEvt(td));
    assert Shown(v.rows, InsertEvt(td));
  }

  lemma CostStored(shards: nat, steps: seq<(nat, Step)>, id: int, timeCost: string)
    requires shards > 0 && AtRest(PRun(Start(shards), steps))
    requires Accepted(PRun(Start(shards), steps), UpdateEvt(id, timeCost))
    ensures var p := PRun(Start(shards), steps);
      id in p.rows && p.rows[id].finished && p.rows[id].timeCost == timeCost
  {
    RestingView(shards, steps, id);
    var v := View(PRun(Start(shards), steps), StripedIds.ShardIndex(id, shards));
    QuietApplied(v, UpdateEvt(id, timeCost));
    assert Shown(v.rows, UpdateEvt(id, timeCost)) && RowFrom(v.rows, v.accepted, id);
    QuietNeeds(v);
    SeqIn(v.accepted, UpdateEvt(id, timeCost));
    SeqIn(v.accepted, UpdateEvt(id, v.rows[id].timeCost));
  }

  lemma RowAccepted(shards: nat, steps: seq<(nat, Step)>, id: int)
    requires shards > 0 && AtRest(PRun(Start(shards), steps)) && id in PRun(Start(shards), steps).rows
    ensures var p := PRun(Start(shards), steps);
      p.rows[id].trace.id == id && Accepted(p, InsertEvt(p.rows[id].trace))
  {
    PipelineInv(shards, steps);
    RestingView(shards, steps, id);
    var v := View(PRun(Start(shards), steps), StripedIds.ShardIndex(id, shards));
    assert RowFrom(v.rows, v.accepted, id);
  }

  // ----- the listing is the session's rows -----

  lemma {:induction false} OnceEach<T>(xs: seq<T>, x: T)
    requires NoRepeats(xs)
    ensures multiset(xs)[x] == if x in xs then 1 else 0
  {
    if xs != [] {
      assert xs == [xs[0]] + xs[1..];
      OnceEach(xs[1..], x);
    }
  }

  lemma SameElements<T>(xs: seq<T>, ys: seq<T>)
    requires NoRepeats(xs) && NoRepeats(ys) && forall x :: x in xs <==> x in ys
    ensures multiset(xs) == multiset(ys)
  {
    forall x ensures multiset(xs)[x] == multiset(ys)[x] {
      OnceEach(xs, x);
      OnceEach(ys, x);
    }
  }

  lemma ListingOfSession(shards: nat, steps: seq<(nat, Step)>, gid: nat, evs: seq<C.Event>, cost: map<int, string>,
                         ids: seq<int>)
    requires shards > 0 && AtRest(PRun(Start(shards), steps))
    requires Delivered(PRun(Start(shards), steps), gid, evs, cost) && Lists(PRun(Start(shards), steps), gid, ids)
    requires NoRepeats(C.Run(C.INIT, evs).1)
    ensures multiset(Listing(PRun(Start(shards), steps), ids)) == multiset(C.Run(C.INIT, evs).1)
  {
    var p, rows := PRun(Start(shards), steps), C.Run(C.INIT, evs).1;
    var table := Listing(p, ids);
    forall i | 0 <= i < |ids| ensures table[i].id == ids[i] && table[i] in rows {
      assert ids[i] in ids;
      RowAccepted(shards, steps, ids[i]);
    }
    forall r | r in rows ensures r in table {
      var td :| Accepted(p, InsertEvt(td)) && td.gid == gid && AsRow(td) == r;
      InsertStored(shards, steps, td);
      var i :| 0 <= i < |ids| && ids[i] == td.id;
      assert table[i] == r;
    }
    SameElements(table, rows);
  }

  /** End to end: with every shard at rest and a session's bracketed run delivered, in
      whatever order, whatever the store did meanwhile, the table's rows of that goroutine
      rebuild to the session's call forest, and every call shows its own time cost. */
  lemma SessionComesBack(shards: nat, steps: seq<(nat, Step)>, gid: nat, evs: seq<C.Event>, cost: map<int, string>,
                         ids: seq<int>) returns (f: seq<C.Call>)
    requires shards > 0 && AtRest(PRun(Start(shards), steps))
    requires C.Bracketed(evs, 0)
    requires forall i, j | 0 <= i < j < |C.EnterIds(evs)| :: C.EnterIds(evs)[i] < C.EnterIds(evs)[j]
    requires forall i | 0 <= i < |C.EnterIds(evs)| :: 0 < C.EnterIds(evs)[i] < TWO_63
    requires Delivered(PRun(Start(shards), steps), gid, evs, cost) && Lists(PRun(Start(shards), steps), gid, ids)
    ensures C.Events(f) == evs
    ensures C.Rebuild(Listing(PRun(Start(shards), steps), ids), TWO_63) == f
    ensures var p := PRun(Start(shards), steps);
      forall id | id in C.EnterIds(evs) :: id in p.rows && p.rows[id].finished && p.rows[id].timeCost == cost[id]
  {
    var p, rows := PRun(Start(shards), steps), C.Run(C.INIT, evs).1;
    C.EmittedIds(C.INIT, evs);
    forall i, j | 0 <= i < j < |rows| ensures rows[i] != rows[j] {
      assert rows[i].id == C.EnterIds(evs)[i] && rows[j].id == C.EnterIds(evs)[j];
    }
    ListingOfSession(shards, steps, gid, evs, cost, ids);
    f := C.CallTreeRoundTrip(evs, Listing(p, ids), TWO_63);
    forall id | id in C.EnterIds(evs) ensures id in p.rows && p.rows[id].finished && p.rows[id].timeCost == cost[id] {
      CostStored(shards, steps, id, cost[id]);
    }
  }
}
