/** One shard of the trace pipeline. Inserts and updates of a trace id may arrive in
    either order and the store may fail; the shard repairs the order with its set of
    inserted ids, a retry queue and a retry timer. */
module TraceShard {

  datatype TraceData = TraceData(id: int, name: string, gid: nat, indent: int, parentId: int, paramsCount: nat)

  datatype Event =
    | InsertEvt(trace: TraceData)
    | UpdateEvt(id: int, timeCost: string)

  /** A row of the trace table. An insert leaves the time cost and the finished mark unset. */
  datatype Stored = Stored(trace: TraceData, timeCost: string, finished: bool)

  type Table = map<int, Stored>

  /** How one store call ends: normally, with an error and no effect, or with an error
      although the row was written. */
  datatype Fault = Healthy | Refused | Late

  datatype Timer = NoTimer | Armed | Fired | Spent

  /** `accepted` and `applied` are history: the events the channel took, and the events
      the store acknowledged, each in order. */
  datatype Shard = Shard(
    inCh: seq<Event>,
    inserted: set<int>,
    retry: seq<Event>,
    timer: Timer,
    rows: Table,
    accepted: seq<Event>,
    applied: seq<Event>)

  const INIT := Shard([], {}, [], NoTimer, map[], [], [])
  const CHANNEL_SIZE := 1024

  /** `SaveTrace`: the id is the primary key. */
  function SaveTrace(rows: Table, td: TraceData, fault: Fault): (Table, bool) {
    if td.id in rows || fault.Refused? then (rows, false)
    else (rows[td.id := Stored(td, "", false)], fault.Healthy?)
  }

  /** `UpdateTraceTimeCost`: an error when no row has the id. */
  function UpdateTimeCost(rows: Table, id: int, timeCost: string, fault: Fault): (Table, bool) {
    if id !in rows || fault.Refused? then (rows, false)
    else (rows[id := rows[id].(timeCost := timeCost, finished := true)], fault.Healthy?)
  }

  function Requeue(s: Shard, e: Event): Shard {
    s.(retry := s.retry + [e], timer := Armed)
  }

  function Handle(s: Shard, e: Event, fault: Fault): Shard {
    match e
    case InsertEvt(td) =>
      if td.id in s.inserted then s
      else
        var (rows, ok) := SaveTrace(s.rows, td, fault);
        if ok then s.(rows := rows, inserted := s.inserted + {td.id}, applied := s.applied + [e])
        else Requeue(s.(rows := rows), e)
    case UpdateEvt(id, timeCost) =>
      if id !in s.inserted then Requeue(s, e)
      else
        var (rows, ok) := UpdateTimeCost(s.rows, id, timeCost, fault);
        if ok then s.(rows := rows, inserted := s.inserted - {id}, applied := s.applied + [e])
        else Requeue(s.(rows := rows), e)
  }

  /** Store calls beyond the end of `faults` are healthy. */
  function FaultAt(faults: seq<Fault>, i: nat): Fault {
    if i < |faults| then faults[i] else Healthy
  }

  /** Handles `q[from..]` in order. */
  function HandleAll(s: Shard, q: seq<Event>, faults: seq<Fault>, from: nat): Shard
    requires from <= |q|
    decreases |q| - from
  {
    if from == |q| then s else HandleAll(Handle(s, q[from], FaultAt(faults, from)), q, faults, from + 1)
  }

  function Drain(s: Shard, faults: seq<Fault>): Shard {
    if s.retry == [] then s
    else
      var t := HandleAll(s.(retry := []), s.retry, faults, 0);
      if t.retry != [] then t.(timer := Armed) else t
  }

  datatype Step =
    | Accept(e: Event)            // a producer's send succeeds
    | Receive(fault: Fault)       // the loop takes the channel's head
    | Expire                      // the timer runs out
    | Tick(faults: seq<Fault>)    // the loop takes the timer's tick

  /** Trace ids are handed out once, so no two inserts share one. */
  predicate Enabled(s: Shard, step: Step) {
    match step
    case Accept(e) =>
      |s.inCh| < CHANNEL_SIZE && (e.InsertEvt? ==> !HasInsert(s.accepted, e.trace.id))
    case Receive(_) => s.inCh != []
    case Expire => s.timer == Armed
    case Tick(_) => s.timer == Fired
  }

  predicate HasInsert(es: seq<Event>, id: int) {
    exists i :: 0 <= i < |es| && es[i].InsertEvt? && es[i].trace.id == id
  }

  predicate HasUpdate(es: seq<Event>, id: int) {
    exists i :: 0 <= i < |es| && es[i].UpdateEvt? && es[i].id == id
  }

  function Next(s: Shard, step: Step): Shard
    requires Enabled(s, step)
  {
    match step
    case Accept(e) => s.(inCh := s.inCh + [e], accepted := s.accepted + [e])
    case Receive(fault) => Handle(s.(inCh := s.inCh[1..]), s.inCh[0], fault)
    case Expire => s.(timer := Fired)
    case Tick(faults) => Drain(s.(timer := Spent), faults)
  }

  /** Any run: a list of steps, of which the disabled ones do nothing. */
  function Run(s: Shard, steps: seq<Step>): Shard
    decreases |steps|
  {
    if steps == [] then s
    else Run(if Enabled(s, steps[0]) then Next(s, steps[0]) else s, steps[1..])
  }

  predicate Quiet(s: Shard) {
    s.inCh == [] && s.retry == []
  }

  // ----- the reference: insert everything, then update everything -----

  function InsertEach(rows: Table, es: seq<Event>): Table {
    if es == [] then rows
    else
      var r := InsertEach(rows, es[..|es| - 1]);
      var e := es[|es| - 1];
      if e.InsertEvt? then r[e.trace.id := Stored(e.trace, "", false)] else r
  }

  function UpdateEach(rows: Table, es: seq<Event>): Table {
    if es == [] then rows
    else
      var r := UpdateEach(rows, es[..|es| - 1]);
      var e := es[|es| - 1];
      if e.UpdateEvt? && e.id in r then r[e.id := r[e.id].(timeCost := e.timeCost, finished := true)] else r
  }

  function Reference(es: seq<Event>): Table {
    UpdateEach(InsertEach(map[], es), es)
  }

  // ----- the invariant -----

  /** Every accepted event is in exactly one place; `inHand` is what a drain still holds. */
  ghost predicate Conserved(s: Shard, inHand: multiset<Event>) {
    multiset(s.accepted) == multiset(s.inCh) + multiset(s.retry) + multiset(s.applied) + inHand
  }

  ghost predicate UniqueInserts(es: multiset<Event>) {
    forall t, u | InsertEvt(t) in es && InsertEvt(u) in es && t.id == u.id :: t == u && es[InsertEvt(t)] == 1
  }

  /** `insertedSet` is exactly the ids saved and not yet updated. */
  ghost predicate SetExact(s: Shard) {
    forall id :: id in s.inserted <==> HasInsert(s.applied, id) && !HasUpdate(s.applied, id)
  }

  /** No update is applied before its insert, and at most one per id. */
  ghost predicate Ordered(applied: seq<Event>) {
    forall j | 0 <= j < |applied| && applied[j].UpdateEvt? ::
      HasInsert(applied[..j], applied[j].id) && !HasUpdate(applied[..j], applied[j].id)
  }

  /** Row `id` was put there by accepted events. */
  predicate RowFrom(rows: Table, accepted: seq<Event>, id: int)
    requires id in rows
  {
    && rows[id].trace.id == id && InsertEvt(rows[id].trace) in accepted
    && if rows[id].finished then UpdateEvt(id, rows[id].timeCost) in accepted else rows[id].timeCost == ""
  }

  /** The table shows the effect of the applied event `e`. */
  predicate Shown(rows: Table, e: Event) {
    match e
    case InsertEvt(t) => t.id in rows && rows[t.id].trace == t
    case UpdateEvt(id, _) => id in rows && rows[id].finished
  }

  ghost predicate RowsOk(s: Shard) {
    && (forall id | id in s.rows :: RowFrom(s.rows, s.accepted, id))
    && (forall e | e in s.applied :: Shown(s.rows, e))
  }

  ghost predicate Inv(s: Shard, inHand: multiset<Event>) {
    && Conserved(s, inHand)
    && UniqueInserts(multiset(s.accepted))
    && SetExact(s) && Ordered(s.applied) && RowsOk(s)
    && (s.retry != [] ==> s.timer == Armed || s.timer == Fired)
  }

  lemma AppliedAppend(applied: seq<Event>, e: Event, id: int)
    ensures HasInsert(applied + [e], id) <==> HasInsert(applied, id) || (e.InsertEvt? && e.trace.id == id)
    ensures HasUpdate(applied + [e], id) <==> HasUpdate(applied, id) || (e.UpdateEvt? && e.id == id)
  {
    var es := applied + [e];
    assert forall i | 0 <= i < |applied| :: es[i] == applied[i];
    if HasInsert(applied, id) {
      var i :| 0 <= i < |applied| && applied[i].InsertEvt? && applied[i].trace.id == id;
      assert es[i].InsertEvt?;
    }
    if HasUpdate(applied, id) {
      var i :| 0 <= i < |applied| && applied[i].UpdateEvt? && applied[i].id == id;
      assert es[i].UpdateEvt?;
    }
    assert es[|applied|] == e;
  }

  lemma OrderedAppend(applied: seq<Event>, e: Event)
    requires Ordered(applied)
    requires e.UpdateEvt? ==> HasInsert(applied, e.id) && !HasUpdate(applied, e.id)
    ensures Ordered(applied + [e])
  {
    var es := applied + [e];
    forall j | 0 <= j < |es| && es[j].UpdateEvt?
      ensures HasInsert(es[..j], es[j].id) && !HasUpdate(es[..j], es[j].id)
    {
      assert es[..j] == applied[..j];
      assert applied[..|applied|] == applied;
    }
  }

  /** Handling an event applies it, requeues it, or drops an insert that is in `inserted`. */
  lemma HandleOutcome(s: Shard, e: Event, fault: Fault)
    ensures var t := Handle(s, e, fault);
      && t.accepted == s.accepted && t.inCh == s.inCh
      && (|| (t.applied == s.applied + [e] && t.retry == s.retry && t.timer == s.timer &&
              t.inserted == (if e.InsertEvt? then s.inserted + {e.trace.id} else s.inserted - {e.id}) &&
              (e.UpdateEvt? ==> e.id in s.inserted))
          || (t.applied == s.applied && t.retry == s.retry + [e] && t.timer == Armed && t.inserted == s.inserted)
          || (e.InsertEvt? && e.trace.id in s.inserted && t == s))
  {
  }

  /** What is acknowledged, and what the store holds afterwards: an event is applied exactly
      when its precondition held and the store call was healthy; a call that fails although
      the row was written changes the row and leaves the event queued. */
  lemma HandleMeaning(s: Shard, e: Event, fault: Fault)
    requires e.InsertEvt? ==> e.trace.id !in s.inserted
    ensures var t, id := Handle(s, e, fault), if e.InsertEvt? then e.trace.id else e.id;
      var fits := if e.InsertEvt? then id !in s.rows else id in s.inserted && id in s.rows;
      && (fits && fault.Healthy? ==> t.applied == s.applied + [e] && t.retry == s.retry)
      && (!(fits && fault.Healthy?) ==> t.applied == s.applied && t.retry == s.retry + [e] && t.timer == Armed)
      && (!fits || fault.Refused? ==> t.rows == s.rows)
      && (fits && !fault.Refused? ==>
            && (forall k | k != id :: (k in t.rows <==> k in s.rows) && (k in s.rows ==> t.rows[k] == s.rows[k]))
            && id in t.rows
            && match e
               case InsertEvt(td) => t.rows[id] == Stored(td, "", false)
               case UpdateEvt(_, timeCost) => t.rows[id] == Stored(s.rows[id].trace, timeCost, true))
  {
  }

  lemma SeqIn(es: seq<Event>, e: Event)
    ensures e in es <==> e in multiset(es)
  {
  }

  /** A drop is impossible: an insert in hand is never already in `inserted`. */
  lemma NotInsertedTwice(s: Shard, e: Event, rest: multiset<Event>)
    requires Conserved(s, multiset{e} + rest) && UniqueInserts(multiset(s.accepted)) && e.InsertEvt?
    ensures !HasInsert(s.applied, e.trace.id)
  {
  }

  lemma TwoPlaces(all: multiset<Event>, a: multiset<Event>, b: multiset<Event>, c: multiset<Event>, x: Event, y: Event)
    requires all == a + b + c && x in a && y in c
    ensures x in all && y in all && (x == y ==> all[x] >= 2)
  {
  }

  lemma MoveOne(all: multiset<Event>, ch: multiset<Event>, re: multiset<Event>, ap: multiset<Event>, e: Event,
                rest: multiset<Event>)
    requires all == ch + re + ap + (multiset{e} + rest)
    ensures all == ch + (re + multiset{e}) + ap + rest
    ensures all == ch + re + (ap + multiset{e}) + rest
    ensures e in all
  {
  }

  lemma ConservedHandle(s: Shard, e: Event, rest: multiset<Event>, fault: Fault)
    requires Conserved(s, multiset{e} + rest)
    requires e.InsertEvt? ==> e.trace.id !in s.inserted
    ensures Conserved(Handle(s, e, fault), rest)
    ensures e in s.accepted
  {
    HandleOutcome(s, e, fault);
    MoveOne(multiset(s.accepted), multiset(s.inCh), multiset(s.retry), multiset(s.applied), e, rest);
    assert multiset(s.applied + [e]) == multiset(s.applied) + multiset{e};
    assert multiset(s.retry + [e]) == multiset(s.retry) + multiset{e};
    SeqIn(s.accepted, e);
  }

  lemma RowsOkHandle(s: Shard, e: Event, fault: Fault)
    requires RowsOk(s) && e in s.accepted
    ensures RowsOk(Handle(s, e, fault))
  {
  }

  lemma BookHandle(s: Shard, e: Event, fault: Fault)
    requires SetExact(s) && Ordered(s.applied)
    requires e.InsertEvt? ==> !HasInsert(s.applied, e.trace.id)
    ensures SetExact(Handle(s, e, fault)) && Ordered(Handle(s, e, fault).applied)
  {
    var t := Handle(s, e, fault);
    HandleOutcome(s, e, fault);
    if t.applied == s.applied + [e] {
      OrderedAppend(s.applied, e);
      forall id ensures id in t.inserted <==> HasInsert(t.applied, id) && !HasUpdate(t.applied, id) {
        AppliedAppend(s.applied, e, id);
        if e.InsertEvt? && id == e.trace.id && HasUpdate(s.applied, id) {
          UpdateHasInsert(s.applied, id);
        }
      }
    }
  }

  lemma InvHandle(s: Shard, e: Event, rest: multiset<Event>, fault: Fault)
    requires Inv(s, multiset{e} + rest)
    ensures Inv(Handle(s, e, fault), rest)
  {
    if e.InsertEvt? {
      NotInsertedTwice(s, e, rest);
    }
    HandleOutcome(s, e, fault);
    ConservedHandle(s, e, rest, fault);
    RowsOkHandle(s, e, fault);
    BookHandle(s, e, fault);
  }

  lemma UpdateHasInsert(applied: seq<Event>, id: int)
    requires Ordered(applied) && HasUpdate(applied, id)
    ensures HasInsert(applied, id)
  {
  }

  /** One step of a drain that holds `q[from..]`. */
  lemma InvHandleHead(s: Shard, q: seq<Event>, from: nat, fault: Fault)
    requires from < |q| && Inv(s, multiset(q[from..]))
    ensures Inv(Handle(s, q[from], fault), multiset(q[from + 1..]))
    ensures q[from].InsertEvt? ==> q[from].trace.id !in s.inserted
  {
    var rest := q[from + 1..];
    assert q[from..] == [q[from]] + rest;
    assert multiset(q[from..]) == multiset{q[from]} + multiset(rest);
    if q[from].InsertEvt? {
      NotInsertedTwice(s, q[from], multiset(rest));
    }
    InvHandle(s, q[from], multiset(rest), fault);
  }

  lemma {:induction false} InvHandleAll(s: Shard, q: seq<Event>, faults: seq<Fault>, from: nat)
    requires from <= |q| && Inv(s, multiset(q[from..])) && (s.retry != [] ==> s.timer == Armed)
    ensures Inv(HandleAll(s, q, faults, from), multiset{})
    ensures HandleAll(s, q, faults, from).retry != [] ==> HandleAll(s, q, faults, from).timer == Armed
    decreases |q| - from
  {
    if from < |q| {
      HandleOutcome(s, q[from], FaultAt(faults, from));
      InvHandleHead(s, q, from, FaultAt(faults, from));
      InvHandleAll(Handle(s, q[from], FaultAt(faults, from)), q, faults, from + 1);
    }
  }

  lemma InvNext(s: Shard, step: Step)
    requires Inv(s, multiset{}) && Enabled(s, step)
    ensures Inv(Next(s, step), multiset{})
  {
    match step
    case Accept(e) =>
      InvAccept(s, e);
    case Receive(fault) =>
      InvReceive(s, fault);
    case Expire =>
    case Tick(faults) =>
      if s.retry != [] {
        assert s.retry[0..] == s.retry;
        InvHandleAll(s.(timer := Spent, retry := []), s.retry, faults, 0);
      }
  }

  lemma InvReceive(s: Shard, fault: Fault)
    requires Inv(s, multiset{}) && s.inCh != []
    ensures Inv(Next(s, Receive(fault)), multiset{})
  {
    var t, e := s.(inCh := s.inCh[1..]), s.inCh[0];
    assert s.inCh == [e] + t.inCh;
    assert multiset(s.inCh) == multiset{e} + multiset(t.inCh);
    assert Conserved(t, multiset{e} + multiset{});
    InvHandle(t, e, multiset{}, fault);
  }

  lemma InvAccept(s: Shard, e: Event)
    requires Inv(s, multiset{}) && Enabled(s, Accept(e))
    ensures Inv(Next(s, Accept(e)), multiset{})
  {
    var t := Next(s, Accept(e));
    assert multiset(t.accepted) == multiset(s.accepted) + multiset{e};
    assert multiset(t.inCh) == multiset(s.inCh) + multiset{e};
    forall id | id in t.rows ensures RowFrom(t.rows, t.accepted, id) {
      assert RowFrom(s.rows, s.accepted, id);
    }
    forall a | InsertEvt(a) in s.accepted && e.InsertEvt? ensures a.id != e.trace.id {
      var i :| 0 <= i < |s.accepted| && s.accepted[i] == InsertEvt(a);
    }
  }

  lemma {:induction false} InvRun(s: Shard, steps: seq<Step>)
    requires Inv(s, multiset{})
    ensures Inv(Run(s, steps), multiset{})
    decreases |steps|
  {
    if steps != [] {
      if Enabled(s, steps[0]) { InvNext(s, steps[0]); }
      InvRun(if Enabled(s, steps[0]) then Next(s, steps[0]) else s, steps[1..]);
    }
  }
}
