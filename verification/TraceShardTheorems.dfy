/** What every run of a trace shard guarantees. */
module TraceShardTheorems {
  import opened TraceShard

  /** In every reachable state each accepted event is in exactly one of channel, retry
      queue and applied log; `inserted` is exactly the ids saved but not yet updated;
      no update is applied before its insert, and none twice; and applied events show. */
  lemma ShardConservation(steps: seq<Step>)
    ensures var s := Run(INIT, steps);
      && multiset(s.accepted) == multiset(s.inCh) + multiset(s.retry) + multiset(s.applied)
      && (forall id :: id in s.inserted <==> HasInsert(s.applied, id) && !HasUpdate(s.applied, id))
      && (forall j | 0 <= j < |s.applied| && s.applied[j].UpdateEvt? ::
            HasInsert(s.applied[..j], s.applied[j].id) && !HasUpdate(s.applied[..j], s.applied[j].id))
      && (forall e | e in s.applied :: Shown(s.rows, e))
  {
    InvRun(INIT, steps);
    var s := Run(INIT, steps);
    assert Conserved(s, multiset{}) && Ordered(s.applied);
  }

  /** A waiting event is never forgotten: the timer is running or its tick is pending. */
  lemma NoLostWakeup(steps: seq<Step>)
    ensures var s := Run(INIT, steps);
      s.retry != [] ==> Enabled(s, Expire) || forall faults :: Enabled(s, Tick(faults))
  {
    InvRun(INIT, steps);
  }

  /** What waits in the channel is the latest part of what was accepted, in order. */
  predicate InOrder(s: Shard) {
    |s.inCh| <= |s.accepted| && s.inCh == s.accepted[|s.accepted| - |s.inCh|..]
  }

  lemma InOrderNext(s: Shard, step: Step)
    requires Enabled(s, step) && InOrder(s)
    ensures InOrder(Next(s, step))
  {
    match step
    case Accept(_) =>
    case Receive(fault) => HandleOutcome(s.(inCh := s.inCh[1..]), s.inCh[0], fault);
    case Expire =>
    case Tick(faults) => DrainFrame(s.(timer := Spent, retry := []), s.retry, faults, 0);
  }

  /** The loop takes events in the order in which they were accepted. */
  lemma {:induction false} ReceivedInOrder(s: Shard, steps: seq<Step>)
    requires InOrder(s)
    ensures InOrder(Run(s, steps))
    decreases |steps|
  {
    if steps != [] {
      if Enabled(s, steps[0]) { InOrderNext(s, steps[0]); }
      ReceivedInOrder(if Enabled(s, steps[0]) then Next(s, steps[0]) else s, steps[1..]);
    }
  }

  // ----- confluence -----

  predicate OneTracePerId(es: seq<Event>) {
    forall e, f | e in es && f in es && e.InsertEvt? && f.InsertEvt? && e.trace.id == f.trace.id :: e == f
  }

  ghost predicate OneUpdatePerId(es: multiset<Event>) {
    forall e, f | e in es && f in es && e.UpdateEvt? && f.UpdateEvt? && e.id == f.id :: e == f && es[e] == 1
  }

  lemma {:induction false} InsertEachAt(es: seq<Event>, id: int)
    requires OneTracePerId(es)
    ensures id in InsertEach(map[], es) <==> HasInsert(es, id)
    ensures forall e | e in es && e.InsertEvt? && e.trace.id == id ::
              id in InsertEach(map[], es) && InsertEach(map[], es)[id] == Stored(e.trace, "", false)
    decreases |es|
  {
    if es != [] {
      var front, e := es[..|es| - 1], es[|es| - 1];
      assert es == front + [e];
      InsertEachAt(front, id);
      AppliedAppend(front, e, id);
    }
  }

  lemma {:induction false} UpdateEachAt(rows: Table, es: seq<Event>, id: int)
    ensures var r := UpdateEach(rows, es);
      && (id in r <==> id in rows)
      && (id in r ==> r[id].trace == rows[id].trace)
      && (id in r && !HasUpdate(es, id) ==> r[id] == rows[id])
      && (id in r && HasUpdate(es, id) ==> r[id].finished && UpdateEvt(id, r[id].timeCost) in es)
    decreases |es|
  {
    if es != [] {
      var front, e := es[..|es| - 1], es[|es| - 1];
      assert es == front + [e];
      UpdateEachAt(rows, front, id);
      AppliedAppend(front, e, id);
    }
  }

  lemma HasUpdateIn(es: seq<Event>, id: int, timeCost: string)
    requires UpdateEvt(id, timeCost) in es
    ensures HasUpdate(es, id)
  {
  }

  lemma HasInsertIn(es: seq<Event>, t: TraceData)
    requires InsertEvt(t) in es
    ensures HasInsert(es, t.id)
  {
  }

  lemma QuietApplied(s: Shard, e: Event)
    requires Inv(s, multiset{}) && Quiet(s)
    ensures e in s.accepted <==> e in s.applied
    ensures multiset(s.accepted) == multiset(s.applied)
  {
    assert multiset(s.inCh) == multiset{} && multiset(s.retry) == multiset{};
    SeqIn(s.accepted, e);
    SeqIn(s.applied, e);
  }

  lemma {:induction false} OrderedOneUpdate(applied: seq<Event>)
    requires Ordered(applied)
    ensures OneUpdatePerId(multiset(applied))
    decreases |applied|
  {
    if applied != [] {
      var front, last := applied[..|applied| - 1], applied[|applied| - 1];
      assert applied == front + [last];
      assert multiset(applied) == multiset(front) + multiset{last};
      forall j | 0 <= j < |front| && front[j].UpdateEvt?
        ensures HasInsert(front[..j], front[j].id) && !HasUpdate(front[..j], front[j].id)
      {
        assert front[..j] == applied[..j] && applied[j] == front[j];
      }
      OrderedOneUpdate(front);
      if last.UpdateEvt? {
        forall e | e in multiset(front) && e.UpdateEvt? ensures e.id != last.id {
          SeqIn(front, e);
          HasUpdateIn(front, e.id, e.timeCost);
        }
      }
    }
  }

  /** The shard can only come to rest on a history in which every update has its insert
      and no id is updated twice. */
  lemma QuietHistory(steps: seq<Step>)
    requires Quiet(Run(INIT, steps))
    ensures var accepted := Run(INIT, steps).accepted;
      OneUpdatePerId(multiset(accepted)) &&
      forall e | e in accepted && e.UpdateEvt? :: HasInsert(accepted, e.id)
  {
    InvRun(INIT, steps);
    QuietNeeds(Run(INIT, steps));
  }

  lemma UniqueIsOneTrace(es: seq<Event>)
    requires UniqueInserts(multiset(es))
    ensures OneTracePerId(es)
  {
  }

  lemma QuietRow(s: Shard, id: int)
    requires Inv(s, multiset{}) && Quiet(s)
    ensures id in s.rows <==> id in Reference(s.accepted)
    ensures id in s.rows ==> s.rows[id] == Reference(s.accepted)[id]
  {
    var es := s.accepted;
    UniqueIsOneTrace(es);
    InsertEachAt(es, id);
    UpdateEachAt(InsertEach(map[], es), es, id);
    if HasInsert(es, id) {
      var i :| 0 <= i < |es| && es[i].InsertEvt? && es[i].trace.id == id;
      QuietApplied(s, es[i]);
      assert Shown(s.rows, es[i]);
    }
    if id in s.rows {
      assert RowFrom(s.rows, es, id);
      HasInsertIn(es, s.rows[id].trace);
      if s.rows[id].finished {
        HasUpdateIn(es, id, s.rows[id].timeCost);
      }
      if HasUpdate(es, id) {
        var j :| 0 <= j < |es| && es[j].UpdateEvt? && es[j].id == id;
        QuietApplied(s, es[j]);
        assert Shown(s.rows, es[j]);
        OrderedOneUpdate(s.applied);
        SeqIn(es, UpdateEvt(id, s.rows[id].timeCost));
        SeqIn(es, UpdateEvt(id, Reference(es)[id].timeCost));
      }
    }
  }

  /** Confluence: whatever the arrival order, the drains and the store errors were, a shard
      at rest has the table that inserting every row and then applying every update gives. */
  lemma Confluence(steps: seq<Step>)
    requires Quiet(Run(INIT, steps))
    ensures Run(INIT, steps).rows == Reference(Run(INIT, steps).accepted)
  {
    var s := Run(INIT, steps);
    InvRun(INIT, steps);
    forall id: int
      ensures id in s.rows <==> id in Reference(s.accepted)
      ensures id in s.rows ==> s.rows[id] == Reference(s.accepted)[id]
    {
      QuietRow(s, id);
    }
  }

  lemma {:induction false} ReferenceOrderFree(xs: seq<Event>, ys: seq<Event>)
    requires multiset(xs) == multiset(ys) && OneTracePerId(xs) && OneUpdatePerId(multiset(xs))
    ensures Reference(xs) == Reference(ys)
  {
    forall e ensures e in xs <==> e in ys {
      SeqIn(xs, e);
      SeqIn(ys, e);
    }
    forall id: int
      ensures id in Reference(xs) <==> id in Reference(ys)
      ensures id in Reference(xs) ==> Reference(xs)[id] == Reference(ys)[id]
    {
      InsertEachAt(xs, id);
      InsertEachAt(ys, id);
      UpdateEachAt(InsertEach(map[], xs), xs, id);
      UpdateEachAt(InsertEach(map[], ys), ys, id);
      SameHas(xs, ys, id);
      SameHas(ys, xs, id);
      if HasInsert(xs, id) {
        var i :| 0 <= i < |xs| && xs[i].InsertEvt? && xs[i].trace.id == id;
        assert xs[i] in ys;
      }
      if HasInsert(xs, id) && HasUpdate(xs, id) {
        SeqIn(xs, UpdateEvt(id, Reference(xs)[id].timeCost));
        SeqIn(ys, UpdateEvt(id, Reference(ys)[id].timeCost));
      }
    }
  }

  lemma SameHas(xs: seq<Event>, ys: seq<Event>, id: int)
    requires forall e :: e in xs ==> e in ys
    ensures HasInsert(xs, id) ==> HasInsert(ys, id)
    ensures HasUpdate(xs, id) ==> HasUpdate(ys, id)
  {
    if HasInsert(xs, id) {
      var i :| 0 <= i < |xs| && xs[i].InsertEvt? && xs[i].trace.id == id;
      HasInsertIn(ys, xs[i].trace);
    }
    if HasUpdate(xs, id) {
      var i :| 0 <= i < |xs| && xs[i].UpdateEvt? && xs[i].id == id;
      HasUpdateIn(ys, id, xs[i].timeCost);
    }
  }

  /** Two runs at rest that accepted the same events, in any two orders, agree on the table. */
  lemma SameEventsSameTable(steps: seq<Step>, steps': seq<Step>)
    requires Quiet(Run(INIT, steps)) && Quiet(Run(INIT, steps'))
    requires multiset(Run(INIT, steps).accepted) == multiset(Run(INIT, steps').accepted)
    ensures Run(INIT, steps).rows == Run(INIT, steps').rows
  {
    Confluence(steps);
    Confluence(steps');
    QuietHistory(steps);
    InvRun(INIT, steps);
    UniqueIsOneTrace(Run(INIT, steps).accepted);
    ReferenceOrderFree(Run(INIT, steps).accepted, Run(INIT, steps').accepted);
  }

  // ----- convergence -----

  /** A queued insert whose row is already there: its write went through but was reported
      as failed, so every later attempt violates the primary key. */
  predicate HalfDone(s: Shard, e: Event) {
    e.InsertEvt? && e in s.retry && e.trace.id in s.rows
  }

  /** The inserts waiting in the queue are for different ids, none of which is in `inserted`. */
  lemma QueuedInserts(s: Shard)
    requires Inv(s, multiset{})
    ensures forall i | 0 <= i < |s.retry| && s.retry[i].InsertEvt? :: s.retry[i].trace.id !in s.inserted
    ensures forall i, j | 0 <= i < j < |s.retry| && s.retry[i].InsertEvt? && s.retry[j].InsertEvt? ::
              s.retry[i].trace.id != s.retry[j].trace.id
  {
    forall i | 0 <= i < |s.retry| && s.retry[i].InsertEvt? ensures s.retry[i].trace.id !in s.inserted {
      QueuedNotInserted(s, s.retry[i]);
    }
    forall i, j | 0 <= i < j < |s.retry| && s.retry[i].InsertEvt? && s.retry[j].InsertEvt?
      ensures s.retry[i].trace.id != s.retry[j].trace.id
    {
      QueuedDiffer(s, i, j);
    }
  }

  lemma QueuedNotInserted(s: Shard, e: Event)
    requires Conserved(s, multiset{}) && UniqueInserts(multiset(s.accepted)) && SetExact(s)
    requires e in s.retry && e.InsertEvt?
    ensures e.trace.id !in s.inserted
  {
  }

  lemma QueuedDiffer(s: Shard, i: nat, j: nat)
    requires Conserved(s, multiset{}) && UniqueInserts(multiset(s.accepted))
    requires i < j < |s.retry| && s.retry[i].InsertEvt? && s.retry[j].InsertEvt?
    ensures s.retry[i].trace.id != s.retry[j].trace.id
  {
    var front, back := s.retry[..j], s.retry[j..];
    assert s.retry == front + back;
    assert front[i] == s.retry[i] && back[0] == s.retry[j];
    SeqIn(front, front[i]);
    SeqIn(back, back[0]);
    TwoPlaces(multiset(s.accepted), multiset(front), multiset(s.inCh) + multiset(s.applied), multiset(back),
              front[i], back[0]);
    assert front[i] == InsertEvt(front[i].trace) && back[0] == InsertEvt(back[0].trace);
  }

  /** A healthy drain saves every insert that is not half done. */
  lemma {:induction false} FirstDrain(s: Shard, q: seq<Event>, from: nat)
    requires from <= |q| && forall e | e in s.retry :: e.UpdateEvt?
    requires forall i | from <= i < |q| && q[i].InsertEvt? :: q[i].trace.id !in s.rows && q[i].trace.id !in s.inserted
    requires forall i, j | from <= i < j < |q| && q[i].InsertEvt? && q[j].InsertEvt? :: q[i].trace.id != q[j].trace.id
    ensures forall e | e in HandleAll(s, q, [], from).retry :: e.UpdateEvt?
    decreases |q| - from
  {
    if from < |q| {
      FirstDrain(Handle(s, q[from], Healthy), q, from + 1);
    }
  }

  lemma {:induction false} SecondDrain(s: Shard, q: seq<Event>, from: nat)
    requires from <= |q| && s.retry == []
    requires forall i | from <= i < |q| :: q[i].UpdateEvt? && q[i].id in s.inserted && q[i].id in s.rows
    requires forall i, j | from <= i < j < |q| :: q[i].id != q[j].id
    ensures HandleAll(s, q, [], from).retry == []
    decreases |q| - from
  {
    if from < |q| {
      SecondDrain(Handle(s, q[from], Healthy), q, from + 1);
    }
  }

  lemma DistinctUpdates(q: seq<Event>, all: multiset<Event>)
    requires multiset(q) <= all && OneUpdatePerId(all) && forall e | e in q :: e.UpdateEvt?
    ensures forall i, j | 0 <= i < j < |q| :: q[i].id != q[j].id
  {
    forall i, j | 0 <= i < j < |q| ensures q[i].id != q[j].id {
      SeqIn(q, q[i]);
      SeqIn(q, q[j]);
      assert q == q[..j] + [q[j]] + q[j + 1..];
      assert multiset(q) == multiset(q[..j]) + multiset{q[j]} + multiset(q[j + 1..]);
      assert q[..j][i] == q[i];
      SeqIn(q[..j], q[i]);
    }
  }

  lemma ReadyForSecond(t: Shard, e: Event)
    requires Inv(t, multiset{}) && t.inCh == [] && e in t.retry
    requires forall f | f in t.retry :: f.UpdateEvt?
    requires OneUpdatePerId(multiset(t.accepted))
    requires forall f | f in t.accepted && f.UpdateEvt? :: HasInsert(t.accepted, f.id)
    ensures e.id in t.inserted && e.id in t.rows
  {
    SeqIn(t.retry, e);
    SeqIn(t.accepted, e);
    var i :| 0 <= i < |t.accepted| && t.accepted[i].InsertEvt? && t.accepted[i].trace.id == e.id;
    var d := t.accepted[i];
    SeqIn(t.accepted, d);
    SeqIn(t.retry, d);
    SeqIn(t.applied, d);
    assert multiset(t.inCh) == multiset{};
    HasInsertIn(t.applied, d.trace);
    assert Shown(t.rows, d);
    forall f | f in t.applied && f.UpdateEvt? ensures f.id != e.id {
      SeqIn(t.applied, f);
      TwoPlaces(multiset(t.accepted), multiset(t.applied), multiset(t.inCh), multiset(t.retry), f, e);
    }
    assert !HasUpdate(t.applied, e.id);
  }

  lemma DrainKeepsInv(s: Shard, faults: seq<Fault>)
    requires Inv(s, multiset{})
    ensures Inv(Drain(s, faults), multiset{})
    ensures Drain(s, faults).accepted == s.accepted && Drain(s, faults).inCh == s.inCh
  {
    if s.retry != [] {
      assert s.retry[0..] == s.retry;
      InvHandleAll(s.(retry := []), s.retry, faults, 0);
    }
    DrainFrame(s.(retry := []), s.retry, faults, 0);
  }

  lemma {:induction false} DrainFrame(s: Shard, q: seq<Event>, faults: seq<Fault>, from: nat)
    requires from <= |q|
    ensures HandleAll(s, q, faults, from).accepted == s.accepted
    ensures HandleAll(s, q, faults, from).inCh == s.inCh
    ensures forall id | id in s.rows :: id in HandleAll(s, q, faults, from).rows
    decreases |q| - from
  {
    if from < |q| {
      DrainFrame(Handle(s, q[from], FaultAt(faults, from)), q, faults, from + 1);
    }
  }

  /** A drain during a store outage applies nothing, loses nothing and keeps the order. */
  lemma {:induction false} OutageDrain(s: Shard, q: seq<Event>, faults: seq<Fault>, from: nat)
    requires from <= |q| <= |faults| && forall i | from <= i < |q| :: faults[i].Refused?
    requires forall i | from <= i < |q| && q[i].InsertEvt? :: q[i].trace.id !in s.inserted
    ensures var t := HandleAll(s, q, faults, from);
      t.retry == s.retry + q[from..] && t.rows == s.rows && t.inserted == s.inserted && t.applied == s.applied
    decreases |q| - from
  {
    if from < |q| {
      HandleMeaning(s, q[from], faults[from]);
      HandleOutcome(s, q[from], faults[from]);
      OutageDrain(Handle(s, q[from], FaultAt(faults, from)), q, faults, from + 1);
      assert s.retry + [q[from]] + q[from + 1..] == s.retry + q[from..];
    }
  }

  /** A half-done insert comes out of every drain as it went in. */
  lemma {:induction false} HalfDoneStays(s: Shard, q: seq<Event>, e: Event, faults: seq<Fault>, from: nat)
    requires from <= |q| && e.InsertEvt? && e.trace.id in s.rows && e.trace.id !in s.inserted
    requires e in s.retry || exists i :: from <= i < |q| && q[i] == e
    ensures e in HandleAll(s, q, faults, from).retry
    decreases |q| - from
  {
    if from < |q| {
      HandleOutcome(s, q[from], FaultAt(faults, from));
      HalfDoneStays(Handle(s, q[from], FaultAt(faults, from)), q, e, faults, from + 1);
    }
  }

  lemma HalfDoneDrain(s: Shard, e: Event, faults: seq<Fault>)
    requires Inv(s, multiset{}) && HalfDone(s, e)
    ensures HalfDone(Drain(s, faults), e)
  {
    QueuedInserts(s);
    HalfDoneStays(s.(retry := []), s.retry, e, faults, 0);
    DrainFrame(s.(retry := []), s.retry, faults, 0);
  }

  /** With the channel empty and the store healthy, two drains empty the retry queue if and
      only if no insert is half done, every update's insert was accepted and no id was
      updated twice. */
  lemma TwoDrainsConverge(steps: seq<Step>)
    requires Run(INIT, steps).inCh == []
    ensures var s := Run(INIT, steps); Drain(Drain(s, []), []).retry == [] <==> CanConverge(s)
  {
    var s := Run(INIT, steps);
    InvRun(INIT, steps);
    if CanConverge(s) {
      Converges(s);
    }
    if Drain(Drain(s, []), []).retry == [] {
      ConvergenceNeeds(s);
    }
  }

  ghost predicate CanConverge(s: Shard) {
    && (forall e | e in s.retry :: !HalfDone(s, e))
    && (forall e | e in s.accepted && e.UpdateEvt? :: HasInsert(s.accepted, e.id))
    && OneUpdatePerId(multiset(s.accepted))
  }

  lemma Converges(s: Shard)
    requires Inv(s, multiset{}) && s.inCh == [] && CanConverge(s)
    ensures Drain(Drain(s, []), []).retry == []
  {
    var t := Drain(s, []);
    DrainKeepsInv(s, []);
    FirstDrainUpdatesOnly(s);
    forall e | e in t.retry ensures e.id in t.inserted && e.id in t.rows {
      ReadyForSecond(t, e);
    }
    DistinctUpdates(t.retry, multiset(t.accepted));
    SecondDrain(t.(retry := []), t.retry, 0);
  }

  lemma ConvergenceNeeds(s: Shard)
    requires Inv(s, multiset{}) && s.inCh == [] && Drain(Drain(s, []), []).retry == []
    ensures CanConverge(s)
  {
    var t := Drain(s, []);
    DrainKeepsInv(s, []);
    DrainKeepsInv(t, []);
    forall e | HalfDone(s, e) ensures e in Drain(t, []).retry {
      HalfDoneDrain(s, e, []);
      HalfDoneDrain(t, e, []);
    }
    QuietNeeds(Drain(t, []));
  }

  lemma FirstDrainUpdatesOnly(s: Shard)
    requires Inv(s, multiset{}) && forall e | e in s.retry :: !HalfDone(s, e)
    ensures forall e | e in Drain(s, []).retry :: e.UpdateEvt?
  {
    if s.retry != [] {
      QueuedInserts(s);
      forall i | 0 <= i < |s.retry| && s.retry[i].InsertEvt? ensures s.retry[i].trace.id !in s.rows {
        assert !HalfDone(s, s.retry[i]);
      }
      FirstDrain(s.(retry := []), s.retry, 0);
    }
  }

  lemma QuietNeeds(s: Shard)
    requires Inv(s, multiset{}) && Quiet(s)
    ensures OneUpdatePerId(multiset(s.accepted))
    ensures forall e | e in s.accepted && e.UpdateEvt? :: HasInsert(s.accepted, e.id)
  {
    OrderedOneUpdate(s.applied);
    QuietApplied(s, InsertEvt(TraceData(0, "", 0, 0, 0, 0)));
    forall e | e in s.accepted && e.UpdateEvt? ensures HasInsert(s.accepted, e.id) {
      QuietApplied(s, e);
      HasUpdateIn(s.applied, e.id, e.timeCost);
      UpdateHasInsert(s.applied, e.id);
      var i :| 0 <= i < |s.applied| && s.applied[i].InsertEvt? && s.applied[i].trace.id == e.id;
      QuietApplied(s, s.applied[i]);
      HasInsertIn(s.accepted, s.applied[i].trace);
    }
  }
}
