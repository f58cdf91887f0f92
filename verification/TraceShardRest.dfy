/** Exactly when a trace shard can still come to rest, and what it retries for ever. */
module TraceShardRest {
  import opened TraceShard
  import opened TraceShardTheorems

  // ----- what never comes to rest -----

  lemma HalfDoneNext(s: Shard, step: Step, e: Event)
    requires Inv(s, multiset{}) && Enabled(s, step) && HalfDone(s, e)
    ensures HalfDone(Next(s, step), e)
  {
    match step
    case Accept(_) =>
    case Receive(_) =>
    case Expire =>
    case Tick(faults) => HalfDoneTick(s, faults, e);
  }

  lemma HalfDoneTick(s: Shard, faults: seq<Fault>, e: Event)
    requires Inv(s, multiset{}) && HalfDone(s, e)
    ensures HalfDone(Drain(s.(timer := Spent), faults), e)
  {
    var t := s.(timer := Spent, retry := []);
    QueuedNotInserted(s, e);
    HalfDoneStays(t, s.retry, e, faults, 0);
    DrainFrame(t, s.retry, faults, 0);
  }

  /** A half-done insert is retried for ever, whatever arrives and whatever the store does. */
  lemma {:induction false} HalfDoneForever(s: Shard, e: Event, more: seq<Step>)
    requires Inv(s, multiset{}) && HalfDone(s, e)
    ensures HalfDone(Run(s, more), e) && !Quiet(Run(s, more))
    decreases |more|
  {
    if more != [] {
      if Enabled(s, more[0]) {
        HalfDoneNext(s, more[0], e);
        InvNext(s, more[0]);
      }
      HalfDoneForever(if Enabled(s, more[0]) then Next(s, more[0]) else s, e, more[1..]);
    }
  }

  lemma RunOne(s: Shard, step: Step, more: seq<Step>)
    requires Enabled(s, step)
    ensures Run(s, [step] + more) == Run(Next(s, step), more)
  {
    assert ([step] + more)[1..] == more;
  }

  /** The input: one insert whose write goes through and is reported as failed. */
  lemma LateInsertIsHalfDone(t: TraceData)
    ensures HalfDone(Run(INIT, [Accept(InsertEvt(t)), Receive(Late)]), InsertEvt(t))
  {
    var s := Next(INIT, Accept(InsertEvt(t)));
    RunOne(INIT, Accept(InsertEvt(t)), [Receive(Late)]);
    RunOne(s, Receive(Late), []);
    assert [Accept(InsertEvt(t))] + [Receive(Late)] == [Accept(InsertEvt(t)), Receive(Late)];
    assert [Receive(Late)] + [] == [Receive(Late)];
  }

  /** History only grows. */
  lemma AcceptedNext(s: Shard, step: Step)
    requires Enabled(s, step)
    ensures multiset(s.accepted) <= multiset(Next(s, step).accepted)
  {
    if step.Tick? {
      DrainFrame(s.(timer := Spent, retry := []), s.retry, step.faults, 0);
    }
  }

  lemma {:induction false} AcceptedGrows(s: Shard, more: seq<Step>)
    ensures multiset(s.accepted) <= multiset(Run(s, more).accepted)
    decreases |more|
  {
    if more != [] {
      if Enabled(s, more[0]) { AcceptedNext(s, more[0]); }
      AcceptedGrows(if Enabled(s, more[0]) then Next(s, more[0]) else s, more[1..]);
    }
  }

  /** A shard that accepted two updates of one id never comes to rest again. */
  lemma DoubleUpdateForever(s: Shard, more: seq<Step>)
    requires Inv(s, multiset{}) && !OneUpdatePerId(multiset(s.accepted))
    ensures !Quiet(Run(s, more))
  {
    InvRun(s, more);
    AcceptedGrows(s, more);
    if Quiet(Run(s, more)) {
      QuietNeeds(Run(s, more));
    }
  }

  /** The input: two updates of one id. */
  lemma TwoUpdatesNeverRest(id: int, a: string, b: string, more: seq<Step>)
    ensures !Quiet(Run(Run(INIT, [Accept(UpdateEvt(id, a)), Accept(UpdateEvt(id, b))]), more))
  {
    var first, second := Accept(UpdateEvt(id, a)), Accept(UpdateEvt(id, b));
    RunOne(INIT, first, [second]);
    RunOne(Next(INIT, first), second, []);
    assert [first] + [second] == [first, second] && [second] + [] == [second];
    var s := Run(INIT, [first, second]);
    assert s == Next(Next(INIT, first), second);
    assert s.accepted == [first.e, second.e];
    InvRun(INIT, [first, second]);
    TwiceUpdated(s.accepted, id, a, b);
    DoubleUpdateForever(s, more);
  }

  lemma TwiceUpdated(es: seq<Event>, id: int, a: string, b: string)
    requires es == [UpdateEvt(id, a), UpdateEvt(id, b)]
    ensures !OneUpdatePerId(multiset(es))
  {
    assert UpdateEvt(id, a) in multiset(es) && UpdateEvt(id, b) in multiset(es);
    if a == b { assert multiset(es)[UpdateEvt(id, a)] == 2; }
  }

  // ----- how everything else comes to rest -----

  ghost predicate NoneHalfDone(s: Shard) {
    forall e | e in s.retry :: !HalfDone(s, e)
  }

  /** An insert still in the channel has no row yet. */
  ghost predicate ChannelFresh(s: Shard) {
    forall e | e in s.inCh && e.InsertEvt? :: e.trace.id !in s.rows
  }

  lemma RowHasInsert(s: Shard, id: int)
    requires RowsOk(s) && id in s.rows
    ensures HasInsert(s.accepted, id)
  {
    HasInsertIn(s.accepted, s.rows[id].trace);
  }

  /** Events in two places of one history are inserts of different ids. */
  lemma ApartInserts(all: multiset<Event>, a: multiset<Event>, b: multiset<Event>, rest: multiset<Event>,
                     x: Event, y: Event)
    requires UniqueInserts(all) && all == a + rest + b && x in a && y in b && x.InsertEvt? && y.InsertEvt?
    ensures x.trace.id != y.trace.id
  {
    TwoPlaces(all, a, rest, b, x, y);
    assert x == InsertEvt(x.trace) && y == InsertEvt(y.trace);
  }

  lemma HeadApart(s: Shard, f: Event)
    requires Inv(s, multiset{}) && s.inCh != [] && f in s.inCh[1..] && f.InsertEvt? && s.inCh[0].InsertEvt?
    ensures s.inCh[0].trace.id != f.trace.id
  {
    var e, rest := s.inCh[0], s.inCh[1..];
    assert s.inCh == [e] + rest;
    SeqIn(rest, f);
    ApartInserts(multiset(s.accepted), multiset{e}, multiset(rest), multiset(s.retry) + multiset(s.applied), e, f);
  }

  lemma QueueApart(s: Shard, e: Event, f: Event)
    requires Inv(s, multiset{}) && e in s.inCh && f in s.retry && e.InsertEvt? && f.InsertEvt?
    ensures e.trace.id != f.trace.id
  {
    SeqIn(s.inCh, e);
    SeqIn(s.retry, f);
    ApartInserts(multiset(s.accepted), multiset(s.inCh), multiset(s.retry), multiset(s.applied), e, f);
  }

  lemma ChannelNotInserted(s: Shard, e: Event)
    requires Inv(s, multiset{}) && e in s.inCh && e.InsertEvt?
    ensures e.trace.id !in s.inserted
  {
    if HasInsert(s.applied, e.trace.id) {
      var i :| 0 <= i < |s.applied| && s.applied[i].InsertEvt? && s.applied[i].trace.id == e.trace.id;
      SeqIn(s.inCh, e);
      SeqIn(s.applied, s.applied[i]);
      ApartInserts(multiset(s.accepted), multiset(s.inCh), multiset(s.applied), multiset(s.retry), e, s.applied[i]);
    }
  }

  lemma {:induction false} DrainRows(s: Shard, q: seq<Event>, faults: seq<Fault>, from: nat)
    requires from <= |q|
    ensures forall id | id in HandleAll(s, q, faults, from).rows ::
              id in s.rows || exists i :: from <= i < |q| && q[i].InsertEvt? && q[i].trace.id == id
    decreases |q| - from
  {
    if from < |q| {
      DrainRows(Handle(s, q[from], FaultAt(faults, from)), q, faults, from + 1);
    }
  }

  /** A handled event adds no row but its own. */
  lemma HandleRows(s: Shard, e: Event, fault: Fault)
    ensures forall id | id in Handle(s, e, fault).rows :: id in s.rows || (e.InsertEvt? && e.trace.id == id)
  {
  }

  lemma FreshReceive(s: Shard, fault: Fault)
    requires Inv(s, multiset{}) && ChannelFresh(s) && s.inCh != []
    ensures ChannelFresh(Next(s, Receive(fault)))
  {
    var t := s.(inCh := s.inCh[1..]);
    HandleRows(t, s.inCh[0], fault);
    HandleOutcome(t, s.inCh[0], fault);
    forall f | f in t.inCh && f.InsertEvt? ensures f.trace.id !in Handle(t, s.inCh[0], fault).rows {
      if s.inCh[0].InsertEvt? { HeadApart(s, f); }
    }
  }

  lemma FreshTick(s: Shard, faults: seq<Fault>)
    requires Inv(s, multiset{}) && ChannelFresh(s)
    ensures ChannelFresh(Drain(s.(timer := Spent), faults))
  {
    var t := s.(timer := Spent, retry := []);
    DrainRows(t, s.retry, faults, 0);
    DrainFrame(t, s.retry, faults, 0);
    forall f | f in s.inCh && f.InsertEvt? ensures f.trace.id !in HandleAll(t, s.retry, faults, 0).rows {
      forall i | 0 <= i < |s.retry| && s.retry[i].InsertEvt? ensures s.retry[i].trace.id != f.trace.id {
        QueueApart(s, f, s.retry[i]);
      }
    }
  }

  lemma FreshNext(s: Shard, step: Step)
    requires Inv(s, multiset{}) && ChannelFresh(s) && Enabled(s, step)
    ensures ChannelFresh(Next(s, step))
  {
    match step
    case Accept(e) =>
      if e.InsertEvt? && e.trace.id in s.rows { RowHasInsert(s, e.trace.id); }
    case Receive(fault) => FreshReceive(s, fault);
    case Expire =>
    case Tick(faults) => FreshTick(s, faults);
  }

  lemma {:induction false} FreshRun(s: Shard, steps: seq<Step>)
    requires Inv(s, multiset{}) && ChannelFresh(s)
    ensures ChannelFresh(Run(s, steps))
    decreases |steps|
  {
    if steps != [] {
      if Enabled(s, steps[0]) {
        InvNext(s, steps[0]);
        FreshNext(s, steps[0]);
      }
      FreshRun(if Enabled(s, steps[0]) then Next(s, steps[0]) else s, steps[1..]);
    }
  }

  /** A state from which the shard can still come to rest. */
  ghost predicate Restful(s: Shard) {
    Inv(s, multiset{}) && ChannelFresh(s) && NoneHalfDone(s) && OneUpdatePerId(multiset(s.accepted))
  }

  /** A healthy receive saves an insert, and makes none half done. */
  lemma RestfulReceive(s: Shard)
    requires Restful(s) && s.inCh != []
    ensures Restful(Next(s, Receive(Healthy)))
    ensures Next(s, Receive(Healthy)).inCh == s.inCh[1..] && Next(s, Receive(Healthy)).accepted == s.accepted
  {
    var e, t := s.inCh[0], Next(s, Receive(Healthy));
    InvNext(s, Receive(Healthy));
    FreshReceive(s, Healthy);
    HandleOutcome(s.(inCh := s.inCh[1..]), e, Healthy);
    HandleRows(s.(inCh := s.inCh[1..]), e, Healthy);
    if e.InsertEvt? { ChannelNotInserted(s, e); }
    forall f | f in t.retry && f.InsertEvt? ensures f.trace.id !in t.rows {
      assert f in s.retry && !HalfDone(s, f);
      if e.InsertEvt? { QueueApart(s, e, f); }
    }
  }

  /** Receives that empty the channel. */
  lemma {:induction false} EmptyChannel(s: Shard) returns (more: seq<Step>)
    requires Restful(s)
    ensures Restful(Run(s, more)) && Run(s, more).inCh == [] && Run(s, more).accepted == s.accepted
    decreases |s.inCh|
  {
    more := [];
    if s.inCh != [] {
      RestfulReceive(s);
      more := EmptyChannel(Next(s, Receive(Healthy)));
      RunOne(s, Receive(Healthy), more);
      more := [Receive(Healthy)] + more;
    }
  }

  /** The ids updated so far but never inserted. */
  function Missing(es: seq<Event>): set<int> {
    set e | e in es && e.UpdateEvt? && !HasInsert(es, e.id) :: e.id
  }

  lemma MissingLess(es: seq<Event>, t: TraceData)
    requires t.id in Missing(es)
    ensures Missing(es + [InsertEvt(t)]) == Missing(es) - {t.id}
  {
    var all := es + [InsertEvt(t)];
    forall id ensures HasInsert(all, id) <==> HasInsert(es, id) || id == t.id {
      AppliedAppend(es, InsertEvt(t), id);
    }
    forall e: Event | e.UpdateEvt? ensures e in all <==> e in es {
    }
  }

  lemma RestfulAccept(s: Shard, t: TraceData)
    requires Restful(s) && s.inCh == [] && !HasInsert(s.accepted, t.id)
    ensures Restful(Next(s, Accept(InsertEvt(t))))
  {
    InvNext(s, Accept(InsertEvt(t)));
    FreshNext(s, Accept(InsertEvt(t)));
    assert multiset(s.accepted + [InsertEvt(t)]) == multiset(s.accepted) + multiset{InsertEvt(t)};
    forall e | e in s.retry ensures !HalfDone(Next(s, Accept(InsertEvt(t))), e) {
      assert !HalfDone(s, e);
    }
  }

  /** The inserts that updates are waiting for arrive. */
  lemma {:induction false} SupplyInserts(s: Shard) returns (more: seq<Step>)
    requires Restful(s) && s.inCh == []
    ensures Restful(Run(s, more)) && Run(s, more).inCh == [] && Missing(Run(s, more).accepted) == {}
    decreases |Missing(s.accepted)|
  {
    more := [];
    if Missing(s.accepted) != {} {
      var id :| id in Missing(s.accepted);
      var t := TraceData(id, "", 0, 0, 0, 0);
      RestfulAccept(s, t);
      var s1 := Next(s, Accept(InsertEvt(t)));
      RestfulReceive(s1);
      var s2 := Next(s1, Receive(Healthy));
      MissingLess(s.accepted, t);
      more := SupplyInserts(s2);
      RunOne(s1, Receive(Healthy), more);
      RunOne(s, Accept(InsertEvt(t)), [Receive(Healthy)] + more);
      more := [Accept(InsertEvt(t))] + ([Receive(Healthy)] + more);
    }
  }

  lemma {:induction false} TimerIgnored(s: Shard, timer: Timer, q: seq<Event>, from: nat)
    requires from <= |q|
    ensures var t, u := HandleAll(s, q, [], from), HandleAll(s.(timer := timer), q, [], from);
      u == t.(timer := u.timer)
    decreases |q| - from
  {
    if from < |q| {
      var t, u := Handle(s, q[from], Healthy), Handle(s.(timer := timer), q[from], Healthy);
      assert u == t.(timer := u.timer);
      TimerIgnored(t, u.timer, q, from + 1);
    }
  }

  lemma DrainIgnoresTimer(s: Shard, timer: Timer)
    ensures Drain(s.(timer := timer), []).retry == Drain(s, []).retry
    ensures Drain(s.(timer := timer), []) == Drain(s, []).(timer := Drain(s.(timer := timer), []).timer)
  {
    TimerIgnored(s.(retry := []), timer, s.retry, 0);
  }

  /** From the timer running or its tick pending, one healthy drain. */
  lemma DrainSteps(s: Shard, more: seq<Step>)
    requires Inv(s, multiset{}) && s.retry != []
    ensures Run(s, [Expire, Tick([])] + more) == Run(Drain(s.(timer := Spent), []), more)
  {
    var steps := [Expire, Tick([])] + more;
    assert steps[1..] == [Tick([])] + more && steps[1..][1..] == more;
    var t := if s.timer == Armed then Next(s, Expire) else s;
    RunOne(t, Tick([]), more);
  }

  lemma Settle(s: Shard) returns (more: seq<Step>)
    requires Inv(s, multiset{}) && s.inCh == [] && CanConverge(s)
    ensures Quiet(Run(s, more))
  {
    Converges(s);
    var t := Drain(s.(timer := Spent), []);
    DrainIgnoresTimer(s, Spent);
    DrainKeepsInv(s, []);
    if s.retry == [] {
      more := [];
    } else if t.retry == [] {
      more := [Expire, Tick([])] + [];
      DrainSteps(s, []);
      assert Run(t, []) == t;
    } else {
      var u := Drain(t.(timer := Spent), []);
      assert t == Drain(s, []).(timer := t.timer);
      DrainIgnoresTimer(Drain(s, []), Spent);
      InvNext(s.(timer := Fired), Tick([]));
      DrainSteps(t, []);
      DrainSteps(s, [Expire, Tick([])] + []);
      DrainKeepsInv(Drain(s, []), []);
      more := [Expire, Tick([])] + ([Expire, Tick([])] + []);
      assert Run(u, []) == u;
    }
  }

  lemma {:induction false} RunAppend(s: Shard, steps: seq<Step>, more: seq<Step>)
    ensures Run(s, steps + more) == Run(Run(s, steps), more)
    decreases |steps|
  {
    if steps == [] {
      assert steps + more == more;
    } else {
      assert (steps + more)[0] == steps[0] && (steps + more)[1..] == steps[1..] + more;
      RunAppend(if Enabled(s, steps[0]) then Next(s, steps[0]) else s, steps[1..], more);
    }
  }

  lemma ComesToRest(s: Shard) returns (more: seq<Step>)
    requires Restful(s)
    ensures Quiet(Run(s, more))
  {
    var a := EmptyChannel(s);
    var t := Run(s, a);
    var b := SupplyInserts(t);
    var u := Run(t, b);
    forall e | e in u.accepted && e.UpdateEvt? ensures HasInsert(u.accepted, e.id) {
      assert e.id !in Missing(u.accepted);
    }
    var c := Settle(u);
    RunAppend(t, b, c);
    RunAppend(s, a, b + c);
    more := a + (b + c);
  }

  predicate RestsBy(s: Shard, more: seq<Step>) {
    Quiet(Run(s, more))
  }

  /** In every reachable state: some continuation brings the shard to rest if and only if no
      insert is half done and no id was updated twice. Everything else that waits is repaired
      by what may still arrive and by retries. */
  lemma CanRestIff(steps: seq<Step>)
    ensures var s := Run(INIT, steps);
      (exists more :: RestsBy(s, more)) <==> NoneHalfDone(s) && OneUpdatePerId(multiset(s.accepted))
  {
    var s := Run(INIT, steps);
    InvRun(INIT, steps);
    FreshRun(INIT, steps);
    if NoneHalfDone(s) && OneUpdatePerId(multiset(s.accepted)) {
      var more := ComesToRest(s);
      assert RestsBy(s, more);
    } else {
      forall more ensures !RestsBy(s, more) {
        if e :| e in s.retry && HalfDone(s, e) {
          HalfDoneForever(s, e, more);
        } else {
          DoubleUpdateForever(s, more);
        }
      }
    }
  }
}
