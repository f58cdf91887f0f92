/** Enqueue, Close and the forwarder of one session as an interleaving of atomic steps,
    with any number of producers. A producer call is named by a number, and so is the
    operation it sends. */
module SessionProtocol {
  import opened Wrappers

  const CHANNEL_SIZE := 256

  /** Where a call of `Enqueue` stands: about to send on the channel, sent but still counted
      in the wait group, about to send directly, or returned. */
  datatype Phase = Sending | Sent | Direct | Returned(viaChannel: bool)

  /** Where `Close` stands: not called, waiting for producers, past the wait, waiting for
      the forwarder, returned. */
  datatype Closer = Idle | Waiting | Drained | Closed | Finished

  datatype Forwarder = Receiving | Holding(op: nat) | Exited

  /** `sent`, `forwarded` and `direct` are history. `panicked` is set by a send on a closed
      channel, a second close and a negative wait group. */
  datatype State = State(
    calls: map<nat, Phase>,
    closed: bool,
    wg: int,
    opCh: seq<nat>,
    chClosed: bool,
    closer: Closer,
    forwarder: Forwarder,
    sent: seq<nat>,
    forwarded: seq<nat>,
    direct: seq<nat>,
    panicked: bool)

  const INIT := State(map[], false, 0, [], false, Idle, Receiving, [], [], [], false)

  datatype Step =
    | Begin(c: nat)        // the locked section of Enqueue
    | Send(c: nat)         // the send on the channel
    | Done(c: nat)         // wg.Done
    | SendDirect(c: nat)   // sendOp after close
    | CloseBegin           // the locked section of Close
    | CloseWait            // wg.Wait returns
    | CloseChannel         // close(opCh)
    | CloseReturn          // forwarderDone received
    | Take                 // the forwarder receives
    | Forward              // the forwarder's sendOp
    | Exit                 // the range loop ends

  predicate In(s: State, c: nat, phase: Phase) {
    c in s.calls && s.calls[c] == phase
  }

  /** A send on an open channel blocks while it is full. */
  predicate Enabled(s: State, step: Step) {
    !s.panicked &&
    match step
    case Begin(c) => c !in s.calls
    case Send(c) => In(s, c, Sending) && (s.chClosed || |s.opCh| < CHANNEL_SIZE)
    case Done(c) => In(s, c, Sent)
    case SendDirect(c) => In(s, c, Direct)
    case CloseBegin => s.closer == Idle
    case CloseWait => s.closer == Waiting && s.wg == 0
    case CloseChannel => s.closer == Drained
    case CloseReturn => s.closer == Closed && s.forwarder == Exited
    case Take => s.forwarder == Receiving && s.opCh != []
    case Forward => s.forwarder.Holding?
    case Exit => s.forwarder == Receiving && s.opCh == [] && s.chClosed
  }

  function Next(s: State, step: Step): State
    requires Enabled(s, step)
  {
    match step
    case Begin(c) =>
      if s.closed then s.(calls := s.calls[c := Direct])
      else s.(calls := s.calls[c := Sending], wg := s.wg + 1)
    case Send(c) =>
      if s.chClosed then s.(panicked := true)
      else s.(calls := s.calls[c := Sent], opCh := s.opCh + [c], sent := s.sent + [c])
    case Done(c) =>
      if s.wg <= 0 then s.(panicked := true)
      else s.(calls := s.calls[c := Returned(true)], wg := s.wg - 1)
    case SendDirect(c) =>
      s.(calls := s.calls[c := Returned(false)], direct := s.direct + [c])
    case CloseBegin => s.(closed := true, closer := Waiting)
    case CloseWait => s.(closer := Drained)
    case CloseChannel =>
      if s.chClosed then s.(panicked := true) else s.(chClosed := true, closer := Closed)
    case CloseReturn => s.(closer := Finished)
    case Take => s.(forwarder := Holding(s.opCh[0]), opCh := s.opCh[1..])
    case Forward => s.(forwarder := Receiving, forwarded := s.forwarded + [s.forwarder.op])
    case Exit => s.(forwarder := Exited)
  }

  function Run(s: State, steps: seq<Step>): State
    decreases |steps|
  {
    if steps == [] then s
    else Run(if Enabled(s, steps[0]) then Next(s, steps[0]) else s, steps[1..])
  }

  // ----- safety -----

  /** The producers the wait group must count. */
  function InFlight(s: State): set<nat> {
    set c | c in s.calls && (s.calls[c] == Sending || s.calls[c] == Sent)
  }

  function InHand(s: State): seq<nat> {
    if s.forwarder.Holding? then [s.forwarder.op] else []
  }

  /** Where the operation of a call is, given its phase. */
  predicate Placed(s: State, c: nat) {
    && (c in s.sent <==> In(s, c, Sent) || In(s, c, Returned(true)))
    && (c in s.direct <==> In(s, c, Returned(false)))
  }

  ghost predicate Inv(s: State) {
    && !s.panicked
    && s.wg == |InFlight(s)|
    && (s.closed <==> s.closer != Idle)
    && (s.chClosed <==> s.closer == Closed || s.closer == Finished)
    && (s.closer in {Drained, Closed, Finished} ==> InFlight(s) == {})
    && s.sent == s.forwarded + InHand(s) + s.opCh
    && |s.opCh| <= CHANNEL_SIZE
    && NoRepeats(s.sent) && NoRepeats(s.direct)
    && (forall c :: Placed(s, c))
    && (s.forwarder == Exited ==> s.chClosed && s.opCh == [])
    && (s.closer == Finished ==> s.forwarder == Exited)
  }

  function SendingSet(s: State): set<nat> {
    set c | c in s.calls && s.calls[c] == Sending
  }

  /** How a step changes the sets of producers in flight and still sending. */
  lemma SetsNext(s: State, step: Step)
    requires Enabled(s, step) && !Next(s, step).panicked
    ensures InFlight(Next(s, step)) ==
            if step.Begin? && !s.closed then InFlight(s) + {step.c}
            else if step.Done? then InFlight(s) - {step.c} else InFlight(s)
    ensures SendingSet(Next(s, step)) ==
            if step.Begin? && !s.closed then SendingSet(s) + {step.c}
            else if step.Send? then SendingSet(s) - {step.c} else SendingSet(s)
    ensures step.Begin? ==> step.c !in InFlight(s) && step.c !in SendingSet(s)
    ensures step.Done? || step.Send? ==> step.c in InFlight(s)
    ensures step.Send? ==> step.c in SendingSet(s)
  {
  }

  lemma NoPanic(s: State, step: Step)
    requires Inv(s) && Enabled(s, step)
    ensures !Next(s, step).panicked
  {
    if step.Done? {
      assert step.c in InFlight(s);
    }
    if step.Send? {
      assert step.c in InFlight(s);
    }
  }

  lemma InFlightNext(s: State, step: Step)
    requires Inv(s) && Enabled(s, step)
    ensures var t := Next(s, step);
      && t.wg == |InFlight(t)|
      && (t.closer in {Drained, Closed, Finished} ==> InFlight(t) == {})
  {
    NoPanic(s, step);
    SetsNext(s, step);
  }

  lemma PlacedNext(s: State, step: Step, c: nat)
    requires Inv(s) && Enabled(s, step)
    ensures Placed(Next(s, step), c)
  {
    assert Placed(s, c);
    NoPanic(s, step);
  }

  lemma AppendNoRepeats(xs: seq<nat>, x: nat)
    requires NoRepeats(xs) && x !in xs
    ensures NoRepeats(xs + [x])
  {
  }

  lemma InvNext(s: State, step: Step)
    requires Inv(s) && Enabled(s, step)
    ensures Inv(Next(s, step))
  {
    NoPanic(s, step);
    InFlightNext(s, step);
    OrderNext(s, step);
    NoRepeatsNext(s, step);
    forall c ensures Placed(Next(s, step), c) { PlacedNext(s, step, c); }
  }

  lemma OrderNext(s: State, step: Step)
    requires Enabled(s, step) && s.sent == s.forwarded + InHand(s) + s.opCh
    requires s.chClosed ==> !step.Send?
    ensures var t := Next(s, step); t.sent == t.forwarded + InHand(t) + t.opCh
  {
    if step.Take? {
      assert s.opCh == [s.opCh[0]] + s.opCh[1..];
    }
  }

  lemma NoRepeatsNext(s: State, step: Step)
    requires Inv(s) && Enabled(s, step)
    ensures NoRepeats(Next(s, step).sent) && NoRepeats(Next(s, step).direct)
  {
    if step.Send? {
      assert Placed(s, step.c);
      AppendNoRepeats(s.sent, step.c);
    } else if step.SendDirect? {
      assert Placed(s, step.c);
      AppendNoRepeats(s.direct, step.c);
    }
  }

  lemma {:induction false} InvRun(s: State, steps: seq<Step>)
    requires Inv(s)
    ensures Inv(Run(s, steps))
    decreases |steps|
  {
    if steps != [] {
      if Enabled(s, steps[0]) { InvNext(s, steps[0]); }
      InvRun(if Enabled(s, steps[0]) then Next(s, steps[0]) else s, steps[1..]);
    }
  }

  /** In every interleaving: nothing panics, so no operation is sent on a closed channel and
      the wait group never goes negative; it counts exactly the producers in flight; and the
      operations forwarded, in the forwarder's hand and queued are those sent, in order. */
  lemma EnqueueCloseSafety(steps: seq<Step>)
    ensures var s := Run(INIT, steps);
      && !s.panicked && s.wg == |InFlight(s)|
      && (s.chClosed ==> InFlight(s) == {})
      && s.forwarded + InHand(s) + s.opCh == s.sent
  {
    InvRun(INIT, steps);
  }

  /** An operation whose `Enqueue` has returned went out exactly one way and exactly once. */
  lemma ExactlyOnce(steps: seq<Step>, c: nat)
    requires In(Run(INIT, steps), c, Returned(true)) || In(Run(INIT, steps), c, Returned(false))
    ensures var s := Run(INIT, steps);
      && NoRepeats(s.forwarded + InHand(s) + s.opCh) && NoRepeats(s.direct)
      && (In(s, c, Returned(true)) ==> c in s.forwarded + InHand(s) + s.opCh && c !in s.direct)
      && (In(s, c, Returned(false)) ==> c in s.direct && c !in s.forwarded + InHand(s) + s.opCh)
  {
    InvRun(INIT, steps);
    assert Placed(Run(INIT, steps), c);
  }

  /** When `Close` returns, all that was ever sent on the channel has been forwarded, in
      channel order, and no producer is left behind on the channel. */
  lemma CloseForwardsAll(steps: seq<Step>)
    requires Run(INIT, steps).closer == Finished
    ensures var s := Run(INIT, steps);
      && s.forwarded == s.sent && s.opCh == [] && InFlight(s) == {}
      && (forall c | c in s.calls :: s.calls[c] == Direct || s.calls[c] == Returned(c in s.forwarded))
  {
    InvRun(INIT, steps);
    var s := Run(INIT, steps);
    AllForwarded(s);
    forall c | c in s.calls ensures s.calls[c] == Direct || s.calls[c] == Returned(c in s.forwarded) {
      CallSettled(s, c);
    }
  }

  lemma AllForwarded(s: State)
    requires Inv(s) && s.closer == Finished
    ensures s.forwarded == s.sent && s.opCh == [] && InFlight(s) == {}
  {
  }

  lemma CallSettled(s: State, c: nat)
    requires Inv(s) && s.closer == Finished && c in s.calls
    ensures s.calls[c] == Direct || s.calls[c] == Returned(c in s.forwarded)
  {
    AllForwarded(s);
    assert Placed(s, c);
    assert c !in InFlight(s);
  }

  // ----- progress -----

  /** The steps `Close` waits for. */
  predicate Counts(step: Step) {
    step.Send? || step.Done? || step.CloseWait? || step.CloseChannel? || step.CloseReturn?
    || step.Take? || step.Forward? || step.Exit?
  }

  function CloserRank(closer: Closer): nat {
    match closer
    case Idle => 4
    case Waiting => 3
    case Drained => 2
    case Closed => 1
    case Finished => 0
  }

  /** What is left to do: sends, counted producers, queued operations, the one in hand, the
      forwarder's exit and the closer's position. */
  function Work(s: State): nat {
    3 * |SendingSet(s)| + |InFlight(s)| + 2 * |s.opCh| + |InHand(s)|
    + (if s.forwarder == Exited then 0 else 1) + CloserRank(s.closer)
  }

  /** Once `closed` is set and until `Close` returns some step is enabled, even with the
      channel full. */
  lemma SomeStepEnabled(steps: seq<Step>) returns (step: Step)
    requires Run(INIT, steps).closed && Run(INIT, steps).closer != Finished
    ensures Enabled(Run(INIT, steps), step) && Counts(step)
  {
    InvRun(INIT, steps);
    step := EnabledStep(Run(INIT, steps));
  }

  lemma EnabledStep(s: State) returns (step: Step)
    requires Inv(s) && s.closed && s.closer != Finished
    ensures Enabled(s, step) && Counts(step)
  {
    if s.forwarder.Holding? {
      step := Forward;
    } else if s.opCh != [] {
      step := Take;
    } else if InFlight(s) != {} {
      var c :| c in InFlight(s);
      step := if s.calls[c] == Sending then Send(c) else Done(c);
    } else {
      step := match s.closer
        case Waiting => CloseWait
        case Drained => CloseChannel
        case _ => if s.forwarder == Exited then CloseReturn else Exit;
    }
  }

  /** Every such step makes the work fall, and no other step makes it grow, so `Close`
      returns after at most `Work` of them however many calls arrive meanwhile. */
  lemma WorkFalls(steps: seq<Step>, step: Step)
    requires Run(INIT, steps).closed && Enabled(Run(INIT, steps), step)
    ensures var s := Run(INIT, steps);
      if Counts(step) then Work(Next(s, step)) < Work(s) else Work(Next(s, step)) == Work(s)
  {
    InvRun(INIT, steps);
    WorkNext(Run(INIT, steps), step);
  }

  lemma WorkNext(s: State, step: Step)
    requires Inv(s) && s.closed && Enabled(s, step)
    ensures if Counts(step) then Work(Next(s, step)) < Work(s) else Work(Next(s, step)) == Work(s)
  {
    NoPanic(s, step);
    SetsNext(s, step);
    if step.Send? || step.Done? {
      RemoveOne(InFlight(s), step.c);
      RemoveOne(SendingSet(s), step.c);
    }
  }

  lemma RemoveOne(xs: set<nat>, x: nat)
    ensures |xs - {x}| == if x in xs then |xs| - 1 else |xs|
  {
  }

  /** How many of the steps `Close` waits for a schedule really takes. */
  function Taken(s: State, steps: seq<Step>): nat
    decreases |steps|
  {
    if steps == [] then 0
    else if !Enabled(s, steps[0]) then Taken(s, steps[1..])
    else (if Counts(steps[0]) then 1 else 0) + Taken(Next(s, steps[0]), steps[1..])
  }

  lemma RunSplit(s: State, steps: seq<Step>, more: seq<Step>)
    ensures Run(s, steps + more) == Run(Run(s, steps), more)
    decreases |steps|
  {
    if steps == [] {
      assert steps + more == more;
    } else {
      assert (steps + more)[0] == steps[0] && (steps + more)[1..] == steps[1..] + more;
      RunSplit(if Enabled(s, steps[0]) then Next(s, steps[0]) else s, steps[1..], more);
    }
  }

  /** Close progress: after `closed` is set no schedule can take more than `Work` steps before
      `Close` returns, and until then one of them is always possible. */
  lemma {:induction false} CloseBounded(steps: seq<Step>, more: seq<Step>)
    requires Run(INIT, steps).closed
    ensures Taken(Run(INIT, steps), more) + Work(Run(Run(INIT, steps), more)) <= Work(Run(INIT, steps))
    decreases |more|
  {
    var s := Run(INIT, steps);
    if more != [] {
      var step := more[0];
      if Enabled(s, step) {
        RunSplit(INIT, steps, [step]);
        assert Run(s, [step]) == Next(s, step) by { assert Run(Next(s, step), []) == Next(s, step); }
        InvRun(INIT, steps);
        NoPanic(s, step);
        WorkFalls(steps, step);
        CloseBounded(steps + [step], more[1..]);
      } else {
        CloseBounded(steps, more[1..]);
      }
    }
  }
}
