/** How an operation gets from `sendOp` to its execution, and what closing does to it.
    Any number of senders; each operation is named by a number. */
module OpChannel {
  import opened Wrappers

  const CHANNEL_SIZE := 50
  const MAX_WORKERS := 50

  /** `pushed` and `taken` are history: what went into the channel and what came out of it.
      `checked` holds the operations whose sender has found the instance open but has not yet
      reached the send; `working` those taken by the pool. */
  datatype State = State(
    sync: bool,
    closedFlag: bool,
    chClosed: bool,
    checked: set<nat>,
    opChan: seq<nat>,
    working: set<nat>,
    executed: seq<nat>,
    sent: set<nat>,
    pushed: seq<nat>,
    taken: seq<nat>,
    panicked: bool)

  function Init(sync: bool): State {
    State(sync, false, false, {}, [], {}, [], {}, [], [], false)
  }

  datatype Step =
    | Check(op: nat)     // sendOp up to the load of the flag; in sync mode or when closed, all of it
    | Push(op: nat)      // the select: send, or execute when the channel is full
    | Take               // StartOpChan hands the head to the pool
    | Finish(op: nat)    // a worker executes
    | SetClosed          // Close stores the flag
    | CloseChannel       // and later closes the channel, in async mode

  predicate Enabled(s: State, step: Step) {
    !s.panicked &&
    match step
    case Check(op) => op !in s.sent
    case Push(op) => op in s.checked
    case Take => s.opChan != [] && |s.working| < MAX_WORKERS
    case Finish(op) => op in s.working
    case SetClosed => !s.closedFlag
    case CloseChannel => s.closedFlag && !s.chClosed && !s.sync
  }

  function Next(s: State, step: Step): State
    requires Enabled(s, step)
  {
    match step
    case Check(op) =>
      if s.sync || s.closedFlag then s.(sent := s.sent + {op}, executed := s.executed + [op])
      else s.(sent := s.sent + {op}, checked := s.checked + {op})
    case Push(op) =>
      if s.chClosed then s.(panicked := true)
      else if |s.opChan| < CHANNEL_SIZE
      then s.(checked := s.checked - {op}, opChan := s.opChan + [op], pushed := s.pushed + [op])
      else s.(checked := s.checked - {op}, executed := s.executed + [op])
    case Take =>
      s.(opChan := s.opChan[1..], taken := s.taken + [s.opChan[0]], working := s.working + {s.opChan[0]})
    case Finish(op) => s.(working := s.working - {op}, executed := s.executed + [op])
    case SetClosed => s.(closedFlag := true)
    case CloseChannel => s.(chClosed := true)
  }

  function Run(s: State, steps: seq<Step>): State
    decreases |steps|
  {
    if steps == [] then s
    else Run(if Enabled(s, steps[0]) then Next(s, steps[0]) else s, steps[1..])
  }

  /** An operation is in exactly one place. */
  predicate OnePlace(s: State, op: nat) {
    && (op in s.sent <==> op in s.checked || op in s.opChan || op in s.working || op in s.executed)
    && (op in s.checked ==> op !in s.opChan && op !in s.working && op !in s.executed)
    && (op in s.opChan ==> op !in s.working && op !in s.executed)
    && (op in s.working ==> op !in s.executed)
  }

  ghost predicate Inv(s: State) {
    && (forall op :: OnePlace(s, op))
    && NoRepeats(s.opChan) && NoRepeats(s.executed) && s.pushed == s.taken + s.opChan
    && (s.chClosed ==> s.closedFlag)
    && (s.sync ==> s.checked == {} && !s.chClosed)
  }

  lemma OnePlaceNext(s: State, step: Step, op: nat)
    requires Inv(s) && Enabled(s, step)
    ensures OnePlace(Next(s, step), op)
  {
    assert OnePlace(s, op);
    if step.Take? {
      assert s.opChan == [s.opChan[0]] + s.opChan[1..];
    }
  }

  lemma NoRepeatsNext(s: State, step: Step)
    requires Inv(s) && Enabled(s, step)
    ensures NoRepeats(Next(s, step).opChan) && NoRepeats(Next(s, step).executed)
  {
    if step.Check? || step.Push? || step.Finish? {
      assert OnePlace(s, step.op);
    }
  }

  lemma InvNext(s: State, step: Step)
    requires Inv(s) && Enabled(s, step)
    ensures Inv(Next(s, step))
  {
    NoRepeatsNext(s, step);
    if step.Take? { assert s.opChan == [s.opChan[0]] + s.opChan[1..]; }
    forall op ensures OnePlace(Next(s, step), op) {
      OnePlaceNext(s, step, op);
    }
  }

  lemma {:induction false} InvRun(s: State, steps: seq<Step>)
    requires Inv(s)
    ensures Inv(Run(s, steps))
    decreases |steps|
  {
    if steps != [] {
      if Enabled(s, steps[0]) { InvNext(s, steps[0]); }
      InvRun(if Enabled(s, steps[0]) then Next(s, steps[0]) else s, steps[1..]);
    }
  }

  /** In every reachable state, sync or async, open or closing, no operation is dropped or
      executed twice; once nothing is in transit exactly the sent operations were executed. */
  lemma ExecutedOnce(sync: bool, steps: seq<Step>)
    ensures var s := Run(Init(sync), steps);
      && NoRepeats(s.executed)
      && (forall op | op in s.executed :: op in s.sent)
      && (s.checked == {} && s.opChan == [] && s.working == {} ==> forall op | op in s.sent :: op in s.executed)
  {
    InvRun(Init(sync), steps);
    var s := Run(Init(sync), steps);
    forall op | op in s.executed ensures op in s.sent { assert OnePlace(s, op); }
    forall op | op in s.sent && s.checked == {} && s.opChan == [] && s.working == {} ensures op in s.executed {
      assert OnePlace(s, op);
    }
  }

  /** Where a send goes when nothing comes between its check and its push: executed by the
      sender in sync mode, after the close or when the channel is full, and to the channel's
      end otherwise. */
  lemma SendGoes(s: State, op: nat)
    requires Enabled(s, Check(op)) && Inv(s)
    ensures var c := Next(s, Check(op));
      if s.sync || s.closedFlag
      then c.executed == s.executed + [op] && c.opChan == s.opChan && c.checked == s.checked
      else
        && c.executed == s.executed && c.opChan == s.opChan && Enabled(c, Push(op))
        && var t := Next(c, Push(op));
           && !t.panicked && t.checked == s.checked
           && (|s.opChan| < CHANNEL_SIZE ==> t.opChan == s.opChan + [op] && t.executed == s.executed)
           && (|s.opChan| >= CHANNEL_SIZE ==> t.opChan == s.opChan && t.executed == s.executed + [op])
  {
    assert OnePlace(s, op);
  }

  /** Operations leave the channel in the order in which they entered it, and at most
      `MAX_WORKERS` are being executed by the pool. */
  lemma FirstInFirstOut(sync: bool, steps: seq<Step>)
    ensures var s := Run(Init(sync), steps); s.pushed == s.taken + s.opChan && |s.working| <= MAX_WORKERS
  {
    InvRun(Init(sync), steps);
    PoolBound(Init(sync), steps);
  }

  lemma {:induction false} PoolBound(s: State, steps: seq<Step>)
    requires |s.working| <= MAX_WORKERS
    ensures |Run(s, steps).working| <= MAX_WORKERS
    decreases |steps|
  {
    if steps != [] {
      if Enabled(s, steps[0]) && steps[0].Finish? {
        assert s.working - {steps[0].op} <= s.working;
      }
      PoolBound(if Enabled(s, steps[0]) then Next(s, steps[0]) else s, steps[1..]);
    }
  }

  /** After the channel is closed no sender passes the check any more. */
  lemma {:induction false} ClosedChecksNone(s: State, steps: seq<Step>)
    requires Inv(s) && s.chClosed
    ensures Run(s, steps).chClosed && Run(s, steps).checked <= s.checked
    ensures s.checked == {} && !s.panicked ==> !Run(s, steps).panicked
    decreases |steps|
  {
    if steps != [] {
      if Enabled(s, steps[0]) { InvNext(s, steps[0]); }
      ClosedChecksNone(if Enabled(s, steps[0]) then Next(s, steps[0]) else s, steps[1..]);
    }
  }

  ghost predicate NeverPanics(s: State) {
    forall more: seq<Step> :: !Run(s, more).panicked
  }

  /** Closing the channel is safe, whatever happens afterwards, if and only if at that moment
      no sender stands between its check of the flag and its send. */
  lemma CloseSafeIff(sync: bool, steps: seq<Step>)
    requires Enabled(Run(Init(sync), steps), CloseChannel)
    ensures var s := Run(Init(sync), steps);
      NeverPanics(Next(s, CloseChannel)) <==> s.checked == {}
  {
    InvRun(Init(sync), steps);
    var s := Run(Init(sync), steps);
    var t := Next(s, CloseChannel);
    InvNext(s, CloseChannel);
    if s.checked == {} {
      forall more ensures !Run(t, more).panicked {
        ClosedChecksNone(t, more);
      }
    } else {
      var op :| op in s.checked;
      var more, u := [Push(op)], Next(t, Push(op));
      assert more[1..] == [] && Run(u, []) == u;
      assert Run(t, more).panicked;
      assert !NeverPanics(t);
    }
  }

  /** A run in which the send comes after the close. */
  lemma LateSendPanics()
    ensures Run(Init(false), [Check(1), SetClosed, CloseChannel, Push(1)]).panicked
  {
  }
}
