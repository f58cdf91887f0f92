/** The session object: its atomic sections perform the steps of the call-stack model and of
    the channel protocol, and its whole calls are put together from them. */
module TraceSessionObject {
  import CallTree
  import P = SessionProtocol

  class TraceSession {
    var indent: int
    var parents: map<int, int>
    var opCh: seq<nat>
    var chClosed: bool
    var forwarder: P.Forwarder
    var closed: bool
    var wg: int
    var handed: seq<nat>
    ghost var calls: map<nat, P.Phase>
    ghost var closer: P.Closer
    ghost var sent: seq<nat>
    ghost var forwarded: seq<nat>
    ghost var direct: seq<nat>

    ghost function Stack(): CallTree.Session
      reads this
    {
      CallTree.Session(indent, parents)
    }

    /** The sections below are entered only when enabled, so `panicked` stays false. */
    ghost function Protocol(): P.State
      reads this
    {
      P.State(calls, closed, wg, opCh, chClosed, closer, forwarder, sent, forwarded, direct, false)
    }

    /** `handed` are the operations given to the instance's `sendOp`: the forwarded ones and
        those that callers sent themselves. */
    ghost predicate Valid()
      reads this
    {
      P.Inv(Protocol()) && multiset(handed) == multiset(forwarded) + multiset(direct)
    }

    constructor ()
      ensures Stack() == CallTree.INIT && Protocol() == P.INIT && handed == [] && Valid()
    {
      indent, parents := 0, map[];
      opCh, chClosed, forwarder := [], false, P.Receiving;
      closed, wg, handed := false, 0, [];
      calls, closer, sent, forwarded, direct := map[], P.Idle, [], [], [];
    }

    /** `traceId` is the generator's next id for this session. */
    method PrepareEnter(traceId: int) returns (ind: int, parentId: int)
      modifies this`indent, this`parents
      ensures (Stack(), CallTree.Row(traceId, parentId, ind)) == CallTree.PrepareEnter(old(Stack()), traceId)
    {
      ind := indent;
      parentId := if ind - 1 in parents then parents[ind - 1] else 0;
      parents := parents[ind := traceId];
      indent := indent + 1;
    }

    method OnExit() returns (ind: int)
      modifies this`indent, this`parents
      ensures Stack() == CallTree.OnExit(old(Stack())) && ind == old(indent)
    {
      ind := indent;
      if indent > 0 {
        indent := indent - 1;
        parents := parents - {indent};
      } else {
        indent := 0;
        parents := map[];
      }
    }

    /** A whole run of enters and exits. */
    method Record(evs: seq<CallTree.Event>) returns (rows: seq<CallTree.Row>)
      modifies this`indent, this`parents
      ensures (Stack(), rows) == CallTree.Run(old(Stack()), evs)
    {
      rows := [];
      var i := 0;
      ghost var (end, all) := CallTree.Run(Stack(), evs);
      assert evs[0..] == evs;
      while i < |evs|
        invariant 0 <= i <= |evs|
        invariant CallTree.Run(Stack(), evs[i..]).0 == end
        invariant rows + CallTree.Run(Stack(), evs[i..]).1 == all
      {
        ghost var rest := CallTree.Run(Stack(), evs[i..]).1;
        assert evs[i..][1..] == evs[i + 1..];
        match evs[i] {
          case Enter(id) =>
            var ind, parentId := PrepareEnter(id);
            var row := CallTree.Row(id, parentId, ind);
            assert rest == [row] + rest[1..];
            assert rows + rest == (rows + [row]) + rest[1..];
            rows := rows + [row];
          case Exit =>
            var _ := OnExit();
        }
        i := i + 1;
      }
      assert evs[i..] == [] && CallTree.Run(Stack(), []) == (Stack(), []);
      assert rows + [] == rows;
    }

    /** The locked section of `Enqueue`. An operation is named by the call that sends it. */
    method EnqueueBegin(ghost op: nat) returns (isClosed: bool)
      requires Valid() && P.Enabled(Protocol(), P.Begin(op))
      modifies this`wg, this`calls
      ensures Valid() && Protocol() == P.Next(old(Protocol()), P.Begin(op))
      ensures isClosed <==> P.In(Protocol(), op, P.Direct)
    {
      P.InvNext(Protocol(), P.Begin(op));
      isClosed := closed;
      if !isClosed {
        wg := wg + 1;
      }
      calls := calls[op := if isClosed then P.Direct else P.Sending];
    }

    /** The send: it never meets a closed channel. */
    method EnqueueSend(op: nat)
      requires Valid() && P.Enabled(Protocol(), P.Send(op))
      modifies this`opCh, this`calls, this`sent
      ensures Valid() && Protocol() == P.Next(old(Protocol()), P.Send(op))
      ensures !chClosed && opCh == old(opCh) + [op]
    {
      P.NoPanic(Protocol(), P.Send(op));
      P.InvNext(Protocol(), P.Send(op));
      opCh := opCh + [op];
      calls, sent := calls[op := P.Sent], sent + [op];
    }

    method EnqueueDone(ghost op: nat)
      requires Valid() && P.Enabled(Protocol(), P.Done(op))
      modifies this`wg, this`calls
      ensures Valid() && Protocol() == P.Next(old(Protocol()), P.Done(op))
      ensures 0 <= wg == old(wg) - 1
    {
      P.NoPanic(Protocol(), P.Done(op));
      P.InvNext(Protocol(), P.Done(op));
      wg := wg - 1;
      calls := calls[op := P.Returned(true)];
    }

    /** After close the caller hands its operation over itself. */
    method EnqueueDirect(op: nat)
      requires Valid() && P.Enabled(Protocol(), P.SendDirect(op))
      modifies this`handed, this`calls, this`direct
      ensures Valid() && Protocol() == P.Next(old(Protocol()), P.SendDirect(op))
      ensures handed == old(handed) + [op]
    {
      P.InvNext(Protocol(), P.SendDirect(op));
      handed := handed + [op];
      calls, direct := calls[op := P.Returned(false)], direct + [op];
    }

    /** A whole call that nothing interrupts and that finds room: before close the operation
        is queued, after it it is handed over at once. */
    method Enqueue(op: nat)
      requires Valid() && op !in calls && (closed || |opCh| < P.CHANNEL_SIZE)
      modifies this`wg, this`calls, this`opCh, this`sent, this`handed, this`direct
      ensures Valid() && wg == old(wg) && P.In(Protocol(), op, P.Returned(!closed))
      ensures opCh == (if closed then old(opCh) else old(opCh) + [op])
      ensures handed == if closed then old(handed) + [op] else old(handed)
    {
      var isClosed := EnqueueBegin(op);
      if isClosed {
        EnqueueDirect(op);
      } else {
        EnqueueSend(op);
        EnqueueDone(op);
      }
    }

    method CloseBegin()
      requires Valid() && P.Enabled(Protocol(), P.CloseBegin)
      modifies this`closed, this`closer
      ensures Valid() && Protocol() == P.Next(old(Protocol()), P.CloseBegin)
    {
      P.InvNext(Protocol(), P.CloseBegin);
      closed := true;
      closer := P.Waiting;
    }

    /** `wg.Wait` returns on a zero count and the channel, still open, is closed. */
    method CloseChannel()
      requires Valid() && P.Enabled(Protocol(), P.CloseWait)
      modifies this`chClosed, this`closer
      ensures Valid() && !old(chClosed) && P.InFlight(Protocol()) == {}
      ensures Protocol() == P.Run(old(Protocol()), [P.CloseWait, P.CloseChannel])
    {
      P.InvNext(Protocol(), P.CloseWait);
      ghost var waited := P.Next(Protocol(), P.CloseWait);
      P.NoPanic(waited, P.CloseChannel);
      P.InvNext(waited, P.CloseChannel);
      assert [P.CloseWait, P.CloseChannel][1..] == [P.CloseChannel];
      assert P.Run(waited, [P.CloseChannel]) == P.Run(P.Next(waited, P.CloseChannel), []);
      chClosed := true;
      closer := P.Closed;
    }

    /** `forwarderDone` is received once the forwarder has ended: all that was ever sent on
        the channel has been handed over. */
    method CloseReturn()
      requires Valid() && P.Enabled(Protocol(), P.CloseReturn)
      modifies this`closer
      ensures Valid() && Protocol() == P.Next(old(Protocol()), P.CloseReturn)
      ensures opCh == [] && wg == 0 && multiset(handed) == multiset(sent) + multiset(direct)
    {
      P.InvNext(Protocol(), P.CloseReturn);
      closer := P.Finished;
    }

    /** One receive of the forwarder's range loop: it takes an operation or, on a closed and
        empty channel, ends. */
    method ForwarderReceive()
      requires Valid() && (P.Enabled(Protocol(), P.Take) || P.Enabled(Protocol(), P.Exit))
      modifies this`opCh, this`forwarder
      ensures Valid()
      ensures Protocol() == P.Next(old(Protocol()), if old(opCh) != [] then P.Take else P.Exit)
    {
      P.InvNext(Protocol(), if opCh != [] then P.Take else P.Exit);
      if opCh != [] {
        forwarder := P.Holding(opCh[0]);
        opCh := opCh[1..];
      } else {
        forwarder := P.Exited;
      }
    }

    method ForwarderSend()
      requires Valid() && P.Enabled(Protocol(), P.Forward)
      modifies this`forwarder, this`forwarded, this`handed
      ensures Valid() && Protocol() == P.Next(old(Protocol()), P.Forward)
      ensures handed == old(handed) + [old(forwarder).op]
    {
      P.InvNext(Protocol(), P.Forward);
      var op := forwarder.op;
      forwarder := P.Receiving;
      forwarded, handed := forwarded + [op], handed + [op];
    }

    /** One round of that loop. */
    method ForwardOne()
      requires Valid() && forwarder.Receiving? && opCh != []
      modifies this`opCh, this`forwarder, this`forwarded, this`handed
      ensures Valid() && forwarder.Receiving?
      ensures opCh == old(opCh)[1..] && handed == old(handed) + [old(opCh)[0]]
    {
      ForwarderReceive();
      ForwarderSend();
    }

    /** The forwarder's loop while nothing is added: it hands over all that is queued, in
        order, and ends if the channel is closed. */
    method ForwarderLoop()
      requires Valid() && forwarder.Receiving?
      modifies this`opCh, this`forwarder, this`forwarded, this`handed
      ensures Valid() && opCh == [] && handed == old(handed) + old(opCh)
      ensures forwarder == if chClosed then P.Exited else P.Receiving
    {
      while opCh != []
        invariant Valid() && forwarder.Receiving? && handed + opCh == old(handed) + old(opCh)
        decreases |opCh|
      {
        assert handed + opCh == (handed + [opCh[0]]) + opCh[1..];
        ForwardOne();
      }
      if chClosed {
        ForwarderReceive();
      }
    }

    /** A whole call with no producer in flight: what is queued is handed over, in order,
        before it returns, and nothing can be queued afterwards. */
    method Close()
      requires Valid() && closer.Idle? && wg == 0 && forwarder.Receiving?
      modifies this`closed, this`closer, this`chClosed, this`opCh, this`forwarder, this`forwarded, this`handed
      ensures Valid() && closer.Finished? && closed && chClosed
      ensures opCh == [] && handed == old(handed) + old(opCh)
    {
      CloseBegin();
      CloseChannel();
      ForwarderLoop();
      CloseReturn();
    }
  }
}
