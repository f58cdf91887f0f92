/** Registration of goroutines: a read-locked look-up, then a write-locked section that
    looks again. Calls interleave with one another, with registrations that create no
    indentation, and with removals. */
module Registration {
  import opened Wrappers

  datatype Info = Info(id: nat, originGid: nat)

  /** What the locks protect. `issued` is history: the ids handed out, in order. */
  datatype State = State(
    running: map<nat, Info>,
    indentations: set<nat>,
    lastId: nat,
    calls: map<nat, Call>,
    issued: seq<nat>)

  /** Where a call stands between its two sections, and what it returned. `indents` tells
      `InitGoroutineAndTraceAtomic` from `InitGoroutineIfNeeded`, which creates no indentation. */
  datatype Call =
    | LookedUp(gid: nat, indents: bool)
    | Returned(gid: nat, indents: bool, info: Info, created: bool)

  const INIT := State(map[], {}, 0, map[], [])

  datatype Step =
    | Read(call: nat, gid: nat, indents: bool)
    | Write(call: nat)
    | Remove(gid: nat)

  predicate Enabled(s: State, step: Step) {
    match step
    case Read(c, _, _) => c !in s.calls
    case Write(c) => c in s.calls && s.calls[c].LookedUp?
    case Remove(_) => true
  }

  /** `createNewGoroutineAndTrace`, or its counterpart without indentation. */
  function Create(s: State, gid: nat, indents: bool): (State, Info) {
    var info := Info(s.lastId + 1, gid);
    (s.(running := s.running[gid := info],
        indentations := if indents then s.indentations + {info.id} else s.indentations,
        lastId := info.id,
        issued := s.issued + [info.id]), info)
  }

  /** The write-locked section: look again, create or complete. The source has it twice, for
      a gid that was found and for one that was not, with the same effect. */
  function Register(s: State, gid: nat, indents: bool): (State, Info, bool) {
    if gid in s.running then
      var info := s.running[gid];
      (if indents then s.(indentations := s.indentations + {info.id}) else s, info, false)
    else
      var (t, info) := Create(s, gid, indents);
      (t, info, true)
  }

  function Next(s: State, step: Step): State
    requires Enabled(s, step)
  {
    match step
    case Read(c, gid, indents) =>
      if gid in s.running && (!indents || s.running[gid].id in s.indentations)
      then s.(calls := s.calls[c := Returned(gid, indents, s.running[gid], false)])
      else s.(calls := s.calls[c := LookedUp(gid, indents)])
    case Write(c) =>
      var call := s.calls[c];
      var (t, info, created) := Register(s, call.gid, call.indents);
      t.(calls := t.calls[c := Returned(call.gid, call.indents, info, created)])
    case Remove(gid) => s.(running := s.running - {gid})
  }

  function Run(s: State, steps: seq<Step>): State
    decreases |steps|
  {
    if steps == [] then s
    else Run(if Enabled(s, steps[0]) then Next(s, steps[0]) else s, steps[1..])
  }

  /** The step at which call `c` returns. */
  predicate Returns(s: State, step: Step, c: nat)
    requires Enabled(s, step)
  {
    (c !in s.calls || s.calls[c].LookedUp?) && c in Next(s, step).calls && Next(s, step).calls[c].Returned?
  }

  ghost predicate Inv(s: State) {
    && (forall gid | gid in s.running ::
          s.running[gid].originGid == gid && 0 < s.running[gid].id <= s.lastId && s.running[gid].id in s.issued)
    && (forall g, k | g in s.running && k in s.running && s.running[g].id == s.running[k].id :: g == k)
    && |s.issued| == s.lastId && (forall i | 0 <= i < |s.issued| :: s.issued[i] == i + 1)
    && (forall id | id in s.indentations :: id <= s.lastId)
  }

  lemma InvCreate(s: State, gid: nat, indents: bool)
    requires Inv(s) && gid !in s.running
    ensures Inv(Create(s, gid, indents).0)
    ensures s.issued <= Create(s, gid, indents).0.issued
  {
  }

  lemma InvNext(s: State, step: Step)
    requires Inv(s) && Enabled(s, step)
    ensures Inv(Next(s, step))
    ensures s.issued <= Next(s, step).issued
  {
    if step.Write? && s.calls[step.call].gid !in s.running {
      InvCreate(s, s.calls[step.call].gid, s.calls[step.call].indents);
    }
  }

  lemma {:induction false} InvRun(s: State, steps: seq<Step>)
    requires Inv(s)
    ensures Inv(Run(s, steps)) && s.issued <= Run(s, steps).issued
    decreases |steps|
  {
    if steps != [] {
      if Enabled(s, steps[0]) { InvNext(s, steps[0]); }
      InvRun(if Enabled(s, steps[0]) then Next(s, steps[0]) else s, steps[1..]);
    }
  }

  /** In every reachable state live infos have pairwise different positive ids, each belongs
      to the gid it is registered under, and no id was ever handed out twice. */
  lemma LiveIdsDistinct(steps: seq<Step>)
    ensures var s := Run(INIT, steps);
      && (forall gid | gid in s.running :: s.running[gid].originGid == gid && s.running[gid].id > 0)
      && (forall g, k | g in s.running && k in s.running && g != k :: s.running[g].id != s.running[k].id)
      && (forall i, j | 0 <= i < j < |s.issued| :: s.issued[i] != s.issued[j])
  {
    InvRun(INIT, steps);
  }

  /** At the step where a call returns, its info is the one registered for its gid, with its
      indentation present if it asks for one; and `created` says that the gid was free and the
      id is new. */
  lemma RegistrationLinearizes(steps: seq<Step>, step: Step, c: nat)
    requires Enabled(Run(INIT, steps), step) && Returns(Run(INIT, steps), step, c)
    ensures var s, t := Run(INIT, steps), Next(Run(INIT, steps), step);
      var call := t.calls[c];
      && call.gid in t.running && t.running[call.gid] == call.info
      && (call.indents ==> call.info.id in t.indentations)
      && (call.created <==> call.gid !in s.running)
      && (call.created ==> call.info.id !in s.issued && call.info.id !in s.indentations && call.info.id in t.issued)
      && (!call.created ==> s.running == t.running)
      && (!call.indents ==> s.indentations == t.indentations)
  {
    InvRun(INIT, steps);
  }

  predicate NoRemoval(steps: seq<Step>, gid: nat) {
    forall i | 0 <= i < |steps| :: steps[i] != Remove(gid)
  }

  /** A registration stays until it is removed. */
  lemma {:induction false} RegistrationStays(s: State, steps: seq<Step>, gid: nat)
    requires gid in s.running && NoRemoval(steps, gid)
    ensures gid in Run(s, steps).running && Run(s, steps).running[gid] == s.running[gid]
    ensures s.running[gid].id in s.indentations ==> s.running[gid].id in Run(s, steps).indentations
    decreases |steps|
  {
    if steps != [] {
      assert steps[0] != Remove(gid);
      RegistrationStays(if Enabled(s, steps[0]) then Next(s, steps[0]) else s, steps[1..], gid);
    }
  }

  /** Double-checked locking: two calls for one gid that return with no removal of it in
      between get the same info, and the second does not create. */
  lemma CallsAgree(steps: seq<Step>, first: Step, c: nat, between: seq<Step>, second: Step, d: nat)
    requires Enabled(Run(INIT, steps), first) && Returns(Run(INIT, steps), first, c)
    requires var mid := Run(Next(Run(INIT, steps), first), between);
      && Enabled(mid, second) && Returns(mid, second, d)
      && Next(mid, second).calls[d].gid == Next(Run(INIT, steps), first).calls[c].gid
    requires NoRemoval(between, Next(Run(INIT, steps), first).calls[c].gid)
    ensures var mid := Run(Next(Run(INIT, steps), first), between);
      && Next(mid, second).calls[d].info == Next(Run(INIT, steps), first).calls[c].info
      && !Next(mid, second).calls[d].created
  {
    RegistrationLinearizes(steps, first, c);
    var t := Next(Run(INIT, steps), first);
    RegistrationStays(t, between, t.calls[c].gid);
  }

  /** A removal unregisters its gid and touches nothing else. */
  lemma RemovalFrame(s: State, gid: nat)
    ensures var t := Next(s, Remove(gid));
      && gid !in t.running
      && (forall g | g != gid ::
            (g in t.running <==> g in s.running) && (g in s.running ==> t.running[g] == s.running[g]))
      && t == s.(running := t.running)
  {
  }

  /** Some call for `gid` returns during the run. */
  predicate Answers(s: State, steps: seq<Step>, gid: nat)
    decreases |steps|
  {
    steps != [] &&
    if !Enabled(s, steps[0]) then Answers(s, steps[1..], gid)
    else
      || (steps[0].Read? && Next(s, steps[0]).calls[steps[0].call].Returned? && steps[0].gid == gid)
      || (steps[0].Write? && s.calls[steps[0].call].gid == gid)
      || Answers(Next(s, steps[0]), steps[1..], gid)
  }

  lemma {:induction false} StaysFree(s: State, steps: seq<Step>, gid: nat)
    requires gid !in s.running && !Answers(s, steps, gid)
    ensures gid !in Run(s, steps).running
    decreases |steps|
  {
    if steps != [] {
      StaysFree(if Enabled(s, steps[0]) then Next(s, steps[0]) else s, steps[1..], gid);
    }
  }

  lemma FreeIsCreated(s: State, step: Step, c: nat, gid: nat)
    requires Inv(s) && gid !in s.running
    requires Enabled(s, step) && Returns(s, step, c) && Next(s, step).calls[c].gid == gid
    ensures Next(s, step).calls[c].created && Next(s, step).calls[c].info.id !in s.issued
  {
  }

  /** A goroutine that was removed is never returned again: the first call for its gid that
      returns after the removal, whenever it began, creates an info with an id that was not
      issued before the removal. */
  lemma FreshAfterRemoval(steps: seq<Step>, gid: nat, between: seq<Step>, step: Step, c: nat)
    requires var removed := Next(Run(INIT, steps), Remove(gid));
      var mid := Run(removed, between);
      && !Answers(removed, between, gid)
      && Enabled(mid, step) && Returns(mid, step, c) && Next(mid, step).calls[c].gid == gid
    ensures var call := Next(Run(Next(Run(INIT, steps), Remove(gid)), between), step).calls[c];
      call.created && call.info.id !in Run(INIT, steps).issued
  {
    var s := Run(INIT, steps);
    var removed := Next(s, Remove(gid));
    InvRun(INIT, steps);
    InvNext(s, Remove(gid));
    InvRun(removed, between);
    StaysFree(removed, between, gid);
    FreeIsCreated(Run(removed, between), step, c, gid);
  }

  // ----- the instance object -----

  class TraceInstance {
    var goroutineRunning: map<nat, Info>
    var indentations: set<nat>
    var gGroutineId: nat
    ghost var calls: map<nat, Call>
    ghost var issued: seq<nat>

    ghost function Registry(): State
      reads this
    {
      State(goroutineRunning, indentations, gGroutineId, calls, issued)
    }

    constructor ()
      ensures Registry() == INIT
    {
      goroutineRunning, indentations, gGroutineId := map[], {}, 0;
      calls, issued := map[], [];
    }

    /** The read-locked section; an info means that the call is over. */
    method ReadSection(ghost c: nat, gid: nat) returns (info: Option<Info>)
      requires c !in calls
      modifies this`calls
      ensures Registry() == Next(old(Registry()), Read(c, gid, true))
      ensures info.Some? <==> calls[c].Returned?
      ensures info.Some? ==> calls[c] == Returned(gid, true, info.value, false)
    {
      if gid in goroutineRunning && goroutineRunning[gid].id in indentations {
        info := Some(goroutineRunning[gid]);
        calls := calls[c := Returned(gid, true, goroutineRunning[gid], false)];
      } else {
        info := None;
        calls := calls[c := LookedUp(gid, true)];
      }
    }

    /** The write-locked section. */
    method WriteSection(ghost c: nat, gid: nat) returns (info: Info, initFunc: bool)
      requires c in calls && calls[c].LookedUp? && calls[c].gid == gid && calls[c].indents
      modifies this
      ensures Registry() == Next(old(Registry()), Write(c))
      ensures calls[c] == Returned(gid, true, info, initFunc)
    {
      if gid in goroutineRunning {
        info := goroutineRunning[gid];
        if info.id !in indentations {
          indentations := indentations + {info.id};
        }
        assert indentations == old(indentations) + {info.id};
        initFunc := false;
      } else {
        info := CreateNewGoroutineAndTrace(gid);
        initFunc := true;
      }
      calls := calls[c := Returned(gid, true, info, initFunc)];
    }

    method CreateNewGoroutineAndTrace(gid: nat) returns (info: Info)
      modifies this
      ensures (Registry(), info) == Create(old(Registry()), gid, true)
    {
      gGroutineId := gGroutineId + 1;
      info := Info(gGroutineId, gid);
      goroutineRunning := goroutineRunning[gid := info];
      indentations := indentations + {info.id};
      issued := issued + [info.id];
    }

    /** Both sections with nothing in between. */
    method InitGoroutineAndTraceAtomic(ghost c: nat, gid: nat) returns (info: Info, initFunc: bool)
      requires c !in calls
      modifies this
      ensures var s := old(Registry());
        var read := Next(s, Read(c, gid, true));
        Registry() == if read.calls[c].Returned? then read else Next(read, Write(c))
      ensures calls[c] == Returned(gid, true, info, initFunc)
    {
      initFunc := false;
      var hit := ReadSection(c, gid);
      if hit.Some? {
        info := hit.value;
      } else {
        info, initFunc := WriteSection(c, gid);
      }
    }

    method DeleteGoroutineRunning(gid: nat)
      modifies this`goroutineRunning
      ensures Registry() == Next(old(Registry()), Remove(gid))
      ensures goroutineRunning.Keys == old(goroutineRunning).Keys - {gid}
      ensures forall g | g in goroutineRunning :: goroutineRunning[g] == old(goroutineRunning)[g]
    {
      goroutineRunning := goroutineRunning - {gid};
    }
  }
}
