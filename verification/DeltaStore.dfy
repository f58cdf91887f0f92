/** The delta store of pointer receivers. Handlers run concurrently, one shared step
    at a time: dump, look the cache up, build the row, save the cache, hand the row
    to the batcher. */
module DeltaStore {
  import opened Wrappers
  import opened MergePatch
  import opened Codec

  type Addr = string

  datatype Libs = Libs(z: Zstd, json: JsonText)
  {
    ghost predicate Good() { z.ready && z.Lossless() && json.Faithful() }
  }

  /** A receiver row; `baseId` 0 means that `data` is a full dump. */
  datatype Row = Row(id: int, traceId: int, baseId: int, data: Bytes)

  /** A row of the cache table, which is keyed by address. */
  datatype Entry = Entry(baseId: int, data: Bytes)

  datatype Task = Task(addr: Addr, traceId: int, text: Bytes, id: int)

  datatype Found = Hit(entry: Entry) | Miss | FindError

  datatype Handler =
    | Dumped(task: Task)
    | Looked(task: Task, found: Found)
    | Built(addr: Addr, row: Row, saveCache: bool)

  /** How a singleflight call ends: this caller ran the closure, it joined another
      caller's flight (its own variables then stay nil), or the store failed. */
  datatype Flight = Led | Joined | Broke

  /** `minted` and `tasks` are history: every row ever built and every task ever started, by id. */
  datatype State = State(
    handlers: map<nat, Handler>,
    cache: map<Addr, Entry>,
    emitted: map<int, Row>,
    minted: map<int, Row>,
    tasks: map<int, Task>)

  const INIT := State(map[], map[], map[], map[], map[])

  datatype Step =
    | Start(h: nat, task: Task)
    | Find(h: nat, flight: Flight)
    | Build(h: nat)
    | SaveCache(h: nat, flight: Flight)
    | Emit(h: nat)
    | Evict(addr: Addr)

  function FindIn(cache: map<Addr, Entry>, addr: Addr, flight: Flight): Found {
    match flight
    case Led => if addr in cache then Hit(cache[addr]) else Miss
    case Joined => Miss
    case Broke => FindError
  }

  function FullRow(libs: Libs, task: Task): Row {
    Row(task.id, task.traceId, 0, Compress(libs.z, task.text))
  }

  function BuildRow(libs: Libs, task: Task, found: Found): Row {
    match found
    case FindError => FullRow(libs, task)
    case Miss => FullRow(libs, task)
    case Hit(e) =>
      match CreateJSONPatch(libs.json, Decompress(libs.z, e.data), task.text)
      case None => FullRow(libs, task)
      case Some(diff) => Row(task.id, task.traceId, e.baseId, Compress(libs.z, diff))
  }

  function SaveIn(cache: map<Addr, Entry>, addr: Addr, row: Row, flight: Flight): map<Addr, Entry> {
    if flight.Led? then cache[addr := Entry(row.id, row.data)] else cache
  }

  /** A dump never looks like a zstd envelope: it is a JSON object or, when dumping
      panicked, the name of a pointer type. Ids come from the striped generator. */
  predicate Enabled(s: State, step: Step) {
    match step
    case Start(h, task) => h !in s.handlers && task.id > 0 && task.id !in s.tasks && !HasMagic(task.text)
    case Find(h, _) => h in s.handlers && s.handlers[h].Dumped?
    case Build(h) => h in s.handlers && s.handlers[h].Looked?
    case SaveCache(h, _) => h in s.handlers && s.handlers[h].Built? && s.handlers[h].saveCache
    case Emit(h) => h in s.handlers && s.handlers[h].Built? && !s.handlers[h].saveCache
    case Evict(_) => true
  }

  function Next(libs: Libs, s: State, step: Step): State
    requires Enabled(s, step)
  {
    match step
    case Start(h, task) =>
      s.(handlers := s.handlers[h := Dumped(task)], tasks := s.tasks[task.id := task])
    case Find(h, flight) =>
      var task := s.handlers[h].task;
      s.(handlers := s.handlers[h := Looked(task, FindIn(s.cache, task.addr, flight))])
    case Build(h) =>
      var task, found := s.handlers[h].task, s.handlers[h].found;
      var row := BuildRow(libs, task, found);
      s.(handlers := s.handlers[h := Built(task.addr, row, found.Miss?)], minted := s.minted[row.id := row])
    case SaveCache(h, flight) =>
      var b := s.handlers[h];
      s.(handlers := s.handlers[h := b.(saveCache := false)], cache := SaveIn(s.cache, b.addr, b.row, flight))
    case Emit(h) =>
      var row := s.handlers[h].row;
      s.(handlers := s.handlers - {h}, emitted := s.emitted[row.id := row])
    case Evict(addr) =>
      s.(cache := s.cache - {addr})
  }

  /** Any interleaving: a list of steps, of which the disabled ones do nothing. */
  function Run(libs: Libs, s: State, steps: seq<Step>): State
    decreases |steps|
  {
    if steps == [] then s
    else Run(libs, if Enabled(s, steps[0]) then Next(libs, s, steps[0]) else s, steps[1..])
  }

  /** A row that was handed to the batcher or is in a handler's hand. What the batcher then
      stores of it is the subject of `Batcher.TableHoldsEveryBase`. */
  ghost predicate Issued(s: State, row: Row) {
    || (row.id in s.emitted && s.emitted[row.id] == row)
    || exists h :: InHand(s, h, row)
  }

  predicate InHand(s: State, h: nat, row: Row) {
    h in s.handlers && s.handlers[h].Built? && s.handlers[h].row == row
  }

  // ----- the invariant -----

  /** `e` names a full row of the object at `addr` and carries its data. */
  predicate IsBase(s: State, addr: Addr, e: Entry) {
    && e.baseId in s.minted && e.baseId > 0 && s.minted[e.baseId].baseId == 0 && s.minted[e.baseId].data == e.data
    && e.baseId in s.tasks && s.tasks[e.baseId].addr == addr
  }

  ghost predicate RowOk(libs: Libs, s: State, id: int)
    requires id in s.minted
  {
    var row := s.minted[id];
    && row.id == id && id > 0 && id in s.tasks && row.traceId == s.tasks[id].traceId
    && if row.baseId == 0 then Decompress(libs.z, row.data) == s.tasks[id].text
       else
         && row.baseId in s.minted && s.minted[row.baseId].baseId == 0 && row.baseId in s.tasks
         && s.tasks[row.baseId].addr == s.tasks[id].addr
         && Restores(libs.json, s.tasks[row.baseId].text, Decompress(libs.z, row.data), s.tasks[id].text)
  }

  function IdOf(handler: Handler): int {
    if handler.Built? then handler.row.id else handler.task.id
  }

  ghost predicate HandlerOk(s: State, handler: Handler) {
    && IdOf(handler) in s.tasks && IdOf(handler) !in s.emitted
    && match handler
       case Dumped(task) => task.id !in s.minted && Started(s, task)
       case Looked(task, found) =>
         task.id !in s.minted && Started(s, task) && (found.Hit? ==> IsBase(s, task.addr, found.entry))
       case Built(addr, row, saveCache) =>
         && row.id in s.minted && s.minted[row.id] == row && s.tasks[row.id].addr == addr
         && (saveCache ==> row.baseId == 0)
  }

  predicate Started(s: State, task: Task) {
    task.id > 0 && task.id in s.tasks && s.tasks[task.id] == task && !HasMagic(task.text)
  }

  ghost predicate Inv(libs: Libs, s: State) {
    && (forall id | id in s.minted :: RowOk(libs, s, id) && Issued(s, s.minted[id]))
    && (forall id | id in s.emitted :: id in s.minted && s.minted[id] == s.emitted[id])
    && (forall h | h in s.handlers :: HandlerOk(s, s.handlers[h]))
    && (forall h, k | h in s.handlers && k in s.handlers && IdOf(s.handlers[h]) == IdOf(s.handlers[k]) :: h == k)
    && (forall addr | addr in s.cache :: IsBase(s, addr, s.cache[addr]))
  }

  lemma BuiltRowOk(libs: Libs, s: State, task: Task, found: Found)
    requires libs.Good() && Inv(libs, s) && HandlerOk(s, Looked(task, found))
    ensures RowOk(libs, s.(minted := s.minted[task.id := BuildRow(libs, task, found)]), task.id)
  {
    CompressRoundTrip(libs.z, task.text);
    if found.Hit? {
      var original := Decompress(libs.z, found.entry.data);
      assert RowOk(libs, s, found.entry.baseId);
      var patch := CreateJSONPatch(libs.json, original, task.text);
      if patch.Some? {
        PatchRestores(libs.json, original, task.text);
        CompressRoundTrip(libs.z, patch.value);
      }
    }
  }

  ghost predicate Grows(s: State, t: State) {
    && (forall id | id in s.minted :: id in t.minted && t.minted[id] == s.minted[id])
    && (forall id | id in s.tasks :: id in t.tasks && t.tasks[id] == s.tasks[id])
  }

  lemma GrowsNext(libs: Libs, s: State, step: Step)
    requires Inv(libs, s) && Enabled(s, step)
    ensures Grows(s, Next(libs, s, step))
  {
  }

  lemma RowOkNext(libs: Libs, s: State, step: Step, id: int)
    requires libs.Good() && Inv(libs, s) && Enabled(s, step) && id in Next(libs, s, step).minted
    ensures RowOk(libs, Next(libs, s, step), id)
  {
    GrowsNext(libs, s, step);
    if id in s.minted {
      assert RowOk(libs, s, id);
    } else {
      assert HandlerOk(s, s.handlers[step.h]);
      BuiltRowOk(libs, s, s.handlers[step.h].task, s.handlers[step.h].found);
    }
  }

  lemma HandlerOkNext(libs: Libs, s: State, step: Step, h: nat)
    requires Inv(libs, s) && Enabled(s, step) && h in Next(libs, s, step).handlers
    ensures HandlerOk(Next(libs, s, step), Next(libs, s, step).handlers[h])
    ensures !step.Start? ==> h in s.handlers && IdOf(Next(libs, s, step).handlers[h]) == IdOf(s.handlers[h])
  {
    var t := Next(libs, s, step);
    GrowsNext(libs, s, step);
    if h in s.handlers {
      assert HandlerOk(s, s.handlers[h]);
    }
    if (step.Build? || step.Emit?) && step.h != h {
      assert HandlerOk(s, s.handlers[step.h]);
      assert IdOf(s.handlers[h]) != IdOf(s.handlers[step.h]);
    }
  }

  lemma CacheNext(libs: Libs, s: State, step: Step, addr: Addr)
    requires Inv(libs, s) && Enabled(s, step) && addr in Next(libs, s, step).cache
    ensures IsBase(Next(libs, s, step), addr, Next(libs, s, step).cache[addr])
  {
    GrowsNext(libs, s, step);
    if step.SaveCache? {
      assert HandlerOk(s, s.handlers[step.h]);
      assert RowOk(libs, s, s.handlers[step.h].row.id);
    }
  }

  /** Only an eviction and a handler's save touch the cache, each at its own address. */
  lemma CacheFrame(libs: Libs, s: State, step: Step, addr: Addr)
    requires Enabled(s, step)
    requires !(step.SaveCache? && s.handlers[step.h].addr == addr)
    ensures var t := Next(libs, s, step);
      if step == Evict(addr) then addr !in t.cache
      else (addr in t.cache <==> addr in s.cache) && (addr in s.cache ==> t.cache[addr] == s.cache[addr])
  {
  }

  lemma InvNext(libs: Libs, s: State, step: Step)
    requires libs.Good() && Inv(libs, s) && Enabled(s, step)
    ensures Inv(libs, Next(libs, s, step))
  {
    var t := Next(libs, s, step);
    forall id | id in t.minted ensures RowOk(libs, t, id) && Issued(t, t.minted[id]) {
      RowOkNext(libs, s, step, id);
      IssuedNext(libs, s, step, id);
    }
    forall id | id in t.emitted ensures id in t.minted && t.minted[id] == t.emitted[id] {
      GrowsNext(libs, s, step);
      if step.Emit? { assert HandlerOk(s, s.handlers[step.h]); }
    }
    forall h | h in t.handlers ensures HandlerOk(t, t.handlers[h]) {
      HandlerOkNext(libs, s, step, h);
    }
    forall h, k | h in t.handlers && k in t.handlers && IdOf(t.handlers[h]) == IdOf(t.handlers[k]) ensures h == k {
      DistinctNext(libs, s, step, h, k);
    }
    forall addr | addr in t.cache ensures IsBase(t, addr, t.cache[addr]) {
      CacheNext(libs, s, step, addr);
    }
  }

  lemma DistinctNext(libs: Libs, s: State, step: Step, h: nat, k: nat)
    requires Inv(libs, s) && Enabled(s, step)
    requires h in Next(libs, s, step).handlers && k in Next(libs, s, step).handlers
    requires IdOf(Next(libs, s, step).handlers[h]) == IdOf(Next(libs, s, step).handlers[k])
    ensures h == k
  {
  }

  lemma IssuedNext(libs: Libs, s: State, step: Step, id: int)
    requires Inv(libs, s) && Enabled(s, step) && id in Next(libs, s, step).minted
    ensures Issued(Next(libs, s, step), Next(libs, s, step).minted[id])
  {
    var t := Next(libs, s, step);
    if step.Build? && id == s.handlers[step.h].task.id {
      assert InHand(t, step.h, t.minted[id]);
    } else {
      assert RowOk(libs, s, id) && Issued(s, s.minted[id]);
      if id !in s.emitted {
        var h :| InHand(s, h, s.minted[id]);
        InHandNext(libs, s, step, h, s.minted[id]);
      }
    }
  }

  lemma InHandNext(libs: Libs, s: State, step: Step, h: nat, row: Row)
    requires Inv(libs, s) && Enabled(s, step) && InHand(s, h, row)
    ensures var t := Next(libs, s, step);
      InHand(t, h, row) || (row.id in t.emitted && t.emitted[row.id] == row)
  {
  }

  lemma {:induction false} InvRun(libs: Libs, s: State, steps: seq<Step>)
    requires libs.Good() && Inv(libs, s)
    ensures Inv(libs, Run(libs, s, steps))
    ensures Grows(s, Run(libs, s, steps))
    decreases |steps|
  {
    if steps != [] {
      if Enabled(s, steps[0]) {
        GrowsNext(libs, s, steps[0]);
        InvNext(libs, s, steps[0]);
      }
      InvRun(libs, if Enabled(s, steps[0]) then Next(libs, s, steps[0]) else s, steps[1..]);
    }
  }

  // ----- main results -----

  lemma IssuedIsMinted(libs: Libs, s: State, row: Row)
    requires Inv(libs, s) && Issued(s, row)
    ensures row.id in s.minted && s.minted[row.id] == row
  {
  }

  /** In every reachable state an issued delta row has exactly one issued base row, that base
      is itself full and of the same object, and base and patch together restore the dumped
      receiver. */
  lemma DeltaReconstruction(libs: Libs, steps: seq<Step>, row: Row) returns (base: Row)
    requires libs.Good()
    requires Issued(Run(libs, INIT, steps), row) && row.baseId != 0
    ensures var s := Run(libs, INIT, steps);
      && Issued(s, base) && base.id == row.baseId && base.baseId == 0
      && (forall other | Issued(s, other) && other.id == row.baseId :: other == base)
      && base.id in s.tasks && row.id in s.tasks && s.tasks[base.id].addr == s.tasks[row.id].addr
      && var original, patch, modified := s.tasks[base.id].text, Decompress(libs.z, row.data), s.tasks[row.id].text;
      && Decompress(libs.z, base.data) == original
      && Restores(libs.json, original, patch, modified)
      && (IsObjectText(libs.json, modified) ==>
            IsObjectText(libs.json, original) && RestoresObject(libs.json, original, patch, modified))
  {
    var s := Run(libs, INIT, steps);
    InvRun(libs, INIT, steps);
    IssuedIsMinted(libs, s, row);
    assert RowOk(libs, s, row.id);
    assert RowOk(libs, s, row.baseId);
    base := s.minted[row.baseId];
    forall other | Issued(s, other) && other.id == row.baseId ensures other == base {
      IssuedIsMinted(libs, s, other);
    }
    var original, modified := s.tasks[base.id].text, s.tasks[row.id].text;
    if IsObjectText(libs.json, modified) && original == modified && Decompress(libs.z, row.data) == EMPTY_PATCH {
      PatchRestores(libs.json, original, modified);
    }
  }

  /** In every reachable state each issued row is filed under its own task's id and trace. */
  lemma RowsOfTheirTasks(libs: Libs, steps: seq<Step>, row: Row)
    requires libs.Good() && Issued(Run(libs, INIT, steps), row)
    ensures var s := Run(libs, INIT, steps);
      row.id > 0 && row.id in s.tasks && s.tasks[row.id].id == row.id && row.traceId == s.tasks[row.id].traceId
  {
    InvRun(libs, INIT, steps);
    TasksById(libs, INIT, steps);
    IssuedIsMinted(libs, Run(libs, INIT, steps), row);
    assert RowOk(libs, Run(libs, INIT, steps), row.id);
  }

  lemma {:induction false} TasksById(libs: Libs, s: State, steps: seq<Step>)
    requires forall id | id in s.tasks :: s.tasks[id].id == id
    ensures forall id | id in Run(libs, s, steps).tasks :: Run(libs, s, steps).tasks[id].id == id
    decreases |steps|
  {
    if steps != [] {
      TasksById(libs, if Enabled(s, steps[0]) then Next(libs, s, steps[0]) else s, steps[1..]);
    }
  }

  /** In every reachable state a cache entry names an issued full row of its own object and
      carries its data. */
  lemma CacheAgreesWithBase(libs: Libs, steps: seq<Step>, addr: Addr) returns (base: Row)
    requires libs.Good() && addr in Run(libs, INIT, steps).cache
    ensures var s := Run(libs, INIT, steps);
      Issued(s, base) && base.baseId == 0 && s.cache[addr] == Entry(base.id, base.data) &&
      base.id in s.tasks && s.tasks[base.id].addr == addr && Decompress(libs.z, base.data) == s.tasks[base.id].text
  {
    var s := Run(libs, INIT, steps);
    InvRun(libs, INIT, steps);
    assert IsBase(s, addr, s.cache[addr]);
    base := s.minted[s.cache[addr].baseId];
    assert RowOk(libs, s, base.id);
  }

  /** No later step, eviction or cache replacement changes or takes back an issued row, and
      once no handler is running all of them have been handed to the batcher. */
  lemma IssuedRowsStay(libs: Libs, steps: seq<Step>, more: seq<Step>, row: Row)
    requires libs.Good() && Issued(Run(libs, INIT, steps), row)
    ensures var t := Run(libs, Run(libs, INIT, steps), more);
      Issued(t, row) && (t.handlers == map[] ==> row.id in t.emitted && t.emitted[row.id] == row)
  {
    var s := Run(libs, INIT, steps);
    InvRun(libs, INIT, steps);
    IssuedIsMinted(libs, s, row);
    InvRun(libs, s, more);
    assert Issued(Run(libs, s, more), Run(libs, s, more).minted[row.id]);
  }

  // ----- one handler running alone -----

  /** The row a handler builds and the cache it leaves when nothing runs beside it. */
  function Handle(libs: Libs, cache: map<Addr, Entry>, task: Task, find: Flight, save: Flight)
    : (Row, map<Addr, Entry>)
  {
    var found := FindIn(cache, task.addr, find);
    var row := BuildRow(libs, task, found);
    (row, if found.Miss? then SaveIn(cache, task.addr, row, save) else cache)
  }

  /** The row is filed under its task's id and trace. It is a compressed patch on the cached
      base when this handler itself found one for its address and a patch can be made, as it
      can between objects, and the compressed text otherwise. The cache changes only at that
      address, only when the handler found nothing and its own save took place, and then
      names the row just built. */
  lemma HandledRow(libs: Libs, cache: map<Addr, Entry>, task: Task, find: Flight, save: Flight)
    ensures var row, hit := Handle(libs, cache, task, find, save).0, find.Led? && task.addr in cache;
      && row.id == task.id && row.traceId == task.traceId
      && (!hit ==> row.baseId == 0 && row.data == Compress(libs.z, task.text))
      && (hit ==>
            var original := Decompress(libs.z, cache[task.addr].data);
            var patch := CreateJSONPatch(libs.json, original, task.text);
            var objects := IsObjectText(libs.json, original) && IsObjectText(libs.json, task.text);
            && (patch.Some? <==> original == task.text || objects)
            && row.baseId == (if patch.Some? then cache[task.addr].baseId else 0)
            && row.data == Compress(libs.z, if patch.Some? then patch.value else task.text))
    ensures var (row, cache') := Handle(libs, cache, task, find, save);
      && (forall a | a != task.addr :: (a in cache' <==> a in cache) && (a in cache ==> cache'[a] == cache[a]))
      && (if !find.Broke? && !(find.Led? && task.addr in cache) && save.Led?
          then task.addr in cache' && cache'[task.addr] == Entry(row.id, row.data)
          else cache' == cache)
  {
  }

  function HandlerSteps(h: nat, task: Task, find: Flight, save: Flight): seq<Step> {
    [Start(h, task), Find(h, find), Build(h), SaveCache(h, save), Emit(h)]
  }

  /** Running one handler from start to end without interruption hands over `Handle`'s row
      and leaves `Handle`'s cache; nothing else is touched. */
  lemma HandleIsRun(libs: Libs, s: State, h: nat, task: Task, find: Flight, save: Flight)
    requires Enabled(s, Start(h, task))
    ensures var (row, cache) := Handle(libs, s.cache, task, find, save);
      Run(libs, s, HandlerSteps(h, task, find, save)) ==
      State(s.handlers, cache, s.emitted[task.id := row], s.minted[task.id := row], s.tasks[task.id := task])
  {
    var steps := HandlerSteps(h, task, find, save);
    var s1 := Next(libs, s, Start(h, task));
    var s2 := Next(libs, s1, Find(h, find));
    BuiltAlone(libs, s, h, task, find);
    RunHead(libs, s, steps, 0);
    RunHead(libs, s1, steps, 1);
    RunHead(libs, s2, steps, 2);
    assert steps[3..] == [SaveCache(h, save), Emit(h)] && steps[0..] == steps;
    var found := FindIn(s.cache, task.addr, find);
    FinishedAlone(libs, Next(libs, s2, Build(h)), h, task.addr, BuildRow(libs, task, found), found.Miss?, save);
    assert s.handlers[h := Built(task.addr, BuildRow(libs, task, found), found.Miss?)] - {h} == s.handlers;
  }

  /** From its start a handler reaches the row it is going to hand over. */
  lemma BuiltAlone(libs: Libs, s: State, h: nat, task: Task, find: Flight)
    requires Enabled(s, Start(h, task))
    ensures var s1 := Next(libs, s, Start(h, task));
      && Enabled(s1, Find(h, find)) && Enabled(Next(libs, s1, Find(h, find)), Build(h))
      && var found, s3 := FindIn(s.cache, task.addr, find), Next(libs, Next(libs, s1, Find(h, find)), Build(h));
      && var row := BuildRow(libs, task, found);
      && s3 == State(s.handlers[h := Built(task.addr, row, found.Miss?)], s.cache, s.emitted,
                     s.minted[task.id := row], s.tasks[task.id := task])
  {
  }

  lemma FinishedAlone(libs: Libs, s: State, h: nat, addr: Addr, row: Row, saveCache: bool, save: Flight)
    requires h in s.handlers && s.handlers[h] == Built(addr, row, saveCache)
    ensures Run(libs, s, [SaveCache(h, save), Emit(h)]) ==
            s.(handlers := s.handlers - {h}, emitted := s.emitted[row.id := row],
               cache := if saveCache then SaveIn(s.cache, addr, row, save) else s.cache)
  {
    var steps := [SaveCache(h, save), Emit(h)];
    RunHead(libs, s, steps, 0);
    RunHead(libs, if saveCache then Next(libs, s, steps[0]) else s, steps, 1);
    assert steps[0..] == steps;
  }

  lemma RunHead(libs: Libs, s: State, steps: seq<Step>, i: nat)
    requires i < |steps|
    ensures Run(libs, s, steps[i..]) ==
            Run(libs, if Enabled(s, steps[i]) then Next(libs, s, steps[i]) else s, steps[i + 1..])
  {
    assert steps[i..][1..] == steps[i + 1..];
  }

  lemma {:induction false} RunAppend(libs: Libs, s: State, steps: seq<Step>, more: seq<Step>)
    ensures Run(libs, s, steps + more) == Run(libs, Run(libs, s, steps), more)
    decreases |steps|
  {
    if steps == [] {
      assert steps + more == more;
    } else {
      assert (steps + more)[0] == steps[0] && (steps + more)[1..] == steps[1..] + more;
      RunAppend(libs, if Enabled(s, steps[0]) then Next(libs, s, steps[0]) else s, steps[1..], more);
    }
  }

  /** The rows of a list of receivers handled one after the other. */
  function HandleAll(libs: Libs, cache: map<Addr, Entry>, tasks: seq<Task>): (rows: seq<Row>)
    ensures |rows| == |tasks|
    decreases |tasks|
  {
    if tasks == [] then []
    else
      var (row, cache') := Handle(libs, cache, tasks[0], Led, Led);
      [row] + HandleAll(libs, cache', tasks[1..])
  }

  /** Seen undisturbed, an object costs one full row: the first sight stores it and every
      later one stores a patch on that same row, never on another patch. */
  lemma FirstFullThenDeltas(libs: Libs, cache: map<Addr, Entry>, tasks: seq<Task>, i: nat)
    requires libs.Good() && i < |tasks| && tasks[0].addr !in cache && tasks[0].id != 0
    requires forall k | 0 <= k < |tasks| ::
               tasks[k].addr == tasks[0].addr && IsObjectText(libs.json, tasks[k].text) && !HasMagic(tasks[k].text)
    ensures HandleAll(libs, cache, tasks)[i].baseId == if i == 0 then 0 else tasks[0].id
  {
    var (row, cache') := Handle(libs, cache, tasks[0], Led, Led);
    CompressRoundTrip(libs.z, tasks[0].text);
    if i > 0 {
      DeltasOn(libs, cache', tasks[0], tasks[1..], i - 1);
    }
  }

  lemma {:induction false} DeltasOn(libs: Libs, cache: map<Addr, Entry>, first: Task, tasks: seq<Task>, i: nat)
    requires libs.Good() && i < |tasks| && IsObjectText(libs.json, first.text)
    requires first.addr in cache && cache[first.addr].baseId == first.id
    requires Decompress(libs.z, cache[first.addr].data) == first.text
    requires forall k | 0 <= k < |tasks| :: tasks[k].addr == first.addr && IsObjectText(libs.json, tasks[k].text)
    ensures HandleAll(libs, cache, tasks)[i].baseId == first.id
    decreases i
  {
    assert CreateJSONPatch(libs.json, first.text, tasks[0].text).Some?;
    assert Handle(libs, cache, tasks[0], Led, Led).1 == cache;
    if i > 0 {
      DeltasOn(libs, cache, first, tasks[1..], i - 1);
    }
  }

  /** The cache table as the handler changes it. */
  class ReceiverHandler {
    const libs: Libs
    var cache: map<Addr, Entry>

    constructor (libs: Libs)
      ensures this.libs == libs && cache == map[]
    {
      this.libs := libs;
      cache := map[];
    }

    method BuildParamFromReceiverTask(task: Task, find: Flight, save: Flight) returns (row: Row)
      modifies this`cache
      ensures (row, cache) == Handle(libs, old(cache), task, find, save)
    {
      var data := [];
      var baseId := 0;
      var needCreateCache := false;
      var found := FindIn(cache, task.addr, find);
      if found.FindError? {
        data := Compress(libs.z, task.text);
      } else if found.Hit? {
        var originalData := Decompress(libs.z, found.entry.data);
        var diff := CreateJSONPatch(libs.json, originalData, task.text);
        if diff.None? {
          data := Compress(libs.z, task.text);
        } else {
          data := Compress(libs.z, diff.value);
          baseId := found.entry.baseId;
        }
      } else {
        data := Compress(libs.z, task.text);
        needCreateCache := true;
      }
      row := Row(task.id, task.traceId, baseId, data);
      if needCreateCache {
        var newCache := Entry(row.id, row.data);
        if save.Led? {
          cache := cache[task.addr := newCache];
        }
      }
    }
  }
}
