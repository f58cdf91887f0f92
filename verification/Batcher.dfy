/** The parameter batcher: rows are collected, written 256 at a time in one
    transaction, and one by one when that transaction fails. */
module Batcher {
  import opened Wrappers
  import opened Codec
  import opened DeltaStore

  const MAX_BATCH_SIZE := 256

  /** The parameter table, keyed by row id. */
  type Table = map<int, Row>

  /** One round of the select loop: a dequeued event with the row built from it, if any;
      a timer tick; or cancellation. `faults` says which store calls of a flush fail. */
  datatype Input =
    | Event(built: Option<Row>, faults: Faults)
    | Tick(faults: Faults)
    | Cancel(faults: Faults)

  datatype Faults = Faults(batch: bool, rows: set<nat>)

  predicate Distinct(rows: seq<Row>) {
    forall i, j | 0 <= i < j < |rows| :: rows[i].id != rows[j].id
  }

  predicate Fresh(table: Table, rows: seq<Row>) {
    forall i | 0 <= i < |rows| :: rows[i].id !in table
  }

  /** The rows added in order; a row whose id is taken stays out (primary key). */
  function AddAll(table: Table, rows: seq<Row>): Table
    decreases |rows|
  {
    if rows == [] then table
    else AddAll(if rows[0].id in table then table else table[rows[0].id := rows[0]], rows[1..])
  }

  /** `SaveParam` for each row from the `from`-th on; the listed ones fail. */
  function AddSurvivors(table: Table, rows: seq<Row>, faults: set<nat>, from: nat): Table
    requires from <= |rows|
    decreases |rows| - from
  {
    if from == |rows| then table
    else AddSurvivors(if from in faults || rows[from].id in table then table else table[rows[from].id := rows[from]],
                      rows, faults, from + 1)
  }

  /** A whole batch: one transaction, and when it fails, row by row. */
  function Flushed(table: Table, rows: seq<Row>, faults: Faults): Table {
    if rows == [] then table
    else if !faults.batch && Distinct(rows) && Fresh(table, rows) then AddAll(table, rows)
    else AddSurvivors(table, rows, faults.rows, 0)
  }

  lemma {:induction false} AddAllContents(table: Table, rows: seq<Row>)
    requires Distinct(rows) && Fresh(table, rows)
    ensures forall id :: id in AddAll(table, rows) <==> id in table || exists i :: 0 <= i < |rows| && rows[i].id == id
    ensures forall id | id in table :: AddAll(table, rows)[id] == table[id]
    ensures forall i | 0 <= i < |rows| :: AddAll(table, rows)[rows[i].id] == rows[i]
    decreases |rows|
  {
    if rows != [] {
      var t := table[rows[0].id := rows[0]];
      assert Fresh(t, rows[1..]);
      AddAllContents(t, rows[1..]);
      assert rows[0].id in t;
      forall i | 0 <= i < |rows| ensures AddAll(table, rows)[rows[i].id] == rows[i] {
        if i > 0 { assert rows[i] == rows[1..][i - 1]; }
      }
      forall id ensures id in AddAll(table, rows) <==> id in table || exists i :: 0 <= i < |rows| && rows[i].id == id {
        if exists i :: 0 <= i < |rows| && rows[i].id == id {
          var i :| 0 <= i < |rows| && rows[i].id == id;
          if i > 0 { assert rows[1..][i - 1].id == id; }
        }
        if exists i :: 0 <= i < |rows[1..]| && rows[1..][i].id == id {
          var i :| 0 <= i < |rows[1..]| && rows[1..][i].id == id;
          assert rows[i + 1].id == id;
        }
      }
    }
  }

  lemma {:induction false} AddAllAppend(table: Table, xs: seq<Row>, ys: seq<Row>)
    ensures AddAll(table, xs + ys) == AddAll(AddAll(table, xs), ys)
    decreases |xs|
  {
    if xs == [] {
      assert xs + ys == ys;
    } else {
      assert (xs + ys)[0] == xs[0] && (xs + ys)[1..] == xs[1..] + ys;
      AddAllAppend(if xs[0].id in table then table else table[xs[0].id := xs[0]], xs[1..], ys);
    }
  }

  /** When no single write fails, the fallback stores what the transaction would have:
      each row exactly once. */
  lemma {:induction false} FallbackStoresAll(table: Table, rows: seq<Row>, faults: set<nat>, from: nat)
    requires from <= |rows| && forall k | from <= k < |rows| :: k !in faults
    ensures AddSurvivors(table, rows, faults, from) == AddAll(table, rows[from..])
    decreases |rows| - from
  {
    if from < |rows| {
      assert rows[from..][0] == rows[from] && rows[from..][1..] == rows[from + 1..];
      var t := if rows[from].id in table then table else table[rows[from].id := rows[from]];
      FallbackStoresAll(t, rows, faults, from + 1);
    }
  }

  /** With row ids all different and new, the fallback loses exactly the rows whose own
      write failed, and stores every other one as it is. */
  lemma {:induction false} FallbackLosesFailedOnly(table: Table, rows: seq<Row>, faults: set<nat>, from: nat)
    requires from <= |rows| && Distinct(rows) && Fresh(table, rows[from..])
    ensures var t := AddSurvivors(table, rows, faults, from);
      && (forall i | from <= i < |rows| :: rows[i].id in t <==> i !in faults)
      && (forall i | from <= i < |rows| && i !in faults :: t[rows[i].id] == rows[i])
      && (forall id | id in table :: id in t && t[id] == table[id])
    ensures forall id | id in AddSurvivors(table, rows, faults, from) ::
              id in table || exists i :: from <= i < |rows| && rows[i].id == id
    decreases |rows| - from
  {
    if from < |rows| {
      assert rows[from..][0] == rows[from];
      var t := if from in faults then table else table[rows[from].id := rows[from]];
      var rest := rows[from + 1..];
      forall i | 0 <= i < |rest| ensures rest[i].id !in t {
        assert rest[i] == rows[from + 1 + i] == rows[from..][i + 1];
      }
      FallbackLosesFailedOnly(t, rows, faults, from + 1);
    }
  }

  // ----- many batches -----

  /** One batch and how its store calls end. */
  datatype Write = Write(rows: seq<Row>, faults: Faults)

  function RowsOf(writes: seq<Write>): seq<Row> {
    if writes == [] then [] else RowsOf(writes[..|writes| - 1]) + writes[|writes| - 1].rows
  }

  function WriteAll(table: Table, writes: seq<Write>): Table {
    if writes == [] then table
    else Flushed(WriteAll(table, writes[..|writes| - 1]), writes[|writes| - 1].rows, writes[|writes| - 1].faults)
  }

  /** The rows whose transaction failed and whose own write failed after it. */
  function LostIn(write: Write): set<int> {
    if write.faults.batch then set k | 0 <= k < |write.rows| && k in write.faults.rows :: write.rows[k].id else {}
  }

  function Lost(writes: seq<Write>): set<int> {
    if writes == [] then {} else Lost(writes[..|writes| - 1]) + LostIn(writes[|writes| - 1])
  }

  predicate InRows(rows: seq<Row>, id: int) {
    exists i :: 0 <= i < |rows| && rows[i].id == id
  }

  lemma FlushedContents(table: Table, write: Write)
    requires Distinct(write.rows) && Fresh(table, write.rows)
    ensures var t := Flushed(table, write.rows, write.faults);
      && (forall r | r in write.rows :: (r.id in t <==> r.id !in LostIn(write)) && (r.id in t ==> t[r.id] == r))
      && (forall id | id in table :: id in t && t[id] == table[id])
      && (forall id | id in t :: id in table || InRows(write.rows, id))
  {
    AddAllContents(table, write.rows);
    assert write.rows[0..] == write.rows;
    FallbackLosesFailedOnly(table, write.rows, write.faults.rows, 0);
  }

  lemma {:induction false} LostAreRows(writes: seq<Write>)
    ensures forall id | id in Lost(writes) :: InRows(RowsOf(writes), id)
  {
    if writes != [] {
      var front, last := writes[..|writes| - 1], writes[|writes| - 1];
      LostAreRows(front);
      forall id | id in Lost(writes) ensures InRows(RowsOf(writes), id) {
        InRowsAppend(RowsOf(front), last.rows, id);
      }
    }
  }

  lemma InRowsAppend(xs: seq<Row>, ys: seq<Row>, id: int)
    ensures InRows(xs + ys, id) <==> InRows(xs, id) || InRows(ys, id)
  {
    if InRows(xs, id) {
      var i :| 0 <= i < |xs| && xs[i].id == id;
      assert (xs + ys)[i].id == id;
    }
    if InRows(ys, id) {
      var i :| 0 <= i < |ys| && ys[i].id == id;
      assert (xs + ys)[|xs| + i].id == id;
    }
  }

  lemma DistinctParts(xs: seq<Row>, ys: seq<Row>)
    requires Distinct(xs + ys)
    ensures Distinct(xs) && Distinct(ys)
    ensures forall id :: !(InRows(xs, id) && InRows(ys, id))
  {
    var all := xs + ys;
    forall i, j | 0 <= i < j < |xs| ensures xs[i].id != xs[j].id {
      assert all[i] == xs[i] && all[j] == xs[j];
    }
    forall i, j | 0 <= i < j < |ys| ensures ys[i].id != ys[j].id {
      assert all[|xs| + i] == ys[i] && all[|xs| + j] == ys[j];
    }
    forall i, j | 0 <= i < |xs| && 0 <= j < |ys| ensures xs[i].id != ys[j].id {
      assert all[i] == xs[i] && all[|xs| + j] == ys[j];
    }
  }

  /** Over any number of batches with any faults, with row ids all different and new, the
      table gains exactly the rows that were not lost. */
  lemma {:induction false} WriteAllContents(table: Table, writes: seq<Write>)
    requires Distinct(RowsOf(writes)) && Fresh(table, RowsOf(writes))
    ensures var t := WriteAll(table, writes);
      && (forall r | r in RowsOf(writes) :: (r.id in t <==> r.id !in Lost(writes)) && (r.id in t ==> t[r.id] == r))
      && (forall id | id in table :: id in t && t[id] == table[id])
      && (forall id | id in t :: id in table || InRows(RowsOf(writes), id))
  {
    if writes != [] {
      var front, last := writes[..|writes| - 1], writes[|writes| - 1];
      var xs, rows := RowsOf(front), RowsOf(writes);
      DistinctParts(xs, last.rows);
      assert forall i | 0 <= i < |xs| :: rows[i] == xs[i];
      assert forall i | 0 <= i < |last.rows| :: rows[|xs| + i] == last.rows[i];
      WriteAllContents(table, front);
      var t := WriteAll(table, front);
      forall i | 0 <= i < |last.rows| ensures last.rows[i].id !in t {
        assert InRows(last.rows, last.rows[i].id) && rows[|xs| + i].id !in table;
      }
      FlushedContents(t, last);
      WriteAllStep(t, front, last);
      forall id | id in WriteAll(table, writes) ensures id in table || InRows(rows, id) {
        InRowsAppend(xs, last.rows, id);
      }
    }
  }

  lemma WriteAllStep(t: Table, front: seq<Write>, last: Write)
    requires forall id :: !(InRows(RowsOf(front), id) && InRows(last.rows, id))
    requires forall r | r in RowsOf(front) :: (r.id in t <==> r.id !in Lost(front)) && (r.id in t ==> t[r.id] == r)
    requires Distinct(last.rows) && Fresh(t, last.rows)
    ensures var u := Flushed(t, last.rows, last.faults);
      forall r | r in RowsOf(front) + last.rows ::
        (r.id in u <==> r.id !in Lost(front) + LostIn(last)) && (r.id in u ==> u[r.id] == r)
  {
    FlushedContents(t, last);
    LostAreRows(front);
    var u := Flushed(t, last.rows, last.faults);
    forall r | r in RowsOf(front) + last.rows
      ensures (r.id in u <==> r.id !in Lost(front) + LostIn(last)) && (r.id in u ==> u[r.id] == r)
    {
      if r in RowsOf(front) {
        assert InRows(RowsOf(front), r.id) && !InRows(last.rows, r.id);
      } else {
        assert r in last.rows && InRows(last.rows, r.id) && !InRows(RowsOf(front), r.id);
      }
    }
  }

  /** When no single write fails the batches store what one transaction would have. */
  lemma {:induction false} CleanWrites(table: Table, writes: seq<Write>)
    requires forall w | w in writes :: w.faults.rows == {}
    ensures WriteAll(table, writes) == AddAll(table, RowsOf(writes))
  {
    if writes != [] {
      var front, last := writes[..|writes| - 1], writes[|writes| - 1];
      CleanWrites(table, front);
      assert last in writes;
      FallbackStoresAll(WriteAll(table, front), last.rows, {}, 0);
      assert last.rows[0..] == last.rows;
      AddAllAppend(table, RowsOf(front), last.rows);
    }
  }

  function RowOf(input: Input): seq<Row> {
    if input.Event? && input.built.Some? then [input.built.value] else []
  }

  /** The rows of the events received before cancellation, in order. */
  function BuiltRows(inputs: seq<Input>): seq<Row> {
    if inputs == [] || inputs[0].Cancel? then [] else RowOf(inputs[0]) + BuiltRows(inputs[1..])
  }

  /** An event contributes the row built from it, if one was; nothing else contributes. */
  lemma {:induction false} BuiltRowsCount(inputs: seq<Input>, row: Row)
    ensures row in BuiltRows(inputs) <==>
            exists k :: 0 <= k < |inputs| && Uncancelled(inputs[..k]) && Brings(inputs[k], row)
    decreases |inputs|
  {
    if inputs != [] {
      BuiltRowsCount(inputs[1..], row);
      var rest := inputs[1..];
      if k :| 0 <= k < |inputs| && Uncancelled(inputs[..k]) && Brings(inputs[k], row) {
        if k > 0 {
          assert inputs[..k][0] == inputs[0] && rest[..k - 1] == inputs[..k][1..] && rest[k - 1] == inputs[k];
        }
      }
      if !inputs[0].Cancel? {
        if Brings(inputs[0], row) { assert Uncancelled(inputs[..0]); }
        if k :| 0 <= k < |rest| && Uncancelled(rest[..k]) && Brings(rest[k], row) {
          assert inputs[..k + 1] == [inputs[0]] + rest[..k] && inputs[k + 1] == rest[k];
        }
      }
    }
  }

  predicate Brings(input: Input, row: Row) {
    input.Event? && input.built == Some(row)
  }

  /** What the loop holds: the waiting rows and the batches written so far. */
  datatype Batching = Batching(batch: seq<Row>, writes: seq<Write>)

  function FlushOf(b: Batching, faults: Faults): Batching {
    if b.batch == [] then b else Batching([], b.writes + [Write(b.batch, faults)])
  }

  /** One round of the select loop. */
  function RoundOf(b: Batching, input: Input): Batching {
    var full := b.(batch := b.batch + RowOf(input));
    if input.Event? && |full.batch| < MAX_BATCH_SIZE then full else FlushOf(full, input.faults)
  }

  function LoopOf(b: Batching, inputs: seq<Input>): Batching
    decreases |inputs|
  {
    if inputs == [] then b
    else if inputs[0].Cancel? then RoundOf(b, inputs[0])
    else LoopOf(RoundOf(b, inputs[0]), inputs[1..])
  }

  function Taken(b: Batching): seq<Row> {
    RowsOf(b.writes) + b.batch
  }

  lemma RowsOfAppend(writes: seq<Write>, write: Write)
    ensures RowsOf(writes + [write]) == RowsOf(writes) + write.rows
  {
    assert (writes + [write])[..|writes|] == writes;
  }

  lemma RoundKeeps(b: Batching, input: Input)
    ensures Taken(RoundOf(b, input)) == Taken(b) + RowOf(input)
    ensures RowsOf(b.writes) <= RowsOf(RoundOf(b, input).writes)
    ensures !input.Event? ==> RoundOf(b, input).batch == []
  {
    RowsOfAppend(b.writes, Write(b.batch + RowOf(input), input.faults));
  }

  /** Rows are neither lost, doubled nor reordered on the way to the store calls. */
  lemma {:induction false} LoopKeeps(b: Batching, inputs: seq<Input>)
    ensures Taken(LoopOf(b, inputs)) == Taken(b) + BuiltRows(inputs)
    decreases |inputs|
  {
    if inputs != [] {
      RoundKeeps(b, inputs[0]);
      if !inputs[0].Cancel? {
        LoopKeeps(RoundOf(b, inputs[0]), inputs[1..]);
        Assoc(Taken(b), RowOf(inputs[0]), BuiltRows(inputs[1..]));
      }
    }
  }

  lemma Assoc(a: seq<Row>, b: seq<Row>, c: seq<Row>)
    ensures a + b + c == a + (b + c)
  {
  }

  lemma {:induction false} WritesGrow(b: Batching, inputs: seq<Input>)
    ensures RowsOf(b.writes) <= RowsOf(LoopOf(b, inputs).writes)
    decreases |inputs|
  {
    if inputs != [] {
      RoundKeeps(b, inputs[0]);
      if !inputs[0].Cancel? { WritesGrow(RoundOf(b, inputs[0]), inputs[1..]); }
    }
  }

  predicate Uncancelled(inputs: seq<Input>) {
    forall k | 0 <= k < |inputs| :: !inputs[k].Cancel?
  }

  /** A tick writes whatever is waiting: the rows of all events before it are in batches
      that were written. */
  lemma {:induction false} TickWrites(b: Batching, inputs: seq<Input>, k: nat)
    requires k < |inputs| && inputs[k].Tick? && Uncancelled(inputs[..k])
    ensures Taken(b) + BuiltRows(inputs[..k]) <= RowsOf(LoopOf(b, inputs).writes)
    decreases k
  {
    RoundKeeps(b, inputs[0]);
    if k == 0 {
      WritesGrow(RoundOf(b, inputs[0]), inputs[1..]);
    } else {
      assert inputs[..k][0] == inputs[0] && inputs[..k][1..] == inputs[1..][..k - 1];
      TickWrites(RoundOf(b, inputs[0]), inputs[1..], k - 1);
    }
  }

  /** So does a cancellation, and it is the last thing that happens. */
  lemma {:induction false} CancelWrites(b: Batching, inputs: seq<Input>, k: nat)
    requires k < |inputs| && inputs[k].Cancel?
    ensures LoopOf(b, inputs).batch == []
    decreases k
  {
    if !inputs[0].Cancel? { CancelWrites(RoundOf(b, inputs[0]), inputs[1..], k - 1); }
  }

  /** Every write is of at most a full batch and under the faults of some round. */
  ghost predicate From(writes: seq<Write>, inputs: seq<Input>) {
    forall w | w in writes ::
      0 < |w.rows| <= MAX_BATCH_SIZE && exists k :: 0 <= k < |inputs| && inputs[k].faults == w.faults
  }

  /** Fewer rows than a full batch wait between rounds, and no write is larger. */
  lemma {:induction false} LoopBounded(b: Batching, inputs: seq<Input>, all: seq<Input>, from: nat)
    requires from <= |all| && inputs == all[from..] && |b.batch| < MAX_BATCH_SIZE && From(b.writes, all)
    ensures |LoopOf(b, inputs).batch| < MAX_BATCH_SIZE && From(LoopOf(b, inputs).writes, all)
    decreases |inputs|
  {
    if inputs != [] {
      assert inputs[0] == all[from];
      if !inputs[0].Cancel? { LoopBounded(RoundOf(b, inputs[0]), inputs[1..], all, from + 1); }
    }
  }

  predicate NoRowFaults(inputs: seq<Input>) {
    forall k | 0 <= k < |inputs| :: inputs[k].faults.rows == {}
  }

  class ParamPipeline {
    var batch: seq<Row>
    var table: Table
    ghost const start: Table
    ghost var writes: seq<Write>

    /** The table is what the batches written so far made of the first one. */
    ghost predicate Valid()
      reads this
    {
      table == WriteAll(start, writes)
    }

    constructor (table: Table)
      ensures Valid() && batch == [] && writes == [] && this.table == table && start == table
    {
      this.batch, this.table, this.start, this.writes := [], table, table, [];
    }

    /** All or nothing. */
    method SaveParamsBatch(rows: seq<Row>, fault: bool) returns (ok: bool)
      modifies this`table
      ensures ok <==> !fault && Distinct(rows) && Fresh(old(table), rows)
      ensures table == if ok then AddAll(old(table), rows) else old(table)
    {
      var t := table;
      var i := 0;
      while i < |rows|
        invariant 0 <= i <= |rows|
        invariant Distinct(rows[..i]) && Fresh(table, rows[..i])
        invariant AddAll(table, rows) == AddAll(t, rows[i..])
        invariant forall id :: id in t <==> id in table || exists k :: 0 <= k < i && rows[k].id == id
      {
        if rows[i].id in t {
          assert !(Distinct(rows) && Fresh(table, rows));
          return false;
        }
        assert rows[i..][0] == rows[i] && rows[i..][1..] == rows[i + 1..];
        t := t[rows[i].id := rows[i]];
        i := i + 1;
      }
      assert rows[..i] == rows && rows[i..] == [];
      if fault {
        return false;
      }
      table := t;
      return true;
    }

    method SaveParam(row: Row, fault: bool)
      modifies this`table
      ensures table == if fault || row.id in old(table) then old(table) else old(table)[row.id := row]
    {
      if !fault && row.id !in table {
        table := table[row.id := row];
      }
    }

    method Flush(faults: Faults)
      requires Valid()
      modifies this`batch, this`table, this`writes
      ensures Valid() && batch == []
      ensures table == Flushed(old(table), old(batch), faults)
      ensures writes == if old(batch) == [] then old(writes) else old(writes) + [Write(old(batch), faults)]
    {
      if batch == [] {
        return;
      }
      var b := batch;
      batch := [];
      ghost var before := table;
      var ok := SaveParamsBatch(b, faults.batch);
      if !ok {
        for i := 0 to |b|
          invariant AddSurvivors(before, b, faults.rows, 0) == AddSurvivors(table, b, faults.rows, i)
          invariant batch == [] && writes == old(writes)
        {
          SaveParam(b[i], i in faults.rows);
        }
      }
      writes := writes + [Write(b, faults)];
      assert writes[..|writes| - 1] == old(writes);
    }

    /** One round of the select loop: an event's row joins the batch, and a full batch or,
        on a tick or a cancellation, any batch is written. */
    method Round(input: Input)
      requires Valid()
      modifies this`batch, this`table, this`writes
      ensures Valid() && Batching(batch, writes) == RoundOf(old(Batching(batch, writes)), input)
    {
      if input.Event? && input.built.Some? {
        batch := batch + [input.built.value];
      }
      assert batch == old(batch) + RowOf(input);
      if !input.Event? || |batch| >= MAX_BATCH_SIZE {
        Flush(input.faults);
      }
    }

    /** The rows of all events reach the store calls in order, those before a tick at the
        latest with it; `WriteAllContents` says what the calls leave in the table. */
    method Loop(inputs: seq<Input>)
      requires Valid() && batch == [] && writes == []
      modifies this`batch, this`table, this`writes
      ensures Valid() && Batching(batch, writes) == LoopOf(Batching([], []), inputs)
      ensures RowsOf(writes) + batch == BuiltRows(inputs)
      ensures |batch| < MAX_BATCH_SIZE && From(writes, inputs)
      ensures forall k | 0 <= k < |inputs| && inputs[k].Tick? && Uncancelled(inputs[..k]) ::
                BuiltRows(inputs[..k]) <= RowsOf(writes)
      ensures (exists k :: 0 <= k < |inputs| && inputs[k].Cancel?) ==> batch == []
      ensures NoRowFaults(inputs) ==> table == AddAll(start, RowsOf(writes))
    {
      var k := 0;
      while k < |inputs|
        invariant 0 <= k <= |inputs| && Valid()
        invariant LoopOf(Batching(batch, writes), inputs[k..]) == LoopOf(Batching([], []), inputs)
      {
        var input := inputs[k];
        assert inputs[k..][0] == input && inputs[k..][1..] == inputs[k + 1..];
        Round(input);
        if input.Cancel? {
          break;
        }
        k := k + 1;
      }
      LoopFacts(inputs);
      if NoRowFaults(inputs) {
        CleanWrites(start, writes);
      }
    }
  }

  lemma LoopFacts(inputs: seq<Input>)
    ensures var b := LoopOf(Batching([], []), inputs);
      && RowsOf(b.writes) + b.batch == BuiltRows(inputs)
      && |b.batch| < MAX_BATCH_SIZE && From(b.writes, inputs)
      && (forall k | 0 <= k < |inputs| && inputs[k].Tick? && Uncancelled(inputs[..k]) ::
            BuiltRows(inputs[..k]) <= RowsOf(b.writes))
      && ((exists k :: 0 <= k < |inputs| && inputs[k].Cancel?) ==> b.batch == [])
  {
    var b := Batching([], []);
    LoopKeeps(b, inputs);
    assert inputs[0..] == inputs;
    LoopBounded(b, inputs, inputs, 0);
    forall k | 0 <= k < |inputs| && inputs[k].Tick? && Uncancelled(inputs[..k])
      ensures BuiltRows(inputs[..k]) <= RowsOf(LoopOf(b, inputs).writes)
    {
      TickWrites(b, inputs, k);
      assert Taken(b) + BuiltRows(inputs[..k]) == BuiltRows(inputs[..k]);
    }
    if k :| 0 <= k < |inputs| && inputs[k].Cancel? {
      CancelWrites(b, inputs, k);
    }
  }

  // ----- the delta store end to end -----

  /** At any moment of any interleaving, with whatever of the rows handed over so far written
      in any order, in any batches and with any faults: the base of a stored delta row is
      stored, as a full row, if and only if its write was reached and not lost. */
  lemma StoredDeltaBase(libs: Libs, steps: seq<Step>, writes: seq<Write>, id: int)
    requires libs.Good() && Distinct(RowsOf(writes)) && AllIn(RowsOf(writes), Run(libs, INIT, steps).emitted)
    requires id in WriteAll(map[], writes) && WriteAll(map[], writes)[id].baseId != 0
    ensures var table, s := WriteAll(map[], writes), Run(libs, INIT, steps);
      var base := table[id].baseId;
      && id in s.minted && table[id] == s.minted[id]
      && base in s.minted && s.minted[base].baseId == 0
      && (base in table <==> InRows(RowsOf(writes), base) && base !in Lost(writes))
      && (base in table ==> table[base] == s.minted[base])
  {
    var s := Run(libs, INIT, steps);
    assert Inv(libs, INIT);
    InvRun(libs, INIT, steps);
    StoredIff(writes, s.emitted, id);
    assert RowOk(libs, s, id);
    StoredIff(writes, s.emitted, s.minted[id].baseId);
  }

  /** Once every handler is done and the batcher has written all that they handed over: the
      table is precisely the rows the handlers built without the lost ones, and a stored
      delta row has its base beside it if and only if the base's own write was not lost. */
  lemma TableHoldsEveryBase(libs: Libs, steps: seq<Step>, writes: seq<Write>)
    requires libs.Good() && Run(libs, INIT, steps).handlers == map[]
    requires Distinct(RowsOf(writes)) && Holds(RowsOf(writes), Run(libs, INIT, steps).emitted)
    ensures var table, built := WriteAll(map[], writes), Run(libs, INIT, steps).minted;
      && (forall id :: id in table <==> id in built && id !in Lost(writes))
      && (forall id | id in table :: table[id] == built[id])
      && (forall id | id in table && table[id].baseId != 0 ::
            && (table[id].baseId in table <==> table[id].baseId !in Lost(writes))
            && (table[id].baseId in table ==> table[table[id].baseId].baseId == 0))
  {
    var s := Run(libs, INIT, steps);
    var table := WriteAll(map[], writes);
    assert Inv(libs, INIT);
    InvRun(libs, INIT, steps);
    EmittedIsMinted(libs, s);
    forall id
      ensures id in table <==> id in s.minted && id !in Lost(writes)
      ensures id in table ==> table[id] == s.minted[id]
    {
      StoredIff(writes, s.minted, id);
      if id in s.minted { assert s.minted[id] in RowsOf(writes); }
    }
    forall id | id in table && table[id].baseId != 0
      ensures table[id].baseId in s.minted && s.minted[table[id].baseId].baseId == 0
    {
      StoredDeltaBase(libs, steps, writes, id);
    }
  }

  lemma StoredIff(writes: seq<Write>, emitted: Table, id: int)
    requires Distinct(RowsOf(writes)) && AllIn(RowsOf(writes), emitted)
    ensures var table := WriteAll(map[], writes);
      && (id in table <==> InRows(RowsOf(writes), id) && id !in Lost(writes))
      && (id in table ==> id in emitted && table[id] == emitted[id])
  {
    WriteAllContents(map[], writes);
  }

  /** Two sights of one object whose first, full row fails both in the transaction and by
      itself: the second is stored as a patch on a row that is nowhere, and the cache goes
      on naming that row as the base. */
  lemma LostBase(libs: Libs, first: Task, second: Task)
    requires libs.Good() && first.addr == second.addr && first.id == 1 && second.id == 2
    requires IsObjectText(libs.json, first.text) && IsObjectText(libs.json, second.text)
    requires !HasMagic(first.text) && !HasMagic(second.text)
    ensures var s := Run(libs, INIT, HandlerSteps(0, first, Led, Led) + HandlerSteps(1, second, Led, Led));
      && s.handlers == map[] && s.emitted.Keys == {1, 2}
      && first.addr in s.cache && s.cache[first.addr].baseId == 1
      && var table := WriteAll(map[], [Write([s.emitted[1], s.emitted[2]], Faults(true, {0}))]);
         1 !in table && 2 in table && table[2].baseId == 1
  {
    RunAppend(libs, INIT, HandlerSteps(0, first, Led, Led), HandlerSteps(1, second, Led, Led));
    HandleIsRun(libs, INIT, 0, first, Led, Led);
    var s1 := Run(libs, INIT, HandlerSteps(0, first, Led, Led));
    HandleIsRun(libs, s1, 1, second, Led, Led);
    CompressRoundTrip(libs.z, first.text);
    assert CreateJSONPatch(libs.json, first.text, second.text).Some?;
    FirstLost(FullRow(libs, first), Handle(libs, s1.cache, second, Led, Led).0);
  }

  lemma FirstLost(r: Row, q: Row)
    requires r.id != q.id
    ensures WriteAll(map[], [Write([r, q], Faults(true, {0}))]) == map[q.id := q]
  {
    var w := Write([r, q], Faults(true, {0}));
    assert [w][..0] == [];
    assert AddSurvivors(map[], w.rows, {0}, 1) == AddSurvivors(map[q.id := q], w.rows, {0}, 2);
  }

  ghost predicate AllIn(rows: seq<Row>, table: Table) {
    forall k | 0 <= k < |rows| :: rows[k].id in table && table[rows[k].id] == rows[k]
  }

  /** `rows` lists the rows of `table`. */
  ghost predicate Holds(rows: seq<Row>, table: Table) {
    AllIn(rows, table) && forall id | id in table :: table[id] in rows && table[id].id == id
  }

  lemma EmittedIsMinted(libs: Libs, s: State)
    requires Inv(libs, s) && s.handlers == map[]
    ensures s.emitted == s.minted
  {
    forall id | id in s.minted ensures id in s.emitted {
      assert RowOk(libs, s, id) && Issued(s, s.minted[id]);
    }
    forall id | id in s.emitted ensures id in s.minted && s.minted[id] == s.emitted[id] {
    }
    assert s.emitted == s.minted;
  }
}
