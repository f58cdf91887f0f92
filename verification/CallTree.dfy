/** The calls of one session: what a run of enters and exits emits, and how the call
    tree comes back from the rows. */
module CallTree {

  /** A completed call and the calls made from it, in order. */
  datatype Call = Call(id: int, kids: seq<Call>)

  datatype Row = Row(id: int, parentId: int, indent: int)

  /** `Enter` carries the trace id the generator returned. */
  datatype Event = Enter(id: int) | Exit

  datatype Session = Session(indent: int, parents: map<int, int>)

  const INIT := Session(0, map[])

  function PrepareEnter(s: Session, id: int): (Session, Row) {
    var parentId := if s.indent - 1 in s.parents then s.parents[s.indent - 1] else 0;
    (Session(s.indent + 1, s.parents[s.indent := id]), Row(id, parentId, s.indent))
  }

  function OnExit(s: Session): Session {
    if s.indent > 0 then Session(s.indent - 1, s.parents - {s.indent - 1}) else Session(0, map[])
  }

  function Run(s: Session, evs: seq<Event>): (Session, seq<Row>)
    decreases |evs|
  {
    if evs == [] then (s, [])
    else match evs[0]
      case Enter(id) =>
        var (s', row) := PrepareEnter(s, id);
        var (t, rows) := Run(s', evs[1..]);
        (t, [row] + rows)
      case Exit => Run(OnExit(s), evs[1..])
  }

  // ----- the session is a call stack -----

  /** `parents` is `stack` indexed from the bottom, with nothing left over. */
  ghost predicate Represents(s: Session, stack: seq<int>) {
    && s.indent == |stack|
    && (forall i :: i in s.parents <==> 0 <= i < |stack|)
    && forall i | 0 <= i < |stack| :: s.parents[i] == stack[i]
  }

  function Top(stack: seq<int>): int {
    if stack == [] then 0 else stack[|stack| - 1]
  }

  function Pop(stack: seq<int>): seq<int> {
    if stack == [] then [] else stack[..|stack| - 1]
  }

  function StackRun(stack: seq<int>, evs: seq<Event>): (seq<int>, seq<Row>)
    decreases |evs|
  {
    if evs == [] then (stack, [])
    else match evs[0]
      case Enter(id) =>
        var (t, rows) := StackRun(stack + [id], evs[1..]);
        (t, [Row(id, Top(stack), |stack|)] + rows)
      case Exit => StackRun(Pop(stack), evs[1..])
  }

  lemma EnterRefines(s: Session, stack: seq<int>, id: int)
    requires Represents(s, stack)
    ensures Represents(PrepareEnter(s, id).0, stack + [id])
    ensures PrepareEnter(s, id).1 == Row(id, Top(stack), |stack|)
  {
  }

  lemma ExitRefines(s: Session, stack: seq<int>)
    requires Represents(s, stack)
    ensures Represents(OnExit(s), Pop(stack))
  {
  }

  /** On every run of enters and exits, bracketed or not, the session emits the rows of a
      stack of open calls whose pop does nothing on the empty stack. */
  lemma {:induction false} RunRefinesStack(s: Session, stack: seq<int>, evs: seq<Event>)
    requires Represents(s, stack)
    ensures Represents(Run(s, evs).0, StackRun(stack, evs).0)
    ensures Run(s, evs).1 == StackRun(stack, evs).1
    decreases |evs|
  {
    if evs != [] {
      match evs[0]
      case Enter(id) =>
        EnterRefines(s, stack, id);
        RunRefinesStack(PrepareEnter(s, id).0, stack + [id], evs[1..]);
      case Exit =>
        ExitRefines(s, stack);
        RunRefinesStack(OnExit(s), Pop(stack), evs[1..]);
    }
  }

  // ----- forests -----

  function Events(f: seq<Call>): seq<Event> {
    if f == [] then [] else [Enter(f[0].id)] + Events(f[0].kids) + [Exit] + Events(f[1..])
  }

  /** The labelled preorder of a forest under `parent`. */
  function Preorder(f: seq<Call>, parent: int, indent: int): seq<Row> {
    if f == [] then []
    else [Row(f[0].id, parent, indent)] + Preorder(f[0].kids, f[0].id, indent + 1) + Preorder(f[1..], parent, indent)
  }

  lemma StackEnter(stack: seq<int>, id: int, evs: seq<Event>)
    ensures StackRun(stack, [Enter(id)] + evs).0 == StackRun(stack + [id], evs).0
    ensures StackRun(stack, [Enter(id)] + evs).1 == [Row(id, Top(stack), |stack|)] + StackRun(stack + [id], evs).1
  {
  }

  lemma StackExit(stack: seq<int>, id: int, evs: seq<Event>)
    ensures StackRun(stack + [id], [Exit] + evs) == StackRun(stack, evs)
  {
  }

  /** A call whose kids emit `inner` and leave the stack as it was. */
  lemma StackCall(stack: seq<int>, id: int, kids: seq<Event>, after: seq<Event>, inner: seq<Row>)
    requires StackRun(stack + [id], kids + ([Exit] + after)).0 == StackRun(stack + [id], [Exit] + after).0
    requires StackRun(stack + [id], kids + ([Exit] + after)).1 == inner + StackRun(stack + [id], [Exit] + after).1
    ensures var call := [Enter(id)] + (kids + ([Exit] + after));
      && StackRun(stack, call).0 == StackRun(stack, after).0
      && StackRun(stack, call).1 == [Row(id, Top(stack), |stack|)] + (inner + StackRun(stack, after).1)
  {
    StackExit(stack, id, after);
    StackEnter(stack, id, kids + ([Exit] + after));
  }

  lemma {:induction false} StackRunForest(stack: seq<int>, f: seq<Call>, rest: seq<Event>)
    ensures StackRun(stack, Events(f) + rest).0 == StackRun(stack, rest).0
    ensures StackRun(stack, Events(f) + rest).1 == Preorder(f, Top(stack), |stack|) + StackRun(stack, rest).1
    decreases f
  {
    if f == [] {
      assert Events(f) + rest == rest;
    } else {
      var id, kids, more := f[0].id, f[0].kids, f[1..];
      var after := Events(more) + rest;
      StackRunForest(stack, more, rest);
      StackRunForest(stack + [id], kids, [Exit] + after);
      StackCall(stack, id, Events(kids), after, Preorder(kids, id, |stack| + 1));
      EventsSplit(f, rest);
      PreorderSplit(f, Top(stack), |stack|, StackRun(stack, rest).1);
    }
  }

  lemma EventsSplit(f: seq<Call>, rest: seq<Event>)
    requires f != []
    ensures Events(f) + rest == [Enter(f[0].id)] + (Events(f[0].kids) + ([Exit] + (Events(f[1..]) + rest)))
  {
  }

  lemma PreorderSplit(f: seq<Call>, parent: int, indent: int, tail: seq<Row>)
    requires f != []
    ensures Preorder(f, parent, indent) + tail ==
            [Row(f[0].id, parent, indent)] +
            (Preorder(f[0].kids, f[0].id, indent + 1) + (Preorder(f[1..], parent, indent) + tail))
  {
  }

  /** A run of exactly the calls of `f` emits its labelled preorder and ends where it began. */
  lemma RunForest(f: seq<Call>)
    ensures Run(INIT, Events(f)) == (INIT, Preorder(f, 0, 0))
  {
    RunRefinesStack(INIT, [], Events(f));
    assert Events(f) + [] == Events(f);
    StackRunForest([], f, []);
    assert Preorder(f, 0, 0) + [] == Preorder(f, 0, 0);
    assert Represents(Run(INIT, Events(f)).0, []);
    var parents := Run(INIT, Events(f)).0.parents;
    assert forall i :: i !in parents;
    assert parents == map[];
  }

  /** Every exit closes an open call and, `open` calls being open now, all get closed. */
  predicate Bracketed(evs: seq<Event>, open: nat)
    decreases |evs|
  {
    if evs == [] then open == 0
    else match evs[0]
      case Enter(_) => Bracketed(evs[1..], open + 1)
      case Exit => open > 0 && Bracketed(evs[1..], open - 1)
  }

  lemma Wrapped(enter: Event, kids: seq<Event>, more: seq<Event>, rest: seq<Event>, r: seq<Event>, evs: seq<Event>)
    requires evs != [] && evs[0] == enter && kids + r == evs[1..]
    requires r != [] && r[0] == Exit && more + rest == r[1..]
    ensures [enter] + kids + [Exit] + more + rest == evs
  {
  }

  /** Reads a forest off the front of a bracketed run, up to the exit of an enclosing call. */
  lemma {:induction false} Parse(evs: seq<Event>, open: nat) returns (f: seq<Call>, rest: seq<Event>)
    requires Bracketed(evs, open)
    ensures Events(f) + rest == evs && Bracketed(rest, open)
    ensures rest == [] || rest[0] == Exit
    decreases |evs|
  {
    if evs == [] || evs[0] == Exit {
      f, rest := [], evs;
    } else {
      var kids, r := Parse(evs[1..], open + 1);
      var more;
      more, rest := Parse(r[1..], open);
      f := [Call(evs[0].id, kids)] + more;
      assert f[0].kids == kids && f[1..] == more;
      Wrapped(evs[0], Events(kids), Events(more), rest, r, evs);
    }
  }

  // ----- rebuilding the forest from the rows -----

  function InsertById(row: Row, rows: seq<Row>): seq<Row> {
    if rows == [] then [row]
    else if row.id <= rows[0].id then [row] + rows
    else [rows[0]] + InsertById(row, rows[1..])
  }

  function SortById(rows: seq<Row>): seq<Row> {
    if rows == [] then [] else InsertById(rows[0], SortById(rows[1..]))
  }

  predicate Rising(rows: seq<Row>) {
    forall i, j | 0 <= i < j < |rows| :: rows[i].id < rows[j].id
  }

  predicate NotFalling(rows: seq<Row>) {
    forall i, j | 0 <= i < j < |rows| :: rows[i].id <= rows[j].id
  }

  /** The rows called from `p`; a callee's id is larger than its caller's. */
  function Kids(rows: seq<Row>, p: int, hi: int): (ks: seq<Row>)
    ensures forall k | k in ks :: p < k.id <= hi
  {
    if rows == [] then []
    else (if rows[0].parentId == p < rows[0].id <= hi then [rows[0]] else []) + Kids(rows[1..], p, hi)
  }

  function Build(rows: seq<Row>, p: int, hi: int): seq<Call>
    decreases hi - p, |rows| + 1
  {
    BuildEach(rows, Kids(rows, p, hi), p, hi)
  }

  function BuildEach(rows: seq<Row>, ks: seq<Row>, p: int, hi: int): seq<Call>
    requires forall k | k in ks :: p < k.id <= hi
    decreases hi - p, 0, |ks|
  {
    if ks == [] then []
    else [Call(ks[0].id, Build(rows, ks[0].id, hi))] + BuildEach(rows, ks[1..], p, hi)
  }

  /** The call forest as a reader of the table rebuilds it: root calls have parent 0. */
  function Rebuild(table: seq<Row>, hi: int): seq<Call> {
    Build(SortById(table), 0, hi)
  }

  lemma ConsNotFalling(x: Row, rows: seq<Row>)
    requires NotFalling(rows) && forall r | r in rows :: x.id <= r.id
    ensures NotFalling([x] + rows)
  {
  }

  lemma {:induction false} InsertByIdOk(row: Row, rows: seq<Row>)
    requires NotFalling(rows)
    ensures NotFalling(InsertById(row, rows))
    ensures forall r | r in InsertById(row, rows) :: r == row || r in rows
  {
    if rows == [] {
    } else if row.id > rows[0].id {
      InsertByIdOk(row, rows[1..]);
      ConsNotFalling(rows[0], InsertById(row, rows[1..]));
    } else {
      ConsNotFalling(row, rows);
    }
  }

  lemma {:induction false} InsertByIdKeeps(row: Row, rows: seq<Row>)
    ensures multiset(InsertById(row, rows)) == multiset(rows) + multiset{row}
  {
    TailMultiset(InsertById(row, rows));
    if rows != [] && row.id > rows[0].id {
      InsertByIdKeeps(row, rows[1..]);
      TailMultiset(rows);
    }
  }

  lemma {:induction false} SortByIdOk(rows: seq<Row>)
    ensures NotFalling(SortById(rows)) && multiset(SortById(rows)) == multiset(rows)
  {
    if rows != [] {
      SortByIdOk(rows[1..]);
      InsertByIdOk(rows[0], SortById(rows[1..]));
      InsertByIdKeeps(rows[0], SortById(rows[1..]));
      TailMultiset(rows);
    }
  }

  lemma TailMultiset(xs: seq<Row>)
    requires xs != []
    ensures multiset(xs) == multiset{xs[0]} + multiset(xs[1..])
  {
    assert xs == [xs[0]] + xs[1..];
  }

  lemma SameFirst(xs: seq<Row>, ys: seq<Row>)
    requires xs != [] && ys != [] && Rising(xs) && NotFalling(ys)
    requires forall r :: r in xs <==> r in ys
    ensures xs[0] == ys[0]
  {
    assert xs[0] in ys && ys[0] in xs;
    var i :| 0 <= i < |ys| && ys[i] == xs[0];
    var j :| 0 <= j < |xs| && xs[j] == ys[0];
    assert ys[0].id <= ys[i].id && xs[0].id <= xs[j].id;
  }

  lemma SameRows(xs: seq<Row>, ys: seq<Row>)
    requires multiset(xs) == multiset(ys)
    ensures |xs| == |ys| && forall r :: r in xs <==> r in ys
  {
    assert |multiset(xs)| == |xs| && |multiset(ys)| == |ys|;
    forall r ensures r in xs <==> r in ys {
      assert r in xs <==> r in multiset(xs);
      assert r in ys <==> r in multiset(ys);
    }
  }

  lemma {:induction false} SortedUnique(xs: seq<Row>, ys: seq<Row>)
    requires Rising(xs) && NotFalling(ys) && multiset(xs) == multiset(ys)
    ensures xs == ys
    decreases |xs|
  {
    SameRows(xs, ys);
    if xs != [] {
      SameFirst(xs, ys);
      TailMultiset(xs);
      TailMultiset(ys);
      CancelFirst(multiset(xs[1..]), multiset(ys[1..]), xs[0]);
      SortedUnique(xs[1..], ys[1..]);
    }
  }

  lemma CancelFirst(a: multiset<Row>, b: multiset<Row>, r: Row)
    requires multiset{r} + a == multiset{r} + b
    ensures a == b
  {
    assert (multiset{r} + a) - multiset{r} == a;
    assert (multiset{r} + b) - multiset{r} == b;
  }

  predicate ParentIn(rows: seq<Row>, r: Row, p: int) {
    r.parentId == p || exists q | q in rows :: q.id == r.parentId
  }

  /** Every row's parent is `p` or another row of the same forest. */
  lemma {:induction false} PreorderParents(f: seq<Call>, p: int, d: int)
    ensures forall r | r in Preorder(f, p, d) :: ParentIn(Preorder(f, p, d), r, p)
    decreases f
  {
    if f != [] {
      var sub, more := Preorder(f[0].kids, f[0].id, d + 1), Preorder(f[1..], p, d);
      PreorderParents(f[0].kids, f[0].id, d + 1);
      PreorderParents(f[1..], p, d);
      var rows := Preorder(f, p, d);
      assert rows[0].id == f[0].id;
      forall r | r in rows ensures ParentIn(rows, r, p) {
        if r in sub {
          assert ParentIn(sub, r, f[0].id);
        } else if r in more {
          assert ParentIn(more, r, p);
        }
      }
    }
  }

  function Roots(f: seq<Call>, p: int, d: int): seq<Row> {
    if f == [] then [] else [Row(f[0].id, p, d)] + Roots(f[1..], p, d)
  }

  lemma {:induction false} KidsAppend(xs: seq<Row>, ys: seq<Row>, p: int, hi: int)
    ensures Kids(xs + ys, p, hi) == Kids(xs, p, hi) + Kids(ys, p, hi)
  {
    if xs == [] {
      assert xs + ys == ys;
    } else {
      assert (xs + ys)[0] == xs[0] && (xs + ys)[1..] == xs[1..] + ys;
      KidsAppend(xs[1..], ys, p, hi);
    }
  }

  lemma {:induction false} KidsNone(rows: seq<Row>, p: int, hi: int)
    requires forall r | r in rows :: r.parentId != p
    ensures Kids(rows, p, hi) == []
  {
    if rows != [] { KidsNone(rows[1..], p, hi); }
  }

  predicate Above(rows: seq<Row>, p: int, hi: int) {
    forall r | r in rows :: p < r.id <= hi
  }

  lemma KidsBelow(kids: seq<Call>, id: int, d: int, p: int, hi: int)
    requires Above(Preorder(kids, id, d), p, hi) && p < id
    ensures Kids(Preorder(kids, id, d), p, hi) == []
  {
    var sub := Preorder(kids, id, d);
    PreorderParents(kids, id, d);
    forall r | r in sub ensures r.parentId != p {
      assert ParentIn(sub, r, id);
    }
    KidsNone(sub, p, hi);
  }

  lemma AboveParts(head: Row, sub: seq<Row>, more: seq<Row>, p: int, hi: int)
    requires Above([head] + sub + more, p, hi)
    ensures p < head.id <= hi && Above(sub, p, hi) && Above(more, p, hi)
  {
  }

  lemma {:induction false} KidsPreorder(f: seq<Call>, p: int, d: int, hi: int)
    requires Above(Preorder(f, p, d), p, hi)
    ensures Kids(Preorder(f, p, d), p, hi) == Roots(f, p, d)
    decreases f
  {
    if f != [] {
      var head, sub, more := Row(f[0].id, p, d), Preorder(f[0].kids, f[0].id, d + 1), Preorder(f[1..], p, d);
      AboveParts(head, sub, more, p, hi);
      KidsAppend([head] + sub, more, p, hi);
      KidsAppend([head], sub, p, hi);
      KidsBelow(f[0].kids, f[0].id, d + 1, p, hi);
      KidsPreorder(f[1..], p, d, hi);
      assert Kids([head], p, hi) == [head];
    }
  }

  /** No row of `others` was called from a row of `rows`. */
  predicate Apart(others: seq<Row>, rows: seq<Row>) {
    forall o, r | o in others && r in rows :: o.parentId != r.id
  }

  lemma {:induction false} BuildForest(pre: seq<Row>, f: seq<Call>, p: int, d: int, post: seq<Row>, hi: int)
    requires var rows := Preorder(f, p, d);
      Rising(rows) && Above(rows, p, hi) && Apart(pre, rows) && Apart(post, rows)
    requires forall k | k in Roots(f, p, d) :: p < k.id <= hi
    ensures BuildEach(pre + Preorder(f, p, d) + post, Roots(f, p, d), p, hi) == f
    decreases f
  {
    if f != [] {
      var head, sub, more := [Row(f[0].id, p, d)], Preorder(f[0].kids, f[0].id, d + 1), Preorder(f[1..], p, d);
      var rows := Preorder(f, p, d);
      var all := pre + rows + post;
      assert rows == head + sub + more;
      Split(f, p, d, hi);

      Regroup(pre, head, sub, more, post);
      ApartWhole(pre, post, head, sub, more);
      var before, after := pre + head, more + post;
      KidsOfHead(before, f[0].kids, f[0].id, d + 1, after, hi);
      BuildForest(before, f[0].kids, f[0].id, d + 1, after, hi);
      BuildForest(pre + (head + sub), f[1..], p, d, post, hi);
      assert Roots(f, p, d)[1..] == Roots(f[1..], p, d);
    }
  }

  lemma Regroup(pre: seq<Row>, head: seq<Row>, sub: seq<Row>, more: seq<Row>, post: seq<Row>)
    ensures pre + (head + sub + more) + post == (pre + head) + sub + (more + post)
    ensures pre + (head + sub + more) + post == (pre + (head + sub)) + more + post
  {
  }

  lemma ApartWhole(pre: seq<Row>, post: seq<Row>, head: seq<Row>, sub: seq<Row>, more: seq<Row>)
    requires Apart(pre, head + sub + more) && Apart(post, head + sub + more)
    requires Apart(head, sub) && Apart(more, sub) && Apart(head + sub, more)
    ensures Apart(pre + head, sub) && Apart(more + post, sub) && Apart(pre + (head + sub), more)
    ensures Apart(pre, head) && Apart(post, head)
  {
  }

  lemma KidsOfHead(before: seq<Row>, kids: seq<Call>, id: int, d: int, after: seq<Row>, hi: int)
    requires Above(Preorder(kids, id, d), id, hi)
    requires forall r | r in before :: r.parentId != id
    requires forall r | r in after :: r.parentId != id
    ensures Kids(before + Preorder(kids, id, d) + after, id, hi) == Roots(kids, id, d)
  {
    var sub := Preorder(kids, id, d);
    KidsAppend(before + sub, after, id, hi);
    KidsAppend(before, sub, id, hi);
    KidsNone(before, id, hi);
    KidsNone(after, id, hi);
    KidsPreorder(kids, id, d, hi);
  }

  lemma RisingParts(xs: seq<Row>, ys: seq<Row>)
    requires Rising(xs + ys)
    ensures Rising(xs) && Rising(ys)
    ensures forall x, y | x in xs && y in ys :: x.id < y.id
  {
    var all := xs + ys;
    forall i, j | 0 <= i < j < |xs| ensures xs[i].id < xs[j].id {
      assert all[i] == xs[i] && all[j] == xs[j];
    }
    forall i, j | 0 <= i < j < |ys| ensures ys[i].id < ys[j].id {
      assert all[|xs| + i] == ys[i] && all[|xs| + j] == ys[j];
    }
    forall x, y | x in xs && y in ys ensures x.id < y.id {
      var i :| 0 <= i < |xs| && xs[i] == x;
      var j :| 0 <= j < |ys| && ys[j] == y;
      assert all[i] == x && all[|xs| + j] == y;
    }
  }

  lemma Slices(head: Row, sub: seq<Row>, more: seq<Row>, p: int, hi: int)
    requires Rising([head] + sub + more) && Above([head] + sub + more, p, hi)
    ensures Rising(sub) && Rising(more) && Above(sub, head.id, hi) && Above(more, p, hi) && p < head.id
    ensures forall q, r | q in sub && r in more :: q.id < r.id
    ensures forall r | r in more :: head.id < r.id
  {
    var rows := [head] + sub + more;
    assert head in rows && (forall r | r in sub :: r in rows) && forall r | r in more :: r in rows;
    RisingParts([head] + sub, more);
    RisingParts([head], sub);
    assert head in [head] && head in [head] + sub;
  }

  /** How the rows of the first tree of a forest stand to the rest of it. */
  lemma Split(f: seq<Call>, p: int, d: int, hi: int)
    requires f != [] && Rising(Preorder(f, p, d)) && Above(Preorder(f, p, d), p, hi)
    ensures var head, sub, more := [Row(f[0].id, p, d)], Preorder(f[0].kids, f[0].id, d + 1), Preorder(f[1..], p, d);
      && Rising(sub) && Above(sub, f[0].id, hi) && Rising(more) && Above(more, p, hi)
      && Apart(head, sub) && Apart(more, sub) && Apart(head + sub, more)
      && (forall r | r in more :: r.parentId != f[0].id) && p < f[0].id
  {
    var head, sub, more := Row(f[0].id, p, d), Preorder(f[0].kids, f[0].id, d + 1), Preorder(f[1..], p, d);
    Slices(head, sub, more, p, hi);
    PreorderParents(f[0].kids, f[0].id, d + 1);
    PreorderParents(f[1..], p, d);
    forall o | o in more ensures o.parentId != f[0].id && forall r | r in sub :: o.parentId != r.id {
      assert ParentIn(more, o, p);
    }
    forall o, r | o in [head] + sub && r in more ensures o.parentId != r.id {
      if o in sub { assert ParentIn(sub, o, f[0].id); }
    }
  }

  lemma {:induction false} RootsAreRows(f: seq<Call>, p: int, d: int)
    ensures forall k | k in Roots(f, p, d) :: k in Preorder(f, p, d)
    decreases |f|
  {
    if f != [] { RootsAreRows(f[1..], p, d); }
  }

  /** The ids handed out during a run, in call order. */
  function EnterIds(evs: seq<Event>): seq<int> {
    if evs == [] then []
    else (if evs[0].Enter? then [evs[0].id] else []) + EnterIds(evs[1..])
  }

  lemma {:induction false} EmittedIds(s: Session, evs: seq<Event>)
    ensures |Run(s, evs).1| == |EnterIds(evs)|
    ensures forall i | 0 <= i < |EnterIds(evs)| :: Run(s, evs).1[i].id == EnterIds(evs)[i]
    decreases |evs|
  {
    if evs != [] {
      EmittedIds(if evs[0].Enter? then PrepareEnter(s, evs[0].id).0 else OnExit(s), evs[1..]);
    }
  }

  /** Call-tree round trip: a bracketed run whose ids rise from call to call emits the
      labelled preorder of its call forest, leaves the session as new, and any listing of
      the emitted rows, sorted by id, rebuilds to that very forest. */
  lemma CallTreeRoundTrip(evs: seq<Event>, table: seq<Row>, hi: int) returns (f: seq<Call>)
    requires Bracketed(evs, 0)
    requires forall i, j | 0 <= i < j < |EnterIds(evs)| :: EnterIds(evs)[i] < EnterIds(evs)[j]
    requires forall i | 0 <= i < |EnterIds(evs)| :: 0 < EnterIds(evs)[i] <= hi
    requires multiset(table) == multiset(Run(INIT, evs).1)
    ensures Events(f) == evs
    ensures Run(INIT, evs) == (INIT, Preorder(f, 0, 0))
    ensures Rebuild(table, hi) == f
  {
    var rest;
    f, rest := Parse(evs, 0);
    assert rest == [];
    assert Events(f) + [] == Events(f);
    RunForest(f);
    EmittedIds(INIT, evs);
    RebuildPreorder(f, table, hi);
  }

  lemma RebuildPreorder(f: seq<Call>, table: seq<Row>, hi: int)
    requires Rising(Preorder(f, 0, 0)) && Above(Preorder(f, 0, 0), 0, hi)
    requires multiset(table) == multiset(Preorder(f, 0, 0))
    ensures Rebuild(table, hi) == f
  {
    var rows := Preorder(f, 0, 0);
    SortByIdOk(table);
    SortedUnique(rows, SortById(table));
    RootsAreRows(f, 0, 0);
    KidsPreorder(f, 0, 0, hi);
    BuildForest([], f, 0, 0, [], hi);
    assert [] + rows + [] == rows;
  }
}
