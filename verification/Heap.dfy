/** Values as the dumper sees them through reflection: a heap of cells, and the same
    cells as a tree. */
module Heap {
  import opened Wrappers

  datatype Field<T> = Field(name: string, exported: bool, child: T)

  datatype Entry<T> = Entry(key: string, child: T)

  /** A value that is not walked, as it is printed: a nil channel or function, a bool, a
      number by its literal, and text for strings and all other kinds. */
  datatype Scalar = Nil | Truth(b: bool) | Numeral(literal: string) | Words(text: string)

  /** What a value holds; `T` is an address in a heap and a subtree in a tree. `Bytes` is a
      byte slice or array, which is printed whole. */
  datatype Content<T> =
    | Leaf(scalar: Scalar)
    | Bytes(text: string, len: nat)
    | Ptr(target: Option<T>)
    | Iface(box: Option<T>)
    | Struct(typ: string, fields: seq<Field<T>>)
    | Slice(isNil: bool, elems: seq<T>)
    | Array(items: seq<T>)
    | Map(typ: string, isNil: bool, entries: seq<Entry<T>>)

  /** `large` is the text of a type in the large-object registry. */
  datatype Cell<T> = Cell(addressable: bool, large: Option<string>, content: Content<T>)

  datatype Tree = Tree(cell: Cell<Tree>)

  datatype Config = Config(
    maxDepth: int,
    maxElements: int,
    allowUnexported: bool,
    compactLarge: bool,
    parseMaps: bool)

  type Cells = map<nat, Cell<nat>>

  /** The dumped value, before it is printed as JSON. */
  datatype Dump =
    | Plain(value: Scalar)
    | Circular(slot: nat)
    | Truncated(len: nat, depth: int)
    | Omitted(omitted: nat, total: nat)
    | Obj(members: seq<Member>)
    | Arr(items: seq<Dump>)

  datatype Member = Member(key: string, value: Dump)

  const NULL := Plain(Nil)

  function Text(s: string): Dump {
    Plain(Words(s))
  }

  function Decimal(n: nat): string {
    (if n < 10 then [] else Decimal(n / 10)) + [('0' as int + n % 10) as char]
  }

  function Number(n: nat): Dump {
    Plain(Numeral(Decimal(n)))
  }

  /** What a decimal literal denotes. */
  function ValueOf(s: string): int {
    if s == [] then 0 else 10 * ValueOf(s[..|s| - 1]) + (s[|s| - 1] as int - '0' as int)
  }

  lemma {:induction false} DecimalValue(n: nat)
    ensures ValueOf(Decimal(n)) == n
  {
    var s := Decimal(n);
    if n >= 10 {
      DecimalValue(n / 10);
      assert s[..|s| - 1] == Decimal(n / 10);
    }
  }

  function Take<T>(xs: seq<T>, n: nat): (r: seq<T>)
    ensures |r| <= n && |r| <= |xs| && forall i | 0 <= i < |r| :: r[i] == xs[i]
  {
    if n < |xs| then xs[..n] else xs
  }

  function ListLimit(cfg: Config): nat {
    if cfg.maxElements <= 0 then 1000 else cfg.maxElements
  }

  function MapLimit(cfg: Config): nat {
    if cfg.maxElements <= 0 then 20 else cfg.maxElements
  }

  /** An unexported field of a value without an address cannot be read. */
  function FieldText<T>(cfg: Config, addressable: bool, f: Field<T>): Option<string> {
    if f.exported then None
    else if !cfg.allowUnexported then Some("<unexported>")
    else if !addressable then Some("<unexported, not addressable>")
    else None
  }

  /** The positions of the fields that are walked, among the first `n`. */
  function WalkedAt<T>(cfg: Config, addressable: bool, fs: seq<Field<T>>, n: nat): (at: seq<nat>)
    requires n <= |fs|
    ensures |at| <= n && forall k | 0 <= k < |at| :: at[k] < n
    decreases n
  {
    if n == 0 then []
    else WalkedAt(cfg, addressable, fs, n - 1) + if FieldText(cfg, addressable, fs[n - 1]).None? then [n - 1] else []
  }

  function FirstChildren<T>(es: seq<Entry<T>>, limit: nat): (ts: seq<T>)
    ensures |ts| == (if limit < |es| then limit else |es|) && forall i | 0 <= i < |ts| :: ts[i] == es[i].child
  {
    seq(if limit < |es| then limit else |es|, i requires 0 <= i < |es| => es[i].child)
  }

  /** The children a dumper walks into, in order. */
  function Kids<T>(cfg: Config, cell: Cell<T>): seq<T> {
    match cell.content
    case Ptr(Some(t)) => [t]
    case Iface(Some(b)) => [b]
    case Struct(_, fs) =>
      var at := WalkedAt(cfg, cell.addressable, fs, |fs|);
      seq(|at|, i requires 0 <= i < |at| => fs[at[i]].child)
    case Slice(false, xs) => Take(xs, ListLimit(cfg))
    case Array(xs) => Take(xs, ListLimit(cfg))
    case Map(_, false, es) =>
      if cfg.parseMaps then FirstChildren(es, MapLimit(cfg)) else []
    case _ => []
  }

  lemma WalkedCount<T>(cfg: Config, cell: Cell<T>)
    requires cell.content.Struct?
    ensures |Kids(cfg, cell)| == |WalkedAt(cfg, cell.addressable, cell.content.fields, |cell.content.fields|)|
  {
  }

  /** Everything the cell refers to, walked or not. */
  ghost predicate Refers<T(!new)>(cell: Cell<T>, t: T) {
    match cell.content
    case Ptr(Some(x)) => t == x
    case Iface(Some(x)) => t == x
    case Struct(_, fs) => exists i :: 0 <= i < |fs| && fs[i].child == t
    case Slice(_, xs) => t in xs
    case Array(xs) => t in xs
    case Map(_, _, es) => exists i :: 0 <= i < |es| && es[i].child == t
    case _ => false
  }

  lemma KidsAreReferred<T(!new)>(cfg: Config, cell: Cell<T>)
    ensures forall t | t in Kids(cfg, cell) :: Refers(cell, t)
  {
  }

  function Put(ms: seq<Member>, key: string, value: Dump): (r: seq<Member>)
    ensures |ms| <= |r| <= |ms| + 1
  {
    if ms == [] then [Member(key, value)]
    else if ms[0].key == key then [Member(key, value)] + ms[1..]
    else [ms[0]] + Put(ms[1..], key, value)
  }

  /** A part of a container's dump: one of the results, or a plain remark. */
  predicate Part(d: Dump, results: seq<Dump>) {
    d.Plain? || d.Omitted? || d in results
  }

  /** The object a struct's first `n` fields give, `results` being those of the walked ones. */
  function FieldMembers<T>(cfg: Config, addressable: bool, fs: seq<Field<T>>, n: nat, results: seq<Dump>)
    : (r: seq<Member>)
    requires n <= |fs| && |WalkedAt(cfg, addressable, fs, n)| <= |results|
    ensures |r| <= n
    decreases n
  {
    if n == 0 then []
    else
      var f, text := fs[n - 1], FieldText(cfg, addressable, fs[n - 1]);
      var walked := |WalkedAt(cfg, addressable, fs, n - 1)|;
      var ms := FieldMembers(cfg, addressable, fs, n - 1, results);
      Put(ms, f.name, if text.Some? then Text(text.value) else results[walked])
  }

  function EntryMembers<T>(es: seq<Entry<T>>, n: nat, results: seq<Dump>): (r: seq<Member>)
    requires n <= |es| && n <= |results|
    ensures |r| <= n
    decreases n
  {
    if n == 0 then [] else Put(EntryMembers(es, n - 1, results), es[n - 1].key, results[n - 1])
  }

  function ListOf(limit: nat, len: nat, results: seq<Dump>): Dump {
    Arr(if len > limit then results + [Omitted(len - limit, len)] else results)
  }

  function MapOf<T>(limit: nat, es: seq<Entry<T>>, results: seq<Dump>): Dump
    requires |results| <= |es|
  {
    var ms := EntryMembers(es, |results|, results);
    Obj(if |es| > limit then Put(ms, "...truncated", Omitted(|es| - |ms|, |es|)) else ms)
  }

  /** What a dumper makes of the results for its `Kids`. */
  function Combine<T>(cfg: Config, cell: Cell<T>, results: seq<Dump>): Dump
    requires |results| == |Kids(cfg, cell)|
  {
    match cell.content
    case Leaf(v) => Plain(v)
    case Bytes(s, _) => Text(s)
    case Ptr(None) => NULL
    case Ptr(Some(_)) => results[0]
    case Iface(None) => NULL
    case Iface(Some(_)) => results[0]
    case Struct(typ, fs) =>
      Obj(Put(FieldMembers(cfg, cell.addressable, fs, |fs|, results), "type", Text(typ)))
    case Slice(true, _) => NULL
    case Slice(false, xs) => ListOf(ListLimit(cfg), |xs|, results)
    case Array(xs) => ListOf(ListLimit(cfg), |xs|, results)
    case Map(_, true, _) => NULL
    case Map(typ, false, es) =>
      if !cfg.parseMaps then Obj([Member("type", Text(typ)), Member("len", Number(|es|))])
      else MapOf(MapLimit(cfg), es, results)
  }

  /** The walked fields among the first `i` come first among all walked fields. */
  lemma {:induction false} WalkedPrefix<T>(cfg: Config, addressable: bool, fs: seq<Field<T>>, i: nat, n: nat)
    requires i <= n <= |fs|
    ensures WalkedAt(cfg, addressable, fs, i) <= WalkedAt(cfg, addressable, fs, n)
    decreases n
  {
    if i < n { WalkedPrefix(cfg, addressable, fs, i, n - 1); }
  }

  /** How many entries a container's dump may have. */
  function FanOut<T>(cfg: Config, content: Content<T>): nat {
    match content
    case Struct(_, fs) => |fs| + 1
    case Slice(_, _) => ListLimit(cfg) + 1
    case Array(_) => ListLimit(cfg) + 1
    case Map(_, _, _) => if cfg.parseMaps then MapLimit(cfg) + 1 else 2
    case _ => 0
  }

  function PartsOf(d: Dump): seq<Dump> {
    match d
    case Obj(ms) => seq(|ms|, i requires 0 <= i < |ms| => ms[i].value)
    case Arr(xs) => xs
    case _ => []
  }

  lemma {:induction false} PutParts(ms: seq<Member>, key: string, value: Dump)
    ensures forall m | m in Put(ms, key, value) :: m in ms || m.value == value
  {
    if ms != [] && ms[0].key != key { PutParts(ms[1..], key, value); }
  }

  lemma {:induction false} FieldParts<T>(cfg: Config, addressable: bool, fs: seq<Field<T>>, n: nat, results: seq<Dump>)
    requires n <= |fs| && |WalkedAt(cfg, addressable, fs, n)| <= |results|
    ensures forall m | m in FieldMembers(cfg, addressable, fs, n, results) :: Part(m.value, results)
    decreases n
  {
    if n > 0 {
      FieldParts(cfg, addressable, fs, n - 1, results);
      var text, walked := FieldText(cfg, addressable, fs[n - 1]), |WalkedAt(cfg, addressable, fs, n - 1)|;
      PutParts(FieldMembers(cfg, addressable, fs, n - 1, results), fs[n - 1].name,
               if text.Some? then Text(text.value) else results[walked]);
    }
  }

  lemma {:induction false} EntryParts<T>(es: seq<Entry<T>>, n: nat, results: seq<Dump>)
    requires n <= |es| && n <= |results|
    ensures forall m | m in EntryMembers(es, n, results) :: Part(m.value, results)
    decreases n
  {
    if n > 0 {
      EntryParts(es, n - 1, results);
      PutParts(EntryMembers(es, n - 1, results), es[n - 1].key, results[n - 1]);
    }
  }

  predicate AllParts(d: Dump, results: seq<Dump>) {
    forall i | 0 <= i < |PartsOf(d)| :: Part(PartsOf(d)[i], results)
  }

  lemma ObjParts(ms: seq<Member>, results: seq<Dump>)
    requires forall m | m in ms :: Part(m.value, results)
    ensures AllParts(Obj(ms), results)
  {
  }

  lemma StructParts<T>(cfg: Config, cell: Cell<T>, results: seq<Dump>)
    requires |results| == |Kids(cfg, cell)| && cell.content.Struct?
    ensures var d := Combine(cfg, cell, results);
      d.Obj? && |d.members| <= FanOut(cfg, cell.content) && AllParts(d, results)
  {
    var fs := cell.content.fields;
    FieldParts(cfg, cell.addressable, fs, |fs|, results);
    PutParts(FieldMembers(cfg, cell.addressable, fs, |fs|, results), "type", Text(cell.content.typ));
    ObjParts(Combine(cfg, cell, results).members, results);
  }

  lemma MapOfParts<T>(limit: nat, es: seq<Entry<T>>, results: seq<Dump>)
    requires |results| <= |es| && |results| <= limit
    ensures AllParts(MapOf(limit, es, results), results)
    ensures |MapOf(limit, es, results).members| <= limit + 1
  {
    var ms := EntryMembers(es, |results|, results);
    EntryParts(es, |results|, results);
    PutParts(ms, "...truncated", Omitted(|es| - |ms|, |es|));
    ObjParts(MapOf(limit, es, results).members, results);
  }

  lemma MapParts<T>(cfg: Config, cell: Cell<T>, results: seq<Dump>)
    requires |results| == |Kids(cfg, cell)| && cell.content.Map? && !cell.content.isNil
    ensures var d := Combine(cfg, cell, results);
      d.Obj? && |d.members| <= FanOut(cfg, cell.content) && AllParts(d, results)
  {
    if cfg.parseMaps {
      MapOfParts(MapLimit(cfg), cell.content.entries, results);
    } else {
      ObjParts(Combine(cfg, cell, results).members, results);
    }
  }

  lemma ListParts(limit: nat, len: nat, results: seq<Dump>)
    requires |results| <= limit
    ensures AllParts(ListOf(limit, len, results), results)
    ensures |PartsOf(ListOf(limit, len, results))| <= limit + 1
  {
  }

  /** Of a cell that is no pointer or interface, the dump is flat or a container of at most
      `FanOut` parts. */
  lemma CombineParts<T>(cfg: Config, cell: Cell<T>, results: seq<Dump>)
    requires |results| == |Kids(cfg, cell)| && !Unwraps(cell.content)
    ensures var d := Combine(cfg, cell, results);
      && AllParts(d, results) && |PartsOf(d)| <= FanOut(cfg, cell.content)
      && (d.Plain? || d.Obj? || d.Arr?)
      && (d.Obj? || d.Arr? ==> Deep(cell.content))
  {
    match cell.content
    case Struct(_, _) => StructParts(cfg, cell, results);
    case Map(_, false, _) => MapParts(cfg, cell, results);
    case Slice(false, xs) => ListParts(ListLimit(cfg), |xs|, results);
    case Array(xs) => ListParts(ListLimit(cfg), |xs|, results);
    case _ =>
  }

  predicate Deep<T>(content: Content<T>) {
    !content.Leaf?
  }

  /** Pointers and interfaces are unwrapped at their own depth. */
  predicate Unwraps<T>(content: Content<T>) {
    content.Ptr? || content.Iface?
  }

  function LenInfo<T>(content: Content<T>): nat {
    match content
    case Bytes(_, n) => n
    case Iface(_) => 1
    case Slice(_, xs) => |xs|
    case Array(xs) => |xs|
    case Map(_, _, es) => |es|
    case _ => 0
  }

  predicate CutOff<T>(cfg: Config, content: Content<T>, depth: int) {
    cfg.maxDepth > 0 && depth > cfg.maxDepth && Deep(content)
  }

  function DepthBelow<T>(content: Content<T>, depth: int): int {
    if Unwraps(content) then depth else depth + 1
  }

  // ----- cells that differ in their children only -----

  predicate SameFields<T, U>(fs: seq<Field<T>>, us: seq<Field<U>>) {
    |fs| == |us| && forall i | 0 <= i < |fs| :: fs[i].name == us[i].name && fs[i].exported == us[i].exported
  }

  predicate SameShape<T, U>(c: Content<T>, u: Content<U>) {
    match (c, u)
    case (Leaf(s), Leaf(s')) => s == s'
    case (Bytes(s, n), Bytes(s', n')) => s == s' && n == n'
    case (Ptr(t), Ptr(t')) => t.Some? == t'.Some?
    case (Iface(t), Iface(t')) => t.Some? == t'.Some?
    case (Struct(typ, fs), Struct(typ', us)) => typ == typ' && SameFields(fs, us)
    case (Slice(b, xs), Slice(b', us)) => b == b' && |xs| == |us|
    case (Array(xs), Array(us)) => |xs| == |us|
    case (Map(typ, b, es), Map(typ', b', us)) =>
      typ == typ' && b == b' && |es| == |us| && forall i | 0 <= i < |es| :: es[i].key == us[i].key
    case _ => false
  }

  lemma {:induction false} SameWalked<T, U>(cfg: Config, addressable: bool, fs: seq<Field<T>>, us: seq<Field<U>>,
                                            n: nat)
    requires SameFields(fs, us) && n <= |fs|
    ensures WalkedAt(cfg, addressable, fs, n) == WalkedAt(cfg, addressable, us, n)
    decreases n
  {
    if n > 0 { SameWalked(cfg, addressable, fs, us, n - 1); }
  }

  lemma {:induction false} SameFieldMembers<T, U>(cfg: Config, addressable: bool, fs: seq<Field<T>>,
                                                  us: seq<Field<U>>, n: nat, results: seq<Dump>)
    requires SameFields(fs, us) && n <= |fs| && |WalkedAt(cfg, addressable, fs, n)| <= |results|
    ensures |WalkedAt(cfg, addressable, us, n)| <= |results|
    ensures FieldMembers(cfg, addressable, us, n, results) == FieldMembers(cfg, addressable, fs, n, results)
    decreases n
  {
    SameWalked(cfg, addressable, fs, us, n);
    if n > 0 {
      SameWalked(cfg, addressable, fs, us, n - 1);
      SameFieldMembers(cfg, addressable, fs, us, n - 1, results);
    }
  }

  lemma {:induction false} SameEntryMembers<T, U>(es: seq<Entry<T>>, us: seq<Entry<U>>, n: nat, results: seq<Dump>)
    requires |us| == |es| && n <= |es| && n <= |results| && forall i | 0 <= i < |es| :: us[i].key == es[i].key
    ensures EntryMembers(us, n, results) == EntryMembers(es, n, results)
    decreases n
  {
    if n > 0 { SameEntryMembers(es, us, n - 1, results); }
  }

  lemma SameKidCount<T, U>(cfg: Config, c: Cell<T>, u: Cell<U>)
    requires c.addressable == u.addressable && SameShape(c.content, u.content)
    ensures |Kids(cfg, c)| == |Kids(cfg, u)|
  {
    if c.content.Struct? {
      SameWalked(cfg, c.addressable, c.content.fields, u.content.fields, |c.content.fields|);
    }
  }

  /** `Combine` looks at the shape only. */
  lemma SameCombine<T, U>(cfg: Config, c: Cell<T>, u: Cell<U>, results: seq<Dump>)
    requires c.addressable == u.addressable && SameShape(c.content, u.content)
    requires |results| == |Kids(cfg, c)| == |Kids(cfg, u)|
    ensures Combine(cfg, c, results) == Combine(cfg, u, results)
  {
    if c.content.Struct? {
      var fs, us := c.content.fields, u.content.fields;
      SameFieldMembers(cfg, c.addressable, fs, us, |fs|, results);
    } else if c.content.Map? && !c.content.isNil && cfg.parseMaps {
      SameMapOf(MapLimit(cfg), c.content.entries, u.content.entries, results);
    }
  }

  lemma SameMapOf<T, U>(limit: nat, es: seq<Entry<T>>, us: seq<Entry<U>>, results: seq<Dump>)
    requires |us| == |es| && |results| <= |es| && forall i | 0 <= i < |es| :: us[i].key == es[i].key
    ensures MapOf(limit, es, results) == MapOf(limit, us, results)
  {
    SameEntryMembers(es, us, |results|, results);
  }
}
