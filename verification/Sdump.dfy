/** The dump as a JSON document. */
module Sdump {
  import opened Wrappers
  import opened Heap
  import opened DumperWalk
  import opened Dumper
  import opened DumperBounds
  import opened DumperContents
  import J = MergePatch
  import C = Codec

  /** A result that is no object is wrapped in one. */
  function Wrap(d: Dump): Dump {
    if d.Obj? then d else Obj([Member("value", d)])
  }

  /** `remark` renders the leaves that are formatted texts. */
  function ToJson(d: Dump, remark: Dump -> string): J.Json {
    match d
    case Plain(Nil) => J.Null
    case Plain(Truth(b)) => J.Bool(b)
    case Plain(Numeral(literal)) => J.Number(literal)
    case Plain(Words(s)) => J.String(s)
    case Circular(_) => J.String(remark(d))
    case Truncated(_, _) => J.String(remark(d))
    case Omitted(_, _) => J.String(remark(d))
    case Obj(ms) => J.Object(ToMembers(ms, remark))
    case Arr(xs) => J.Array(ToElems(xs, remark))
  }

  function ToMembers(ms: seq<Member>, remark: Dump -> string): map<string, J.Json> {
    if ms == [] then map[]
    else ToMembers(ms[1..], remark) + map[ms[0].key := ToJson(ms[0].value, remark)]
  }

  function ToElems(xs: seq<Dump>, remark: Dump -> string): seq<J.Json> {
    if xs == [] then [] else [ToJson(xs[0], remark)] + ToElems(xs[1..], remark)
  }

  /** The final document nests at most one container more than the walk. */
  lemma WrapBound(h: Cells, cfg: Config, a: nat, width: nat)
    requires Valid(h, cfg) && cfg.maxDepth > 0 && a in h && Wide(h, cfg, width)
    ensures Wrap(DumpOf(h, cfg, Call(a, -1, {}))).Obj?
    ensures NestsAtMost(Wrap(DumpOf(h, cfg, Call(a, -1, {}))), cfg.maxDepth + 3)
    ensures Nodes(Wrap(DumpOf(h, cfg, Call(a, -1, {})))) <= Pow(width + 1, cfg.maxDepth + 2) + 1
  {
    OutputBound(h, cfg, a, width);
    var d := DumpOf(h, cfg, Call(a, -1, {}));
    if d.Obj? {
      NestsMore(d, cfg.maxDepth + 2);
    } else {
      assert MemberNodes([Member("value", d)]) == Nodes(d) + MemberNodes([]);
    }
  }

  lemma {:induction false} NestsMore(d: Dump, n: nat)
    requires NestsAtMost(d, n)
    ensures NestsAtMost(d, n + 1)
    decreases n
  {
    match d
    case Obj(ms) =>
      forall i | 0 <= i < |ms| ensures NestsAtMost(ms[i].value, n) { NestsMore(ms[i].value, n - 1); }
    case Arr(xs) =>
      forall i | 0 <= i < |xs| ensures NestsAtMost(xs[i], n) { NestsMore(xs[i], n - 1); }
    case _ =>
  }

  // ----- the document shows the dump -----

  /** In no object do two members share a key. */
  predicate WellKeyed(d: Dump) {
    match d
    case Obj(ms) => DistinctKeys(ms) && forall i | 0 <= i < |ms| :: WellKeyed(ms[i].value)
    case Arr(xs) => forall i | 0 <= i < |xs| :: WellKeyed(xs[i])
    case _ => true
  }

  /** `doc` is the JSON form of `d`: scalars as such, remarks as texts, arrays element by
      element, objects member by member with nothing added. */
  ghost predicate Renders(doc: J.Json, d: Dump, remark: Dump -> string) {
    match d
    case Plain(v) =>
      (match v
       case Nil => doc.Null?
       case Truth(b) => doc == J.Bool(b)
       case Numeral(literal) => doc == J.Number(literal)
       case Words(s) => doc == J.String(s))
    case Obj(ms) =>
      && doc.Object? && (forall k :: k in doc.members <==> exists i :: 0 <= i < |ms| && ms[i].key == k)
      && forall i | 0 <= i < |ms| :: Renders(doc.members[ms[i].key], ms[i].value, remark)
    case Arr(xs) =>
      && doc.Array? && |doc.elems| == |xs|
      && forall i | 0 <= i < |xs| :: Renders(doc.elems[i], xs[i], remark)
    case _ => doc == J.String(remark(d))
  }

  lemma {:induction false} MembersShown(ms: seq<Member>, remark: Dump -> string)
    requires DistinctKeys(ms)
    ensures forall k :: k in ToMembers(ms, remark) <==> exists i :: 0 <= i < |ms| && ms[i].key == k
    ensures forall i | 0 <= i < |ms| :: ToMembers(ms, remark)[ms[i].key] == ToJson(ms[i].value, remark)
  {
    if ms != [] {
      MembersShown(ms[1..], remark);
      forall k | k in ToMembers(ms, remark) ensures exists i :: 0 <= i < |ms| && ms[i].key == k {
        if k != ms[0].key {
          var i :| 0 <= i < |ms[1..]| && ms[1..][i].key == k;
          assert ms[i + 1].key == k;
        }
      }
      forall i | 0 <= i < |ms|
        ensures ms[i].key in ToMembers(ms, remark)
        ensures ToMembers(ms, remark)[ms[i].key] == ToJson(ms[i].value, remark)
      {
        if i > 0 { assert ms[1..][i - 1] == ms[i]; }
      }
    }
  }

  lemma {:induction false} ElemsShown(xs: seq<Dump>, remark: Dump -> string)
    ensures |ToElems(xs, remark)| == |xs|
    ensures forall i | 0 <= i < |xs| :: ToElems(xs, remark)[i] == ToJson(xs[i], remark)
  {
    if xs != [] { ElemsShown(xs[1..], remark); }
  }

  lemma {:induction false} JsonShows(d: Dump, remark: Dump -> string)
    requires WellKeyed(d)
    ensures Renders(ToJson(d, remark), d, remark)
  {
    match d
    case Obj(ms) =>
      MembersShown(ms, remark);
      forall i | 0 <= i < |ms| ensures Renders(ToJson(ms[i].value, remark), ms[i].value, remark) {
        JsonShows(ms[i].value, remark);
      }
    case Arr(xs) =>
      ElemsShown(xs, remark);
      forall i | 0 <= i < |xs| ensures Renders(ToJson(xs[i], remark), xs[i], remark) {
        JsonShows(xs[i], remark);
      }
    case _ =>
  }

  lemma {:induction false} FieldKeys(cfg: Config, addressable: bool, fs: seq<Field<nat>>, n: nat, results: seq<Dump>)
    requires n <= |fs| && |WalkedAt(cfg, addressable, fs, n)| <= |results|
    ensures DistinctKeys(FieldMembers(cfg, addressable, fs, n, results))
    decreases n
  {
    if n > 0 {
      var ms, f := FieldMembers(cfg, addressable, fs, n - 1, results), fs[n - 1];
      FieldKeys(cfg, addressable, fs, n - 1, results);
      var text, walked := FieldText(cfg, addressable, f), |WalkedAt(cfg, addressable, fs, n - 1)|;
      PutDistinct(ms, f.name, if text.Some? then Text(text.value) else results[walked]);
    }
  }

  lemma CombineDistinct(cfg: Config, cell: Cell<nat>, results: seq<Dump>)
    requires |results| == |Kids(cfg, cell)| && !Unwraps(cell.content)
    ensures Combine(cfg, cell, results).Obj? ==> DistinctKeys(Combine(cfg, cell, results).members)
  {
    match cell.content
    case Struct(typ, fs) =>
      FieldKeys(cfg, cell.addressable, fs, |fs|, results);
      PutDistinct(FieldMembers(cfg, cell.addressable, fs, |fs|, results), "type", Text(typ));
    case Map(typ, false, es) =>
      if cfg.parseMaps {
        MapMember(MapLimit(cfg), es, results, Member("type", Text(typ)));
      } else {
        assert "type"[0] != "len"[0];
      }
    case _ =>
  }

  lemma CombineWellKeyed(cfg: Config, cell: Cell<nat>, results: seq<Dump>)
    requires |results| == |Kids(cfg, cell)| && forall k | 0 <= k < |results| :: WellKeyed(results[k])
    ensures WellKeyed(Combine(cfg, cell, results))
  {
    if !Unwraps(cell.content) {
      var d := Combine(cfg, cell, results);
      CombineDistinct(cfg, cell, results);
      CombineParts(cfg, cell, results);
      forall i | 0 <= i < |PartsOf(d)| ensures WellKeyed(PartsOf(d)[i]) {
        assert Part(PartsOf(d)[i], results);
      }
      if d.Obj? {
        forall i | 0 <= i < |d.members| ensures WellKeyed(d.members[i].value) {
          assert PartsOf(d)[i] == d.members[i].value;
        }
      }
    }
  }

  lemma {:induction false} DumpWellKeyed(h: Cells, cfg: Config, c: Call)
    requires Valid(h, cfg) && c.addr in h
    ensures WellKeyed(DumpOf(h, cfg, c))
    decreases Remaining(cfg, c), |FreshSlots(h, c.visited)|, Rank(h, cfg, c)
  {
    if Stop(h, cfg, c).None? {
      SubAt(h, cfg, c);
      forall k | 0 <= k < |KidDumps(h, cfg, c)| ensures WellKeyed(KidDumps(h, cfg, c)[k]) {
        SubSmaller(h, cfg, c, k);
        KidDumpAt(h, cfg, c, k);
        DumpWellKeyed(h, cfg, Sub(h, cfg, c)[k]);
      }
      CombineWellKeyed(cfg, h[c.addr], KidDumps(h, cfg, c));
    }
  }

  /** The document of any value on any heap: a dump that is an object is the document, member
      by member; any other dump is its only member, "value". */
  lemma DocumentShowsDump(h: Cells, cfg: Config, a: nat, remark: Dump -> string)
    requires Valid(h, cfg) && a in h
    ensures var d := DumpOf(h, cfg, Call(a, -1, {}));
      var doc := ToJson(Wrap(d), remark);
      && doc.Object?
      && (d.Obj? ==> Renders(doc, d, remark))
      && (!d.Obj? ==> doc.members.Keys == {"value"} && Renders(doc.members["value"], d, remark))
  {
    var d := DumpOf(h, cfg, Call(a, -1, {}));
    DumpWellKeyed(h, cfg, Call(a, -1, {}));
    JsonShows(Wrap(d), remark);
    if !d.Obj? {
      var doc, ms := ToJson(Wrap(d), remark), [Member("value", d)];
      assert ms[0].key in doc.members;
    }
  }

  /** A document shows one dump in one way only. */
  lemma {:induction false} RendersOnce(doc: J.Json, other: J.Json, d: Dump, remark: Dump -> string)
    requires Renders(doc, d, remark) && Renders(other, d, remark)
    ensures doc == other
    decreases d
  {
    match d
    case Obj(ms) =>
      forall k | k in doc.members ensures k in other.members && doc.members[k] == other.members[k] {
        var i :| 0 <= i < |ms| && ms[i].key == k;
        RendersOnce(doc.members[k], other.members[k], ms[i].value, remark);
      }
      assert doc.members == other.members;
    case Arr(xs) =>
      forall i | 0 <= i < |xs| ensures doc.elems[i] == other.elems[i] {
        RendersOnce(doc.elems[i], other.elems[i], xs[i], remark);
      }
    case _ =>
  }

  /** Every dump is the text of a JSON object, as the delta store relies on, and never looks
      like a compressed text. */
  lemma DumpIsObjectText(json: C.JsonText, h: Cells, cfg: Config, a: nat, remark: Dump -> string)
    requires json.Faithful() && Valid(h, cfg) && a in h
    ensures var text := json.render(ToJson(Wrap(DumpOf(h, cfg, Call(a, -1, {}))), remark));
      C.IsObjectText(json, text) && !C.HasMagic(text)
  {
  }
}
