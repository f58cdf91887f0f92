/** What the dump of each kind of value is. */
module DumperContents {
  import opened Wrappers
  import opened Heap
  import opened DumperWalk
  import opened Dumper

  predicate DistinctKeys(ms: seq<Member>) {
    forall i, j | 0 <= i < j < |ms| :: ms[i].key != ms[j].key
  }

  function KeysOf(ms: seq<Member>): set<string> {
    if ms == [] then {} else {ms[0].key} + KeysOf(ms[1..])
  }

  lemma {:induction false} PutOne(ms: seq<Member>, key: string, value: Dump, m: Member)
    requires DistinctKeys(ms)
    ensures m in Put(ms, key, value) <==> m == Member(key, value) || (m in ms && m.key != key)
  {
    if ms != [] {
      assert ms == [ms[0]] + ms[1..];
      if ms[0].key != key { PutOne(ms[1..], key, value, m); }
    }
  }

  lemma {:induction false} PutDistinct(ms: seq<Member>, key: string, value: Dump)
    requires DistinctKeys(ms)
    ensures DistinctKeys(Put(ms, key, value))
  {
    if ms != [] && ms[0].key != key {
      PutDistinct(ms[1..], key, value);
      forall m | m in Put(ms[1..], key, value) ensures m.key != ms[0].key {
        PutOne(ms[1..], key, value, m);
      }
    }
  }

  lemma PutKeeps(ms: seq<Member>, key: string, value: Dump)
    requires DistinctKeys(ms)
    ensures DistinctKeys(Put(ms, key, value))
    ensures forall m :: m in Put(ms, key, value) <==> m == Member(key, value) || (m in ms && m.key != key)
  {
    PutDistinct(ms, key, value);
    forall m ensures m in Put(ms, key, value) <==> m == Member(key, value) || (m in ms && m.key != key) {
      PutOne(ms, key, value, m);
    }
  }

  lemma {:induction false} PutKeySet(ms: seq<Member>, key: string, value: Dump)
    ensures KeysOf(Put(ms, key, value)) == KeysOf(ms) + {key}
  {
    if ms != [] && ms[0].key != key {
      PutKeySet(ms[1..], key, value);
    }
  }

  lemma {:induction false} NotAmongKeys(ms: seq<Member>, key: string)
    requires forall i | 0 <= i < |ms| :: ms[i].key != key
    ensures key !in KeysOf(ms)
  {
    if ms != [] { NotAmongKeys(ms[1..], key); }
  }

  lemma {:induction false} DistinctCount(ms: seq<Member>)
    requires DistinctKeys(ms)
    ensures |KeysOf(ms)| == |ms|
  {
    if ms != [] {
      DistinctCount(ms[1..]);
      NotAmongKeys(ms[1..], ms[0].key);
    }
  }

  // ----- where a walk stops -----

  /** The registry of large objects has nothing to say about the value, nor about what one
      pointer or interface leads to. */
  ghost predicate Ordinary(h: Cells, cfg: Config, a: nat)
    requires a in h
  {
    cfg.compactLarge ==>
      if h[a].content.Ptr? && h[a].content.target.Some?
      then h[a].content.target.value in h ==> h[h[a].content.target.value].large.None?
      else if h[a].content.Iface? && h[a].content.box.Some?
      then h[a].content.box.value in h ==> h[h[a].content.box.value].large.None?
      else h[a].large.None?
  }

  /** A walk goes on below a value if and only if it is an ordinary one, the depth is within
      the limit or the value is flat, and it is no pointer slot entered before. */
  lemma GoesOnIff(h: Cells, cfg: Config, c: Call)
    requires c.addr in h
    ensures Stop(h, cfg, c).None? <==>
            && Ordinary(h, cfg, c.addr)
            && (cfg.maxDepth <= 0 || c.depth <= cfg.maxDepth || h[c.addr].content.Leaf?)
            && !(h[c.addr].addressable && h[c.addr].content.Ptr? && c.addr in c.visited)
  {
  }

  /** A large object, held directly or by one pointer or interface, is its registry text. */
  lemma LargeDump(h: Cells, cfg: Config, c: Call, at: nat, text: string)
    requires Valid(h, cfg) && c.addr in h && at in h && cfg.compactLarge && h[at].large == Some(text)
    requires match h[c.addr].content
             case Ptr(Some(t)) => t == at
             case Iface(Some(b)) => b == at
             case _ => c.addr == at
    ensures DumpOf(h, cfg, c) == Text(text)
  {
  }

  /** Beyond the limit everything that is not flat is cut, with the length it had. */
  lemma TruncatedDump(h: Cells, cfg: Config, c: Call)
    requires Valid(h, cfg) && c.addr in h && Ordinary(h, cfg, c.addr)
    requires cfg.maxDepth > 0 && c.depth > cfg.maxDepth && !h[c.addr].content.Leaf?
    ensures DumpOf(h, cfg, c).Truncated? && DumpOf(h, cfg, c).depth == c.depth
    ensures DumpOf(h, cfg, c).len ==
            match h[c.addr].content
            case Slice(_, xs) => |xs|
            case Array(xs) => |xs|
            case Map(_, _, es) => |es|
            case Bytes(_, len) => len
            case Iface(_) => 1
            case _ => 0
  {
  }

  /** A pointer slot met again on its own path is marked. */
  lemma CircularDump(h: Cells, cfg: Config, c: Call)
    requires Valid(h, cfg) && c.addr in h && Ordinary(h, cfg, c.addr)
    requires cfg.maxDepth <= 0 || c.depth <= cfg.maxDepth
    requires h[c.addr].addressable && h[c.addr].content.Ptr? && c.addr in c.visited
    ensures DumpOf(h, cfg, c) == Circular(c.addr)
  {
  }

  // ----- values without members -----

  lemma FlatDump(h: Cells, cfg: Config, c: Call)
    requires Valid(h, cfg) && c.addr in h && Stop(h, cfg, c).None?
    ensures h[c.addr].content.Leaf? ==> DumpOf(h, cfg, c) == Plain(h[c.addr].content.scalar)
    ensures h[c.addr].content.Bytes? ==> DumpOf(h, cfg, c) == Plain(Words(h[c.addr].content.text))
    ensures h[c.addr].content.Slice? && h[c.addr].content.isNil ==> DumpOf(h, cfg, c) == Plain(Nil)
    ensures h[c.addr].content.Map? && h[c.addr].content.isNil ==> DumpOf(h, cfg, c) == Plain(Nil)
  {
  }

  /** A pointer dumps as what it points to, at the same depth and with its slot remembered. */
  lemma PointerDump(h: Cells, cfg: Config, c: Call)
    requires Valid(h, cfg) && c.addr in h && Stop(h, cfg, c).None? && h[c.addr].content.Ptr?
    ensures h[c.addr].content.target.None? ==> DumpOf(h, cfg, c) == Plain(Nil)
    ensures h[c.addr].content.target.Some? ==>
              var t, slot := h[c.addr].content.target.value, if h[c.addr].addressable then {c.addr} else {};
              t in h && DumpOf(h, cfg, c) == DumpOf(h, cfg, Call(t, c.depth, c.visited + slot))
  {
    if h[c.addr].content.target.Some? {
      KidDumpAt(h, cfg, c, 0);
      assert c.visited + {} == c.visited;
    }
  }

  /** An interface dumps as what it holds, at the same depth. */
  lemma InterfaceDump(h: Cells, cfg: Config, c: Call)
    requires Valid(h, cfg) && c.addr in h && Stop(h, cfg, c).None? && h[c.addr].content.Iface?
    ensures h[c.addr].content.box.None? ==> DumpOf(h, cfg, c) == Plain(Nil)
    ensures h[c.addr].content.box.Some? ==>
              var b := h[c.addr].content.box.value;
              b in h && DumpOf(h, cfg, c) == DumpOf(h, cfg, Call(b, c.depth, c.visited))
  {
    if h[c.addr].content.box.Some? {
      KidDumpAt(h, cfg, c, 0);
    }
  }

  // ----- maps -----

  /** A map that is not walked gives its type and its length. */
  lemma MapSummary(h: Cells, cfg: Config, c: Call, typ: string, es: seq<Entry<nat>>)
    requires Valid(h, cfg) && c.addr in h && Stop(h, cfg, c).None? && !cfg.parseMaps
    requires h[c.addr].content == Map(typ, false, es)
    ensures var d := DumpOf(h, cfg, c);
      && d.Obj? && DistinctKeys(d.members)
      && forall m :: m in d.members <==> m == Member("type", Plain(Words(typ))) || m == Member("len", Number(|es|))
  {
    var ms := DumpOf(h, cfg, c).members;
    assert ms[0].key == "type" && ms[1].key == "len" && ms[0].key[0] != ms[1].key[0];
  }

  /** Entry `i` is the last of the first `n` with its key. */
  predicate EntryLast(es: seq<Entry<nat>>, n: nat, i: int) {
    0 <= i < n <= |es| && forall j | i < j < n :: es[j].key != es[i].key
  }

  ghost predicate FromEntry(es: seq<Entry<nat>>, n: nat, results: seq<Dump>, m: Member)
    requires n <= |results|
  {
    exists i :: EntryLast(es, n, i) && m == Member(es[i].key, results[i])
  }

  /** The different keys of the first `n` entries. */
  function FirstKeys(es: seq<Entry<nat>>, n: nat): (keys: set<string>)
    requires n <= |es|
    ensures |keys| <= n
    decreases n
  {
    if n == 0 then {} else FirstKeys(es, n - 1) + {es[n - 1].key}
  }

  lemma {:induction false} EntryKeys(es: seq<Entry<nat>>, n: nat, results: seq<Dump>)
    requires n <= |es| && n <= |results|
    ensures DistinctKeys(EntryMembers(es, n, results)) && KeysOf(EntryMembers(es, n, results)) == FirstKeys(es, n)
    decreases n
  {
    if n > 0 {
      EntryKeys(es, n - 1, results);
      PutDistinct(EntryMembers(es, n - 1, results), es[n - 1].key, results[n - 1]);
      PutKeySet(EntryMembers(es, n - 1, results), es[n - 1].key, results[n - 1]);
    }
  }

  lemma EntryCount(es: seq<Entry<nat>>, n: nat, results: seq<Dump>)
    requires n <= |es| && n <= |results|
    ensures DistinctKeys(EntryMembers(es, n, results)) && |EntryMembers(es, n, results)| == |FirstKeys(es, n)|
  {
    EntryKeys(es, n, results);
    DistinctCount(EntryMembers(es, n, results));
  }

  /** One member for each different key among the first `n`, holding the last value. */
  lemma {:induction false} EntryKept(es: seq<Entry<nat>>, n: nat, results: seq<Dump>, m: Member)
    requires n <= |es| && n <= |results|
    ensures m in EntryMembers(es, n, results) <==> FromEntry(es, n, results, m)
    decreases n
  {
    if n > 0 {
      EntryKept(es, n - 1, results, m);
      EntryCount(es, n - 1, results);
      PutOne(EntryMembers(es, n - 1, results), es[n - 1].key, results[n - 1], m);
      EntryStep(es, n, results, m);
    }
  }

  lemma EntryStep(es: seq<Entry<nat>>, n: nat, results: seq<Dump>, m: Member)
    requires 0 < n <= |es| && n <= |results|
    ensures FromEntry(es, n, results, m) <==>
            m == Member(es[n - 1].key, results[n - 1]) || (FromEntry(es, n - 1, results, m) && m.key != es[n - 1].key)
  {
    assert EntryLast(es, n, n - 1);
    forall i ensures EntryLast(es, n, i) <==> i == n - 1 || (EntryLast(es, n - 1, i) && es[i].key != es[n - 1].key) {
    }
  }

  /** `d` is the dump of entry `e` of the map at `c`. */
  ghost predicate EntryGives(h: Cells, cfg: Config, c: Call, e: Entry<nat>, d: Dump)
    requires Valid(h, cfg)
  {
    e.child in h && d == DumpOf(h, cfg, Call(e.child, c.depth + 1, c.visited))
  }

  /** `m` is the member of the last of the first `n` entries with its key, one level deeper. */
  ghost predicate EntryShown(h: Cells, cfg: Config, c: Call, es: seq<Entry<nat>>, n: nat, m: Member)
    requires Valid(h, cfg)
  {
    exists i :: EntryLast(es, n, i) && m.key == es[i].key && EntryGives(h, cfg, c, es[i], m.value)
  }

  function Retained(cfg: Config, es: seq<Entry<nat>>): (n: nat)
    ensures n <= |es|
  {
    var limit := if cfg.maxElements > 0 then cfg.maxElements else 20;
    if |es| <= limit then |es| else limit
  }

  /** What a map larger than the limit says of the entries that got no member of their own. */
  function Note(es: seq<Entry<nat>>, n: nat): Member
    requires n <= |es|
  {
    Member("...truncated", Omitted(|es| - |FirstKeys(es, n)|, |es|))
  }

  /** A map that is walked gives one member for each different key among the retained
      entries, holding the last value printed under it, since keys may print alike; and, when
      it is larger than the limit, a note that counts all entries without a member. */
  lemma MapAccounting(h: Cells, cfg: Config, c: Call, typ: string, es: seq<Entry<nat>>)
    requires Valid(h, cfg) && c.addr in h && Stop(h, cfg, c).None? && cfg.parseMaps
    requires h[c.addr].content == Map(typ, false, es)
    ensures var d, n := DumpOf(h, cfg, c), Retained(cfg, es);
      && d.Obj? && DistinctKeys(d.members)
      && forall m :: m in d.members <==>
           || (n < |es| && m == Note(es, n))
           || (EntryShown(h, cfg, c, es, n, m) && (n < |es| ==> m.key != "...truncated"))
  {
    var rs, d := KidDumps(h, cfg, c), DumpOf(h, cfg, c);
    MapDump(h, cfg, c, typ, es);
    MapMember(MapLimit(cfg), es, rs, Note(es, |rs|));
    forall m
      ensures m in d.members <==>
              || (|rs| < |es| && m == Note(es, |rs|))
              || (EntryShown(h, cfg, c, es, |rs|, m) && (|rs| < |es| ==> m.key != "...truncated"))
    {
      MapMember(MapLimit(cfg), es, rs, m);
      EntriesShown(h, cfg, c, es, rs, m);
    }
  }

  lemma EntriesShown(h: Cells, cfg: Config, c: Call, es: seq<Entry<nat>>, rs: seq<Dump>, m: Member)
    requires Valid(h, cfg) && c.addr in h && Stop(h, cfg, c).None? && cfg.parseMaps
    requires h[c.addr].content.Map? && !h[c.addr].content.isNil && h[c.addr].content.entries == es
    requires rs == KidDumps(h, cfg, c) && |rs| <= |es| && |rs| <= MapLimit(cfg)
    ensures FromEntry(es, |rs|, rs, m) <==> EntryShown(h, cfg, c, es, |rs|, m)
  {
    if FromEntry(es, |rs|, rs, m) {
      var i :| EntryLast(es, |rs|, i) && m == Member(es[i].key, rs[i]);
      EntryIsDump(h, cfg, c, es, i);
    }
    if EntryShown(h, cfg, c, es, |rs|, m) {
      var i :| EntryLast(es, |rs|, i) && m.key == es[i].key && EntryGives(h, cfg, c, es[i], m.value);
      EntryIsDump(h, cfg, c, es, i);
    }
  }

  lemma MapMember(limit: nat, es: seq<Entry<nat>>, results: seq<Dump>, m: Member)
    requires |results| == if limit < |es| then limit else |es|
    ensures var d, n := MapOf(limit, es, results), |results|;
      && d.Obj? && DistinctKeys(d.members)
      && (m in d.members <==>
           || (n < |es| && m == Note(es, n))
           || (FromEntry(es, n, results, m) && (n < |es| ==> m.key != "...truncated")))
  {
    var ms := EntryMembers(es, |results|, results);
    EntryKept(es, |results|, results, m);
    EntryCount(es, |results|, results);
    PutDistinct(ms, Note(es, |results|).key, Note(es, |results|).value);
    PutOne(ms, Note(es, |results|).key, Note(es, |results|).value, m);
  }

  lemma MapDump(h: Cells, cfg: Config, c: Call, typ: string, es: seq<Entry<nat>>)
    requires Valid(h, cfg) && c.addr in h && Stop(h, cfg, c).None? && cfg.parseMaps
    requires h[c.addr].content == Map(typ, false, es)
    ensures |KidDumps(h, cfg, c)| == if MapLimit(cfg) < |es| then MapLimit(cfg) else |es|
    ensures DumpOf(h, cfg, c) == MapOf(MapLimit(cfg), es, KidDumps(h, cfg, c))
  {
  }

  lemma EntryIsDump(h: Cells, cfg: Config, c: Call, es: seq<Entry<nat>>, i: nat)
    requires Valid(h, cfg) && c.addr in h && Stop(h, cfg, c).None? && cfg.parseMaps
    requires h[c.addr].content.Map? && !h[c.addr].content.isNil && h[c.addr].content.entries == es
    requires i < |es| && i < MapLimit(cfg) && i < |KidDumps(h, cfg, c)|
    ensures EntryGives(h, cfg, c, es[i], KidDumps(h, cfg, c)[i])
  {
    KidDumpAt(h, cfg, c, i);
  }

  // ----- structs -----

  predicate FieldLast(fs: seq<Field<nat>>, n: nat, i: int) {
    0 <= i < n <= |fs| && forall j | i < j < n :: fs[j].name != fs[i].name
  }

  function FieldValue(cfg: Config, addressable: bool, fs: seq<Field<nat>>, i: nat, results: seq<Dump>): Dump
    requires i < |fs| && |WalkedAt(cfg, addressable, fs, |fs|)| <= |results|
  {
    var text := FieldText(cfg, addressable, fs[i]);
    WalkedPrefix(cfg, addressable, fs, i + 1, |fs|);
    if text.Some? then Text(text.value) else results[|WalkedAt(cfg, addressable, fs, i)|]
  }

  ghost predicate FromField(cfg: Config, addressable: bool, fs: seq<Field<nat>>, n: nat, results: seq<Dump>, m: Member)
    requires |WalkedAt(cfg, addressable, fs, |fs|)| <= |results|
  {
    exists i :: FieldLast(fs, n, i) && m == Member(fs[i].name, FieldValue(cfg, addressable, fs, i, results))
  }

  lemma {:induction false} FieldsKept(cfg: Config, addressable: bool, fs: seq<Field<nat>>, n: nat, results: seq<Dump>)
    requires n <= |fs| && |WalkedAt(cfg, addressable, fs, |fs|)| <= |results|
    ensures |WalkedAt(cfg, addressable, fs, n)| <= |results|
    ensures DistinctKeys(FieldMembers(cfg, addressable, fs, n, results))
    ensures forall m :: m in FieldMembers(cfg, addressable, fs, n, results) <==>
                        FromField(cfg, addressable, fs, n, results, m)
    decreases n
  {
    WalkedPrefix(cfg, addressable, fs, n, |fs|);
    if n > 0 {
      FieldsKept(cfg, addressable, fs, n - 1, results);
      PutKeeps(FieldMembers(cfg, addressable, fs, n - 1, results), fs[n - 1].name,
               FieldValue(cfg, addressable, fs, n - 1, results));
      forall m
        ensures m in FieldMembers(cfg, addressable, fs, n, results) <==> FromField(cfg, addressable, fs, n, results, m)
      {
        FieldStep(cfg, addressable, fs, n, results, m);
      }
    }
  }

  lemma FieldStep(cfg: Config, addressable: bool, fs: seq<Field<nat>>, n: nat, results: seq<Dump>, m: Member)
    requires 0 < n <= |fs| && |WalkedAt(cfg, addressable, fs, |fs|)| <= |results|
    ensures FromField(cfg, addressable, fs, n, results, m) <==>
            m == Member(fs[n - 1].name, FieldValue(cfg, addressable, fs, n - 1, results))
            || (FromField(cfg, addressable, fs, n - 1, results, m) && m.key != fs[n - 1].name)
  {
    assert FieldLast(fs, n, n - 1);
    forall i ensures FieldLast(fs, n, i) <==> i == n - 1 || (FieldLast(fs, n - 1, i) && fs[i].name != fs[n - 1].name) {
    }
  }

  lemma FieldIsDump(h: Cells, cfg: Config, c: Call, fs: seq<Field<nat>>, i: nat)
    requires Valid(h, cfg) && c.addr in h && Stop(h, cfg, c).None?
    requires h[c.addr].content.Struct? && h[c.addr].content.fields == fs
    requires i < |fs| && FieldText(cfg, h[c.addr].addressable, fs[i]).None?
    ensures |KidDumps(h, cfg, c)| == |WalkedAt(cfg, h[c.addr].addressable, fs, |fs|)|
    ensures fs[i].child in h
    ensures FieldValue(cfg, h[c.addr].addressable, fs, i, KidDumps(h, cfg, c)) ==
            DumpOf(h, cfg, Call(fs[i].child, c.depth + 1, c.visited))
  {
    FieldKid(cfg, h[c.addr], fs, i);
    KidDumpAt(h, cfg, c, |WalkedAt(cfg, h[c.addr].addressable, fs, i)|);
  }

  lemma FieldKid(cfg: Config, cell: Cell<nat>, fs: seq<Field<nat>>, i: nat)
    requires cell.content.Struct? && cell.content.fields == fs
    requires i < |fs| && FieldText(cfg, cell.addressable, fs[i]).None?
    ensures |Kids(cfg, cell)| == |WalkedAt(cfg, cell.addressable, fs, |fs|)|
    ensures |WalkedAt(cfg, cell.addressable, fs, i)| < |Kids(cfg, cell)|
    ensures Kids(cfg, cell)[|WalkedAt(cfg, cell.addressable, fs, i)|] == fs[i].child
  {
    WalkedPrefix(cfg, cell.addressable, fs, i + 1, |fs|);
  }

  /** `m` is what field `f` of the struct at `c` gives: exported, it is walked one level
      deeper; unexported, only if that is allowed and the struct has an address, and otherwise
      a remark says which of the two is missing. */
  ghost predicate FieldShown(h: Cells, cfg: Config, c: Call, f: Field<nat>, m: Member)
    requires Valid(h, cfg) && c.addr in h
  {
    && m.key == f.name
    && (f.exported || (cfg.allowUnexported && h[c.addr].addressable) ==>
          f.child in h && m.value == DumpOf(h, cfg, Call(f.child, c.depth + 1, c.visited)))
    && (!f.exported && !cfg.allowUnexported ==> m.value == Text("<unexported>"))
    && (!f.exported && cfg.allowUnexported && !h[c.addr].addressable ==>
          m.value == Text("<unexported, not addressable>"))
  }

  /** A walked struct gives its type under "type" and, for each other name, the last field of
      that name, one level deeper or with the remark that it cannot be read. Only blank
      fields can share a name. */
  lemma StructAccounting(h: Cells, cfg: Config, c: Call, typ: string, fs: seq<Field<nat>>)
    requires Valid(h, cfg) && c.addr in h && Stop(h, cfg, c).None? && h[c.addr].content == Struct(typ, fs)
    ensures var d := DumpOf(h, cfg, c);
      && d.Obj? && DistinctKeys(d.members)
      && forall m :: m in d.members <==>
           || m == Member("type", Text(typ))
           || (m.key != "type" && exists i :: FieldLast(fs, |fs|, i) && FieldShown(h, cfg, c, fs[i], m))
  {
    SubAt(h, cfg, c);
    var rs, d := KidDumps(h, cfg, c), DumpOf(h, cfg, c);
    WalkedCount(cfg, h[c.addr]);
    FieldsKept(cfg, h[c.addr].addressable, fs, |fs|, rs);
    var ms := FieldMembers(cfg, h[c.addr].addressable, fs, |fs|, rs);
    assert d == Obj(Put(ms, "type", Text(typ)));
    PutKeeps(ms, "type", Text(typ));
    forall m ensures m in ms <==> exists i :: FieldLast(fs, |fs|, i) && FieldShown(h, cfg, c, fs[i], m) {
      FieldsShown(h, cfg, c, fs, rs, m);
    }
  }

  lemma FieldsShown(h: Cells, cfg: Config, c: Call, fs: seq<Field<nat>>, rs: seq<Dump>, m: Member)
    requires Valid(h, cfg) && c.addr in h && Stop(h, cfg, c).None?
    requires h[c.addr].content.Struct? && h[c.addr].content.fields == fs
    requires rs == KidDumps(h, cfg, c) && |rs| == |WalkedAt(cfg, h[c.addr].addressable, fs, |fs|)|
    ensures FromField(cfg, h[c.addr].addressable, fs, |fs|, rs, m) <==>
            exists i :: FieldLast(fs, |fs|, i) && FieldShown(h, cfg, c, fs[i], m)
  {
    if FromField(cfg, h[c.addr].addressable, fs, |fs|, rs, m) {
      var i :| FieldLast(fs, |fs|, i) && m == Member(fs[i].name, FieldValue(cfg, h[c.addr].addressable, fs, i, rs));
      FieldShownIff(h, cfg, c, fs, rs, i, m);
    }
    if i :| FieldLast(fs, |fs|, i) && FieldShown(h, cfg, c, fs[i], m) {
      FieldShownIff(h, cfg, c, fs, rs, i, m);
    }
  }

  lemma FieldShownIff(h: Cells, cfg: Config, c: Call, fs: seq<Field<nat>>, rs: seq<Dump>, i: nat, m: Member)
    requires Valid(h, cfg) && c.addr in h && Stop(h, cfg, c).None? && i < |fs|
    requires h[c.addr].content.Struct? && h[c.addr].content.fields == fs
    requires rs == KidDumps(h, cfg, c) && |rs| == |WalkedAt(cfg, h[c.addr].addressable, fs, |fs|)|
    ensures FieldShown(h, cfg, c, fs[i], m) <==>
            m == Member(fs[i].name, FieldValue(cfg, h[c.addr].addressable, fs, i, rs))
  {
    if FieldText(cfg, h[c.addr].addressable, fs[i]).None? {
      FieldIsDump(h, cfg, c, fs, i);
    }
  }
}
