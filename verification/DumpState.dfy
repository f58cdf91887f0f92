/** The dumper with its `visited` map updated in place. */
module DumpStateObject {
  import opened Wrappers
  import opened Heap
  import opened DumperWalk
  import opened Dumper
  import opened DumperTree

  /** One round of the field loop. */
  lemma FieldStep<T>(cfg: Config, addressable: bool, fs: seq<Field<T>>, i: nat, results: seq<Dump>)
    requires i < |fs| && |results| == |WalkedAt(cfg, addressable, fs, |fs|)|
    ensures var text := FieldText(cfg, addressable, fs[i]);
      var walked, walked' := |WalkedAt(cfg, addressable, fs, i)|, |WalkedAt(cfg, addressable, fs, i + 1)|;
      && walked' == walked + (if text.None? then 1 else 0)
      && walked <= walked' <= |results|
      && FieldMembers(cfg, addressable, fs, i + 1, results) ==
         Put(FieldMembers(cfg, addressable, fs, i, results), fs[i].name,
             if text.Some? then Text(text.value) else results[walked])
  {
    WalkedPrefix(cfg, addressable, fs, i + 1, |fs|);
  }

  /** The dumps of the kids of `c`, in order. */
  ghost function Results(h: Cells, cfg: Config, c: Call): (rs: seq<Dump>)
    requires Valid(h, cfg) && c.addr in h && Stop(h, cfg, c).None?
    ensures |rs| == |Kids(cfg, h[c.addr])|
  {
    SubAt(h, cfg, c);
    KidDumps(h, cfg, c)
  }

  class DumpState {
    const h: Cells
    const cfg: Config
    var visited: map<nat, int>

    constructor (h: Cells, cfg: Config)
      ensures this.h == h && this.cfg == cfg && visited == map[]
    {
      this.h, this.cfg, visited := h, cfg, map[];
    }

    ghost function At(a: nat, depth: int): Call
      reads this
    {
      Call(a, depth, visited.Keys)
    }

    /** The call at `a` is `c`, and it calls further. */
    ghost predicate Goes(a: nat, depth: int, c: Call)
      reads this
    {
      Valid(h, cfg) && a in h && c == At(a, depth) && Stop(h, cfg, c).None?
    }

    /** Every call leaves `visited` as it found it. */
    method DumpWithDepth(a: nat, depth: int) returns (r: Dump)
      requires Valid(h, cfg) && a in h
      modifies this
      ensures visited == old(visited)
      ensures r == DumpOf(h, cfg, old(At(a, depth)))
      decreases Remaining(cfg, At(a, depth)), |FreshSlots(h, visited.Keys)|, Rank(h, cfg, At(a, depth)), 4
    {
      ghost var c := At(a, depth);
      var large := LargeText(h, cfg, a);
      if large.Some? {
        return Text(large.value);
      }
      var content := h[a].content;
      if CutOff(cfg, content, depth) {
        return Truncated(LenInfo(content), depth);
      }
      if content.Ptr? {
        r := DumpPtr(a, depth);
        return;
      }
      if content.Iface? {
        if content.box.None? {
          return NULL;
        }
        r := DumpKid(a, depth, 0, c);
      } else if content.Struct? {
        r := DumpStruct(a, depth, c);
      } else if content.Slice? {
        if content.isNil {
          return NULL;
        }
        r := DumpList(a, depth, content.elems, c);
      } else if content.Array? {
        r := DumpList(a, depth, content.items, c);
      } else if content.Map? {
        r := DumpMap(a, depth, c);
      } else if content.Bytes? {
        r := Text(content.text);
      } else {
        r := Plain(content.scalar);
      }
      assert r == Combine(cfg, h[a], Results(h, cfg, c));
    }

    /** The walk into kid `k`, as any dumper but the pointer's makes it. */
    method DumpKid(a: nat, depth: int, k: nat, ghost c: Call) returns (r: Dump)
      requires Goes(a, depth, c) && k < |Kids(cfg, h[a])| && !(h[a].content.Ptr? && h[a].addressable)
      modifies this
      ensures visited == old(visited)
      ensures r == Results(h, cfg, c)[k]
      decreases Remaining(cfg, c), |FreshSlots(h, c.visited)|, Rank(h, cfg, c), 0
    {
      SubAt(h, cfg, c);
      SubSmaller(h, cfg, c, k);
      KidDumpAt(h, cfg, c, k);
      r := DumpWithDepth(Kids(cfg, h[a])[k], DepthBelow(h[a].content, depth));
    }

    method DumpPtr(a: nat, depth: int) returns (r: Dump)
      requires Valid(h, cfg) && a in h && h[a].content.Ptr?
      requires LargeText(h, cfg, a).None? && !CutOff(cfg, h[a].content, depth)
      modifies this
      ensures visited == old(visited)
      ensures r == DumpOf(h, cfg, old(At(a, depth)))
      decreases Remaining(cfg, At(a, depth)), |FreshSlots(h, visited.Keys)|, Rank(h, cfg, At(a, depth)), 2
    {
      ghost var c := At(a, depth);
      var canAddr := h[a].addressable;
      if canAddr {
        if a in visited {
          return Circular(a);
        }
        visited := visited[a := depth];
      }
      assert visited.Keys == VisitedBelow(h, c);
      SubAt(h, cfg, c);
      if h[a].content.target.None? {
        r := NULL;
      } else {
        SubSmaller(h, cfg, c, 0);
        KidDumpAt(h, cfg, c, 0);
        r := DumpWithDepth(h[a].content.target.value, depth);
      }
      if canAddr {
        visited := visited - {a};
      }
    }

    method DumpStruct(a: nat, depth: int, ghost c: Call) returns (r: Dump)
      requires Goes(a, depth, c) && h[a].content.Struct?
      modifies this
      ensures visited == old(visited)
      ensures r == Combine(cfg, h[a], Results(h, cfg, c))
      decreases Remaining(cfg, c), |FreshSlots(h, c.visited)|, Rank(h, cfg, c), 3
    {
      var m := DumpFields(a, depth, h[a].content.fields, h[a].addressable, c, Results(h, cfg, c));
      m := Put(m, "type", Text(h[a].content.typ));
      r := Obj(m);
    }

    method DumpField(a: nat, depth: int, text: Option<string>, walked: nat, ghost c: Call) returns (r: Dump)
      requires Goes(a, depth, c) && h[a].content.Struct? && (text.None? ==> walked < |Results(h, cfg, c)|)
      modifies this
      ensures visited == old(visited)
      ensures r == if text.Some? then Text(text.value) else Results(h, cfg, c)[walked]
      decreases Remaining(cfg, c), |FreshSlots(h, c.visited)|, Rank(h, cfg, c), 1
    {
      if text.Some? {
        r := Text(text.value);
      } else {
        r := DumpKid(a, depth, walked, c);
      }
    }

    method DumpFields(a: nat, depth: int, fs: seq<Field<nat>>, addressable: bool, ghost c: Call,
                      ghost results: seq<Dump>)
      returns (m: seq<Member>)
      requires Goes(a, depth, c) && h[a].content.Struct? && results == Results(h, cfg, c)
      requires fs == h[a].content.fields && addressable == h[a].addressable
      modifies this
      ensures visited == old(visited)
      ensures |WalkedAt(cfg, addressable, fs, |fs|)| == |results|
      ensures m == FieldMembers(cfg, addressable, fs, |fs|, results)
      decreases Remaining(cfg, c), |FreshSlots(h, c.visited)|, Rank(h, cfg, c), 2
    {
      WalkedCount(cfg, h[a]);
      m := [];
      var walked := 0;
      var i := 0;
      while i < |fs|
        invariant 0 <= i <= |fs| && visited == old(visited)
        invariant walked == |WalkedAt(cfg, addressable, fs, i)| <= |results|
        invariant m == FieldMembers(cfg, addressable, fs, i, results)
      {
        FieldStep(cfg, addressable, fs, i, results);
        var text := FieldText(cfg, addressable, fs[i]);
        var value := DumpField(a, depth, text, walked, c);
        if text.None? {
          walked := walked + 1;
        }
        m := Put(m, fs[i].name, value);
        i := i + 1;
      }
    }

    /** `sliceDumper` and `arrayDumper` on elements other than bytes. */
    method DumpList(a: nat, depth: int, xs: seq<nat>, ghost c: Call) returns (r: Dump)
      requires Goes(a, depth, c) && (h[a].content == Slice(false, xs) || h[a].content == Array(xs))
      modifies this
      ensures visited == old(visited)
      ensures r == Combine(cfg, h[a], Results(h, cfg, c))
      decreases Remaining(cfg, c), |FreshSlots(h, c.visited)|, Rank(h, cfg, c), 2
    {
      var maxElem := ListLimit(cfg);
      var limit := if |xs| > maxElem then maxElem else |xs|;
      var arr := DumpItems(a, depth, limit, c);
      if |xs| > maxElem {
        arr := arr + [Omitted(|xs| - maxElem, |xs|)];
      }
      r := Arr(arr);
    }

    method DumpItems(a: nat, depth: int, limit: nat, ghost c: Call) returns (arr: seq<Dump>)
      requires Goes(a, depth, c) && !Unwraps(h[a].content) && limit == |Kids(cfg, h[a])|
      modifies this
      ensures visited == old(visited)
      ensures arr == Results(h, cfg, c)
      decreases Remaining(cfg, c), |FreshSlots(h, c.visited)|, Rank(h, cfg, c), 1
    {
      arr := [];
      var i := 0;
      while i < limit
        invariant 0 <= i <= limit && visited == old(visited)
        invariant arr == Results(h, cfg, c)[..i]
      {
        var item := DumpKid(a, depth, i, c);
        arr := arr + [item];
        i := i + 1;
      }
    }

    method DumpMap(a: nat, depth: int, ghost c: Call) returns (r: Dump)
      requires Goes(a, depth, c) && h[a].content.Map?
      modifies this
      ensures visited == old(visited)
      ensures r == Combine(cfg, h[a], Results(h, cfg, c))
      decreases Remaining(cfg, c), |FreshSlots(h, c.visited)|, Rank(h, cfg, c), 2
    {
      var es := h[a].content.entries;
      if h[a].content.isNil {
        return NULL;
      }
      if !cfg.parseMaps {
        return Obj([Member("type", Text(h[a].content.typ)), Member("len", Number(|es|))]);
      }
      var maxElem := MapLimit(cfg);
      var processCount := if |es| > maxElem then maxElem else |es|;
      var m := DumpEntries(a, depth, es, processCount, c);
      if |es| > maxElem {
        m := Put(m, "...truncated", Omitted(|es| - |m|, |es|));
      }
      r := Obj(m);
    }

    method DumpEntries(a: nat, depth: int, es: seq<Entry<nat>>, count: nat, ghost c: Call) returns (m: seq<Member>)
      requires Goes(a, depth, c) && !Unwraps(h[a].content) && count == |Kids(cfg, h[a])| <= |es|
      modifies this
      ensures visited == old(visited)
      ensures m == EntryMembers(es, count, Results(h, cfg, c))
      decreases Remaining(cfg, c), |FreshSlots(h, c.visited)|, Rank(h, cfg, c), 1
    {
      m := [];
      var i := 0;
      while i < count
        invariant 0 <= i <= count && visited == old(visited)
        invariant m == EntryMembers(es, i, Results(h, cfg, c))
      {
        var value := DumpKid(a, depth, i, c);
        m := Put(m, es[i].key, value);
        i := i + 1;
      }
    }

    /** `dump`, the entry point, on a fresh state. */
    method Dump(a: nat) returns (r: Dump)
      requires Valid(h, cfg) && a in h && visited == map[]
      modifies this
      ensures visited == map[] && r == DumpOf(h, cfg, Call(a, -1, {}))
    {
      assert visited.Keys == {};
      r := DumpWithDepth(a, -1);
    }
  }
}
