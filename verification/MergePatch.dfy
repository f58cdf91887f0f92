/** JSON documents, the merge-patch diff that `createJSONPatch` stores and its
    application as defined by section 2 of RFC 7396. */
module MergePatch {
  import opened Wrappers

  /** A number is kept as its literal text: two dumps agree on a number exactly
      when they print it alike. */
  datatype Json =
    | Null
    | Bool(b: bool)
    | Number(literal: string)
    | String(s: string)
    | Array(elems: seq<Json>)
    | Object(members: map<string, Json>)

  /** The patch entry for key `k`: a new or changed member carries its new value,
      a deleted one `null`, two objects their own diff, and an unchanged member
      nothing at all. */
  function DiffAt(a: Json, b: Json, k: string): Option<Json>
    requires a.Object? && b.Object?
    decreases b, 0
  {
    if k !in b.members then
      if k in a.members then Some(Null) else None
    else if k !in a.members then
      Some(b.members[k])
    else if a.members[k].Object? && b.members[k].Object? then
      var d := Diff(a.members[k], b.members[k]);
      if d == map[] then None else Some(Object(d))
    else if a.members[k] == b.members[k] then
      None
    else
      Some(b.members[k])
  }

  function Diff(a: Json, b: Json): map<string, Json>
    requires a.Object? && b.Object?
    decreases b, 1
  {
    map k | k in a.members.Keys + b.members.Keys && DiffAt(a, b, k).Some? :: DiffAt(a, b, k).value
  }

  function MembersOf(target: Option<Json>): map<string, Json> {
    if target.Some? && target.value.Object? then target.value.members else map[]
  }

  /** MergePatch(Target, Patch) of section 2 of RFC 7396; `None` is an undefined target. */
  function Apply(target: Option<Json>, patch: Json): Json
    decreases patch
  {
    if !patch.Object? then patch
    else
      var t := MembersOf(target);
      Object(map k | k in t.Keys + patch.members.Keys && !(k in patch.members && patch.members[k].Null?) ::
               if k in patch.members
               then Apply(if k in t then Some(t[k]) else None, patch.members[k])
               else t[k])
  }

  /** `j` without the null members of its objects; arrays are left alone. */
  function Prune(j: Json): Json {
    if !j.Object? then j
    else Object(map k | k in j.members && !j.members[k].Null? :: Prune(j.members[k]))
  }

  predicate NullFree(j: Json) {
    j.Object? ==> forall k | k in j.members :: !j.members[k].Null? && NullFree(j.members[k])
  }

  /** Every null member of `b` is already null at the same place of `a`. */
  predicate NullsKept(a: Json, b: Json)
    requires a.Object? && b.Object?
  {
    forall k | k in b.members ::
      if b.members[k].Null? then k in a.members && a.members[k].Null?
      else if k in a.members && a.members[k].Object? && b.members[k].Object? then NullsKept(a.members[k], b.members[k])
      else NullFree(b.members[k])
  }

  lemma {:induction false} ApplyToNonObject(t: Option<Json>, p: Json)
    requires MembersOf(t) == map[]
    ensures Apply(t, p) == Prune(p)
    decreases p
  {
    if p.Object? {
      forall k | k in p.members ensures Apply(None, p.members[k]) == Prune(p.members[k]) {
        ApplyToNonObject(None, p.members[k]);
      }
      assert Apply(t, p).members == Prune(p).members;
    }
  }

  lemma {:induction false} PruneFixpoint(j: Json)
    ensures Prune(j) == j <==> NullFree(j)
  {
    if j.Object? {
      forall k | k in j.members ensures Prune(j.members[k]) == j.members[k] <==> NullFree(j.members[k]) {
        PruneFixpoint(j.members[k]);
      }
      var p := Prune(j).members;
      if Prune(j) == j {
        forall k | k in j.members ensures !j.members[k].Null? && NullFree(j.members[k]) {
          assert k in p && p[k] == Prune(j.members[k]);
        }
      }
      if NullFree(j) {
        assert p == j.members;
      }
    }
  }

  lemma {:induction false} PruneIdempotent(j: Json)
    ensures NullFree(Prune(j))
    ensures Prune(Prune(j)) == Prune(j)
  {
    if j.Object? {
      forall k | k in j.members ensures NullFree(Prune(j.members[k])) {
        PruneIdempotent(j.members[k]);
      }
    }
    PruneFixpoint(Prune(j));
  }

  /** A patch is empty exactly when there is nothing to patch. */
  lemma {:induction false} DiffEmpty(a: Json, b: Json)
    requires a.Object? && b.Object?
    ensures Diff(a, b) == map[] <==> a == b
    decreases b
  {
    forall k | k in a.members && k in b.members && a.members[k].Object? && b.members[k].Object?
      ensures Diff(a.members[k], b.members[k]) == map[] <==> a.members[k] == b.members[k]
    {
      DiffEmpty(a.members[k], b.members[k]);
    }
    var keys := a.members.Keys + b.members.Keys;
    if a == b {
      assert forall k :: k in keys ==> DiffAt(a, b, k).None?;
    } else {
      if forall k :: k in keys ==> DiffAt(a, b, k).None? {
        assert false;
      }
      var k :| k in keys && DiffAt(a, b, k).Some?;
      assert k in Diff(a, b);
    }
  }

  /** A patch has an entry for exactly the members that differ, and what it says of a member
      of both documents that is not an object in both is the new value. */
  lemma DiffKeys(a: Json, b: Json, k: string)
    requires a.Object? && b.Object?
    ensures k in Diff(a, b) <==>
            (k in a.members) != (k in b.members) || (k in a.members && k in b.members && a.members[k] != b.members[k])
    ensures k in Diff(a, b) ==>
              if k !in b.members then Diff(a, b)[k] == Null
              else if k in a.members && a.members[k].Object? && b.members[k].Object?
              then Diff(a, b)[k] == Object(Diff(a.members[k], b.members[k]))
              else Diff(a, b)[k] == b.members[k]
  {
    if k in a.members && k in b.members && a.members[k].Object? && b.members[k].Object? {
      DiffEmpty(a.members[k], b.members[k]);
    }
  }

  /** What the patched document holds at `k`. */
  lemma PatchedAt(a: Json, b: Json, k: string)
    requires a.Object? && b.Object?
    ensures var r := Apply(Some(a), Object(Diff(a, b)));
      r.Object? &&
      match DiffAt(a, b, k)
      case None => k in r.members <==> k in a.members
      case Some(v) => k in r.members <==> !v.Null?
    ensures var r := Apply(Some(a), Object(Diff(a, b)));
      k in r.members ==>
        r.members[k] == match DiffAt(a, b, k)
          case None => a.members[k]
          case Some(v) => Apply(if k in a.members then Some(a.members[k]) else None, v)
  {
  }

  /** Round trip: the stored patch gives the new document back, up to null members. */
  lemma {:induction false} RoundTrip(a: Json, b: Json)
    requires a.Object? && b.Object?
    ensures Prune(Apply(Some(a), Object(Diff(a, b)))) == Prune(b)
    decreases b
  {
    var r := Apply(Some(a), Object(Diff(a, b)));
    forall k: string
      ensures k in Prune(r).members <==> k in Prune(b).members
      ensures k in Prune(b).members ==> Prune(r).members[k] == Prune(b).members[k]
    {
      PatchedAt(a, b, k);
      RoundTripAt(a, b, k);
    }
    assert Prune(r).members == Prune(b).members;
  }

  lemma {:induction false} RoundTripAt(a: Json, b: Json, k: string)
    requires a.Object? && b.Object?
    ensures var r := Apply(Some(a), Object(Diff(a, b)));
      k in b.members && !b.members[k].Null? ==>
        k in r.members && !r.members[k].Null? && Prune(r.members[k]) == Prune(b.members[k])
    ensures var r := Apply(Some(a), Object(Diff(a, b)));
      !(k in b.members && !b.members[k].Null?) ==> k in r.members ==> r.members[k].Null?
    decreases b, 0
  {
    PatchedAt(a, b, k);
    if k in b.members && k in a.members && a.members[k].Object? && b.members[k].Object? {
      RoundTrip(a.members[k], b.members[k]);
      DiffEmpty(a.members[k], b.members[k]);
    } else if k in b.members && !b.members[k].Null? && DiffAt(a, b, k).Some? {
      var t := if k in a.members then Some(a.members[k]) else None;
      if b.members[k].Object? {
        ApplyToNonObject(t, b.members[k]);
        PruneIdempotent(b.members[k]);
      }
    }
  }

  /** The patch gives the new document back exactly if and only if each of its
      null members was null before. */
  lemma {:induction false} ExactRoundTrip(a: Json, b: Json)
    requires a.Object? && b.Object?
    ensures Apply(Some(a), Object(Diff(a, b))) == b <==> NullsKept(a, b)
    decreases b
  {
    var r := Apply(Some(a), Object(Diff(a, b)));
    forall k: string
      ensures ExactAt(a, b, r, k) <==>
        (k in b.members ==>
          if b.members[k].Null? then k in a.members && a.members[k].Null?
          else if k in a.members && a.members[k].Object? && b.members[k].Object?
          then NullsKept(a.members[k], b.members[k])
          else NullFree(b.members[k]))
    {
      PatchedAt(a, b, k);
      if k in b.members && k in a.members && a.members[k].Object? && b.members[k].Object? {
        ExactRoundTrip(a.members[k], b.members[k]);
        DiffEmpty(a.members[k], b.members[k]);
        assert Diff(b.members[k], b.members[k]) == map[] by { DiffEmpty(b.members[k], b.members[k]); }
        if a.members[k] == b.members[k] {
          assert Apply(Some(a.members[k]), Object(map[])).members == a.members[k].members;
        }
      } else if k in b.members && !b.members[k].Null? {
        PruneFixpoint(b.members[k]);
        if DiffAt(a, b, k).Some? && b.members[k].Object? {
          ApplyToNonObject(if k in a.members then Some(a.members[k]) else None, b.members[k]);
        }
      }
    }
    if forall k: string :: ExactAt(a, b, r, k) {
      assert r.members == b.members by {
        forall k: string ensures k in r.members <==> k in b.members
          ensures k in r.members && k in b.members ==> r.members[k] == b.members[k]
        { assert ExactAt(a, b, r, k); }
      }
    } else {
      var k: string :| !ExactAt(a, b, r, k);
      assert r.members != b.members;
    }
  }

  ghost predicate ExactAt(a: Json, b: Json, r: Json, k: string)
    requires a.Object? && b.Object? && r.Object?
  {
    (k in r.members <==> k in b.members) && (k in b.members ==> r.members[k] == b.members[k])
  }
}
