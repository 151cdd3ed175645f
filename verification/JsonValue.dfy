/**
  JSON values without member order, the merge-patch function of section 2 of RFC 7396 on them, and
  when the patch generated for two values leads from one to the other.
  Source: liblinktool/cJSON/cJSON_Utils.c, lines 1315-1460.
 */
module JsonValue {

  /** A value; numbers are opaque. */
  datatype Value =
    | VNull
    | VBool(b: bool)
    | VNum(n: int)
    | VStr(s: string)
    | VArr(items: seq<Value>)
    | VObj(members: map<string, Value>)

  /** What a merge patch does to one member; nothing there counts like a value that is no object. */
  ghost function At(m: map<string, Value>, k: string): Value {
    if k in m then m[k] else VNull
  }

  /** MergePatch(target, patch) of RFC 7396, member by member. */
  ghost function Rfc(target: Value, patch: Value): Value
    decreases patch
  {
    if !patch.VObj? then patch
    else
      var m := if target.VObj? then target.members else map[];
      VObj(map k | k in m.Keys + patch.members.Keys && !(k in patch.members && patch.members[k] == VNull) ::
             if k in patch.members then Rfc(At(m, k), patch.members[k]) else m[k])
  }

  /** A member that is not the same in both. */
  ghost predicate Differs(f: map<string, Value>, t: map<string, Value>, k: string) {
    (k in f || k in t) && !(k in f && k in t && f[k] == t[k])
  }

  /** The patch from `f` to `t`: members that differ, null for those that go. */
  ghost function Diff(f: Value, t: Value): Value
    decreases t
  {
    if f.VObj? && t.VObj? then
      VObj(map k | k in f.members.Keys + t.members.Keys && Differs(f.members, t.members, k) ::
             if k !in t.members then VNull
             else if k !in f.members then t.members[k]
             else Diff(f.members[k], t.members[k]))
    else t
  }

  ghost function DiffMap(f: map<string, Value>, t: map<string, Value>): map<string, Value> {
    map k | k in f.Keys + t.Keys && Differs(f, t, k) ::
      if k !in t then VNull else if k !in f then t[k] else Diff(f[k], t[k])
  }

  lemma DiffOfObjects(f: map<string, Value>, t: map<string, Value>)
    ensures Diff(VObj(f), VObj(t)) == VObj(DiffMap(f, t))
  {
    assert Diff(VObj(f), VObj(t)).members == DiffMap(f, t);
  }

  /** No null members, except inside arrays. */
  ghost predicate Solid(t: Value)
    decreases t
  {
    t.VObj? ==> forall k :: k in t.members ==> t.members[k] != VNull && Solid(t.members[k])
  }

  /**
    Null members of `t` outside arrays are only where `f` has an equal member above or at that place:
    what the generated patch need not set.
   */
  ghost predicate Kept(f: Value, t: Value)
    decreases t
  {
    if !t.VObj? then true
    else if !f.VObj? then Solid(t)
    else
      forall k :: k in t.members ==>
        || (k in f.members && f.members[k] == t.members[k])
        || (t.members[k] != VNull && if k in f.members then Kept(f.members[k], t.members[k]) else Solid(t.members[k]))
  }

  ghost predicate KeptAt(f: map<string, Value>, t: map<string, Value>, k: string)
    requires k in t
  {
    || (k in f && f[k] == t[k])
    || (t[k] != VNull && if k in f then Kept(f[k], t[k]) else Solid(t[k]))
  }

  // ---------------------------------------------------------------- the round trip on values

  /** A patch applied where there is no object arrives unchanged exactly if it has no null members. */
  lemma {:induction false} OntoNothing(f: Value, t: Value)
    requires !f.VObj?
    ensures Rfc(f, t) == t <==> Solid(t)
    decreases t
  {
    if t.VObj? {
      var r := Rfc(f, t);
      forall k | k in t.members ensures Rfc(VNull, t.members[k]) == t.members[k] <==> Solid(t.members[k]) {
        OntoNothing(VNull, t.members[k]);
      }
      if Solid(t) {
        assert r.members == t.members;
      }
      if r == t {
        forall k | k in t.members ensures t.members[k] != VNull && Solid(t.members[k]) {
          assert k in r.members;
        }
      }
    }
  }

  /** Applying the generated patch gives the goal exactly if no null member has to be set. */
  lemma {:induction false} RoundTrip(f: Value, t: Value)
    ensures Rfc(f, Diff(f, t)) == t <==> Kept(f, t)
    decreases t
  {
    if !t.VObj? {
    } else if !f.VObj? {
      OntoNothing(f, t);
    } else {
      forall k | k in t.members ensures ArrivesAt(f.members, t.members, k) <==> KeptAt(f.members, t.members, k) {
        if k in f.members {
          RoundTrip(f.members[k], t.members[k]);
        } else {
          OntoNothing(VNull, t.members[k]);
        }
      }
      PointWise(f.members, t.members);
      assert Kept(f, t) <==> forall k :: k in t.members ==> KeptAt(f.members, t.members, k);
    }
  }

  /** Member `k` of the goal arrives: it is not changed, or set to a value that is not null. */
  ghost predicate ArrivesAt(f: map<string, Value>, t: map<string, Value>, k: string)
    requires k in t
  {
    var p := DiffMap(f, t);
    if k in p then p[k] != VNull && Rfc(At(f, k), p[k]) == t[k] else true
  }

  lemma PointWise(f: map<string, Value>, t: map<string, Value>)
    ensures Rfc(VObj(f), Diff(VObj(f), VObj(t))) == VObj(t) <==> forall k :: k in t ==> ArrivesAt(f, t, k)
  {
    DiffOfObjects(f, t);
    var p, r := DiffMap(f, t), Rfc(VObj(f), VObj(DiffMap(f, t))).members;
    if r == t {
      forall k | k in t ensures ArrivesAt(f, t, k) {
        assert k in r;
      }
    }
    if forall k :: k in t ==> ArrivesAt(f, t, k) {
      forall k | k in t ensures k in r && r[k] == t[k] {
        assert ArrivesAt(f, t, k);
      }
      assert r == t;
    }
  }

  /** In particular it does for every goal without null members outside arrays. */
  lemma {:induction false} SolidIsKept(f: Value, t: Value)
    requires Solid(t)
    ensures Kept(f, t)
    decreases t
  {
    if f.VObj? && t.VObj? {
      forall k | k in t.members ensures KeptAt(f.members, t.members, k) {
        if k in f.members { SolidIsKept(f.members[k], t.members[k]); }
      }
    }
  }

  /** From {} to {"a":null}: the patch sets "a" to null, and applying it removes what is not there. */
  lemma NullIsNotSet()
    ensures var f, t := VObj(map[]), VObj(map["a" := VNull]);
            Diff(f, t) == t && Rfc(f, Diff(f, t)) == f != t && !Kept(f, t)
  {
    var f, t := VObj(map[]), VObj(map["a" := VNull]);
    assert Diff(f, t).members == t.members;
    assert Rfc(f, t).members == map[];
    assert "a" in t.members;
  }
}
