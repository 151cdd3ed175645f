/**
  Applying merge patches.
  Source: liblinktool/cJSON/cJSON_Utils.c, lines 1315-1384, and the object functions of
  liblinktool/cJSON/cJSON.c, lines 1874-1904, 2014-2049 and 2190-2263.
 */
module JsonPatch {
  import opened JsonTree
  import opened JsonValue
  import opened Wrappers

  /** A missing tree counts like one that is no object. */
  ghost function DenoteOpt(j: Option<Json>, cs: bool): Value {
    if j.Some? then Denote(j.value, cs) else VNull
  }

  /** No object has a key twice, as far as a merge goes into the tree: not inside arrays. */
  ghost predicate Spine(j: Json, cs: bool)
    decreases j
  {
    match j
    case Obj(ms) => DistinctKeys(ms, cs) && forall i :: 0 <= i < |ms| ==> Spine(ms[i].value, cs)
    case _ => true
  }

  ghost predicate SpineMembers(ms: seq<Member>, cs: bool) {
    DistinctKeys(ms, cs) && forall m :: m in ms ==> Spine(m.value, cs)
  }

  lemma SpineObj(j: Json, cs: bool)
    requires j.Obj?
    ensures Spine(j, cs) <==> SpineMembers(j.members, cs)
  {
    var ms := j.members;
    if SpineMembers(ms, cs) {
      forall i | 0 <= i < |ms| ensures Spine(ms[i].value, cs) {
        assert ms[i] in ms;
      }
    }
  }

  lemma {:induction false} ProperSpine(j: Json, cs: bool)
    requires Proper(j, cs)
    ensures Spine(j, cs)
    decreases j
  {
    if j.Obj? {
      forall i | 0 <= i < |j.members| ensures Spine(j.members[i].value, cs) { ProperSpine(j.members[i].value, cs); }
    }
  }

  ghost predicate SpineOpt(j: Option<Json>, cs: bool) {
    j.Some? ==> Spine(j.value, cs)
  }

  // ---------------------------------------------------------------- members by key

  /** get_object_item: the position of the first member with that key, or the length. */
  method GetObjectItem(ms: seq<Member>, key: string, cs: bool) returns (i: int)
    ensures 0 <= i <= |ms| && (i < |ms| ==> Fold(ms[i].key, cs) == Fold(key, cs))
    ensures i == |ms| <==> !HasKey(ms, Fold(key, cs), cs)
  {
    i := 0;
    while i < |ms| && CompareStrings(key, ms[i].key, cs) != 0
      invariant 0 <= i <= |ms| && forall k :: 0 <= k < i ==> Fold(ms[k].key, cs) != Fold(key, cs)
    {
      CompareZero(Fold(key, cs), Fold(ms[i].key, cs));
      i := i + 1;
    }
    if i < |ms| { CompareZero(Fold(key, cs), Fold(ms[i].key, cs)); }
  }

  function Without(ms: seq<Member>, i: int): seq<Member>
    requires 0 <= i < |ms|
  {
    ms[..i] + ms[i + 1..]
  }

  lemma WithoutSpine(ms: seq<Member>, i: int, cs: bool)
    requires SpineMembers(ms, cs) && 0 <= i < |ms|
    ensures SpineMembers(Without(ms, i), cs)
    ensures forall m :: m in Without(ms, i) ==> m in ms && Fold(m.key, cs) != Fold(ms[i].key, cs)
  {
    hide Spine, Fold;
    var r := Without(ms, i);
    forall m | m in r ensures m in ms && Fold(m.key, cs) != Fold(ms[i].key, cs) {
      var k :| 0 <= k < |r| && r[k] == m;
      assert m == ms[if k < i then k else k + 1];
    }
  }

  lemma WithoutHas(ms: seq<Member>, i: int, k: string, cs: bool)
    requires 0 <= i < |ms| && HasKey(ms, k, cs) && k != Fold(ms[i].key, cs)
    ensures HasKey(Without(ms, i), k, cs)
  {
    var j :| 0 <= j < |ms| && Fold(ms[j].key, cs) == k;
    assert Fold(Without(ms, i)[if j < i then j else j - 1].key, cs) == k;
  }

  lemma WithoutDenotes(ms: seq<Member>, i: int, cs: bool)
    requires SpineMembers(ms, cs) && 0 <= i < |ms|
    ensures DenoteMembers(Without(ms, i), cs) == DenoteMembers(ms, cs) - {Fold(ms[i].key, cs)}
  {
    hide Spine, Fold, DenoteMembers, Without;
    var r := Without(ms, i);
    WithoutSpine(ms, i, cs);
    var x, y := DenoteMembers(r, cs), DenoteMembers(ms, cs);
    forall k | k in x ensures k in y && k != Fold(ms[i].key, cs) && y[k] == x[k] {
      Carried(r, ms, k, cs);
      KeysOf(r, k, cs);
      var j :| 0 <= j < |r| && Fold(r[j].key, cs) == k;
      assert r[j] in r;
    }
    forall k | k in y && k != Fold(ms[i].key, cs) ensures k in x {
      KeysOf(ms, k, cs);
      WithoutHas(ms, i, k, cs);
      KeysOf(r, k, cs);
    }
  }

  /** cJSON_DetachItemFromObject */
  method Detach(ms: seq<Member>, key: string, cs: bool) returns (rest: seq<Member>, item: Option<Json>)
    requires SpineMembers(ms, cs)
    ensures SpineMembers(rest, cs) && DenoteMembers(rest, cs) == DenoteMembers(ms, cs) - {Fold(key, cs)}
    ensures DenoteOpt(item, cs) == At(DenoteMembers(ms, cs), Fold(key, cs)) && SpineOpt(item, cs)
    ensures item.Some? <==> Fold(key, cs) in DenoteMembers(ms, cs)
  {
    var i := GetObjectItem(ms, key, cs);
    KeysOf(ms, Fold(key, cs), cs);
    if i == |ms| {
      assert DenoteMembers(ms, cs) - {Fold(key, cs)} == DenoteMembers(ms, cs);
      return ms, None;
    }
    ValueOf(ms, i, cs);
    WithoutSpine(ms, i, cs);
    WithoutDenotes(ms, i, cs);
    assert ms[i] in ms;
    rest, item := Without(ms, i), Some(ms[i].value);
  }

  /** cJSON_AddItemToObject */
  lemma Appended(ms: seq<Member>, m: Member, cs: bool)
    requires SpineMembers(ms, cs) && Spine(m.value, cs) && Fold(m.key, cs) !in DenoteMembers(ms, cs)
    ensures SpineMembers(ms + [m], cs)
    ensures DenoteMembers(ms + [m], cs) == DenoteMembers(ms, cs)[Fold(m.key, cs) := Denote(m.value, cs)]
  {
    KeysOf(ms, Fold(m.key, cs), cs);
    AppendedSpine(ms, m, cs);
    var r := ms + [m];
    assert r[..|r| - 1] == ms;
  }

  lemma AppendedSpine(ms: seq<Member>, m: Member, cs: bool)
    requires SpineMembers(ms, cs) && Spine(m.value, cs) && !HasKey(ms, Fold(m.key, cs), cs)
    ensures SpineMembers(ms + [m], cs)
  {
    hide Spine, Fold;
    var r := ms + [m];
    forall i, j | 0 <= i < j < |r| ensures Fold(r[i].key, cs) != Fold(r[j].key, cs) {
      assert r[i] == ms[i];
    }
  }

  // ---------------------------------------------------------------- applying a patch

  /** What a patch makes of a value: its members are applied one after the other, even if a key comes twice. */
  ghost function Applied(target: Value, patch: Json, cs: bool): Value
    decreases patch, 2
  {
    if !patch.Obj? then Denote(patch, cs)
    else VObj(ApplyAll(if target.VObj? then target.members else map[], patch.members, cs))
  }

  ghost function ApplyAll(m: map<string, Value>, ps: seq<Member>, cs: bool): map<string, Value>
    decreases ps, 0
  {
    if ps == [] then m else ApplyAll(ApplyMember(m, ps[0], cs), ps[1..], cs)
  }

  /** One member of a patch: null removes. */
  ghost function ApplyMember(m: map<string, Value>, p: Member, cs: bool): map<string, Value>
    decreases p, 1
  {
    var k := Fold(p.key, cs);
    if p.value.Null? then m - {k} else m[k := Applied(At(m, k), p.value, cs)]
  }

  lemma {:induction false} ApplyAppend(m: map<string, Value>, ps: seq<Member>, p: Member, cs: bool)
    ensures ApplyAll(m, ps + [p], cs) == ApplyMember(ApplyAll(m, ps, cs), p, cs)
    decreases |ps|
  {
    hide ApplyMember;
    if ps != [] {
      assert (ps + [p])[0] == ps[0] && (ps + [p])[1..] == ps[1..] + [p];
      ApplyAppend(ApplyMember(m, ps[0], cs), ps[1..], p, cs);
    } else {
      assert ApplyAll(ApplyMember(m, p, cs), [p][1..], cs) == ApplyMember(m, p, cs);
    }
  }

  /** With distinct keys the order does not matter: the result is the function of RFC 7396. */
  lemma {:induction false} ApplyIsRfc(target: Value, patch: Json, cs: bool)
    requires Spine(patch, cs)
    ensures Applied(target, patch, cs) == Rfc(target, Denote(patch, cs))
    decreases patch, 1
  {
    if patch.Obj? {
      var m := if target.VObj? then target.members else map[];
      SpineObj(patch, cs);
      MembersAreRfc(m, patch, |patch.members|, cs);
      assert patch.members[..|patch.members|] == patch.members;
      NoObject(target, Denote(patch, cs));
    }
  }

  lemma {:induction false} MembersAreRfc(m: map<string, Value>, patch: Json, n: nat, cs: bool)
    requires patch.Obj? && SpineMembers(patch.members, cs) && n <= |patch.members|
    ensures VObj(ApplyAll(m, patch.members[..n], cs)) == Rfc(VObj(m), VObj(DenoteMembers(patch.members[..n], cs)))
    decreases patch, 0, n
  {
    var ps := patch.members[..n];
    if n == 0 {
      assert Rfc(VObj(m), VObj(map[])).members == m;
    } else {
      var qs, p := patch.members[..n - 1], patch.members[n - 1];
      assert ps == qs + [p] && ps[..|ps| - 1] == qs;
      assert p in patch.members;
      hide Rfc, Applied, Spine, Fold;
      MembersAreRfc(m, patch, n - 1, cs);
      ApplyAppend(m, qs, p, cs);
      NewKey(patch.members, n - 1, cs);
      var k := Fold(p.key, cs);
      ApplyIsRfc(At(ApplyAll(m, qs, cs), k), p.value, cs);
      RfcMore(m, DenoteMembers(qs, cs), k, Denote(p.value, cs));
    }
  }

  lemma NewKey(ms: seq<Member>, n: nat, cs: bool)
    requires n < |ms| && DistinctKeys(ms, cs)
    ensures Fold(ms[n].key, cs) !in DenoteMembers(ms[..n], cs)
  {
    KeysOf(ms[..n], Fold(ms[n].key, cs), cs);
  }

  /** One more member in a patch of distinct keys. */
  lemma RfcMore(m: map<string, Value>, p: map<string, Value>, k: string, v: Value)
    requires k !in p
    ensures var r := Rfc(VObj(m), VObj(p)).members;
            Rfc(VObj(m), VObj(p[k := v])) == VObj(if v == VNull then r - {k} else r[k := Rfc(At(r, k), v)])
  {
    RfcAt(m, p, k);
    if v == VNull { RfcGone(m, p, k); } else { RfcSet(m, p, k, v); }
  }

  lemma RfcAt(m: map<string, Value>, p: map<string, Value>, k: string)
    requires k !in p
    ensures At(Rfc(VObj(m), VObj(p)).members, k) == At(m, k)
  {
  }

  lemma RfcGone(m: map<string, Value>, p: map<string, Value>, k: string)
    requires k !in p
    ensures Rfc(VObj(m), VObj(p[k := VNull])).members == Rfc(VObj(m), VObj(p)).members - {k}
  {
  }

  lemma RfcSet(m: map<string, Value>, p: map<string, Value>, k: string, v: Value)
    requires k !in p && v != VNull
    ensures Rfc(VObj(m), VObj(p[k := v])).members == Rfc(VObj(m), VObj(p)).members[k := Rfc(At(m, k), v)]
  {
  }

  lemma NoObject(t: Value, p: Value)
    ensures !t.VObj? ==> Rfc(t, p) == Rfc(VObj(map[]), p)
  {
  }

  /** merge_patch: the MergePatch function of RFC 7396, and what becomes of it when the patch has a key twice. */
  method MergePatch(target: Option<Json>, patch: Json, cs: bool) returns (result: Json)
    requires SpineOpt(target, cs)
    ensures Spine(result, cs) && Denote(result, cs) == Applied(DenoteOpt(target, cs), patch, cs)
    ensures Spine(patch, cs) ==> Denote(result, cs) == Rfc(DenoteOpt(target, cs), Denote(patch, cs))
    decreases patch, 2
  {
    if Spine(patch, cs) { ApplyIsRfc(DenoteOpt(target, cs), patch, cs); }
    if !patch.Obj? { return patch; }
    var ms := [];
    if target.Some? && target.value.Obj? {
      SpineObj(target.value, cs);
      ms := target.value.members;
    }
    hide Spine, SpineMembers, Rfc, DistinctKeys;
    var r := MergeMembers(ms, patch, cs);
    result := Obj(r);
    SpineObj(result, cs);
  }

  /** The loop of merge_patch. */
  method MergeMembers(target: seq<Member>, patch: Json, cs: bool) returns (ms: seq<Member>)
    requires SpineMembers(target, cs) && patch.Obj?
    ensures SpineMembers(ms, cs)
    ensures DenoteMembers(ms, cs) == ApplyAll(DenoteMembers(target, cs), patch.members, cs)
    decreases patch, 1
  {
    ms := target;
    hide SpineMembers, DenoteMembers, ApplyMember;
    var i := 0;
    while i < |patch.members|
      invariant 0 <= i <= |patch.members| && SpineMembers(ms, cs)
      invariant ApplyAll(DenoteMembers(ms, cs), patch.members[i..], cs) ==
          ApplyAll(DenoteMembers(target, cs), patch.members, cs)
    {
      assert patch.members[i..][1..] == patch.members[i + 1..];
      ms := MergeChild(ms, patch.members[i], cs);
      i := i + 1;
    }
  }

  /** One round of the loop of merge_patch. */
  method MergeChild(ms: seq<Member>, child: Member, cs: bool) returns (r: seq<Member>)
    requires SpineMembers(ms, cs)
    ensures SpineMembers(r, cs)
    ensures DenoteMembers(r, cs) == ApplyMember(DenoteMembers(ms, cs), child, cs)
    decreases child.value, 3
  {
    hide Spine, SpineMembers, DenoteMembers, Rfc, Applied, Fold;
    var current;
    r, current := Detach(ms, child.key, cs);
    if !child.value.Null? {
      var replacement := MergePatch(current, child.value, cs);
      Appended(r, Member(child.key, replacement), cs);
      r := r + [Member(child.key, replacement)];
      PutBack(DenoteMembers(ms, cs), Fold(child.key, cs), Denote(replacement, cs));
    }
  }

  lemma PutBack(m: map<string, Value>, k: string, v: Value)
    ensures (m - {k})[k := v] == m[k := v]
  {
  }
}
