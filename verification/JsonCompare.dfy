/**
  Comparison of JSON trees up to member order, and up to letter case of keys unless case counts.
  Source: liblinktool/cJSON/cJSON_Utils.c, lines 591-686.
 */
module JsonCompare {
  import opened JsonTree

  // ---------------------------------------------------------------- two sorted member lists

  /** The first `i` members have the same keys and equal values. */
  ghost predicate SamePrefix(x: seq<Member>, y: seq<Member>, i: int, cs: bool)
    requires 0 <= i <= |x| && i <= |y|
  {
    forall k :: 0 <= k < i ==> SameMember(x[k], y[k], cs)
  }

  ghost predicate SameMember(x: Member, y: Member, cs: bool) {
    Fold(x.key, cs) == Fold(y.key, cs) && Denote(x.value, cs) == Denote(y.value, cs)
  }

  lemma EmptyPrefix(x: seq<Member>, y: seq<Member>, cs: bool)
    ensures SamePrefix(x, y, 0, cs)
  {
  }

  lemma LongerPrefix(x: seq<Member>, y: seq<Member>, i: int, cs: bool)
    requires 0 <= i < |x| && i < |y| && SamePrefix(x, y, i, cs) && SameMember(x[i], y[i], cs)
    ensures SamePrefix(x, y, i + 1, cs)
  {
  }

  lemma ProperAt(x: seq<Member>, i: int, cs: bool)
    requires ProperMembers(x, cs) && 0 <= i < |x|
    ensures x[i] in x && Proper(x[i].value, cs)
  {
  }

  lemma SortedDistinct(x: seq<Member>, cs: bool)
    requires SortedKeys(x, cs)
    ensures DistinctKeys(x, cs)
  {
    forall i, j | 0 <= i < j < |x| ensures Fold(x[i].key, cs) != Fold(x[j].key, cs) {
      assert Before(x[i], x[j], cs);
      BeforeEither(x[i], x[j], cs);
    }
  }

  /** A key that comes before the first key in which the lists differ is missing in the other list. */
  lemma Missing(x: seq<Member>, y: seq<Member>, i: int, cs: bool)
    requires SortedKeys(x, cs) && SortedKeys(y, cs) && 0 <= i < |x| && i <= |y| && SamePrefix(x, y, i, cs)
    requires i < |y| ==> Before(x[i], y[i], cs)
    ensures var k := Fold(x[i].key, cs); k in DenoteMembers(x, cs) && k !in DenoteMembers(y, cs)
  {
    SortedDistinct(x, cs);
    ValueOf(x, i, cs);
    KeysOf(y, Fold(x[i].key, cs), cs);
    hide DenoteMembers, Compare, DistinctKeys;
    forall k | 0 <= k < |y| ensures Fold(y[k].key, cs) != Fold(x[i].key, cs) {
      if k < i {
        assert Before(x[k], x[i], cs) && SameMember(x[k], y[k], cs);
        BeforeEither(x[k], x[i], cs);
      } else {
        if k > i { BeforeTrans(x[i], y[i], y[k], cs); }
        BeforeEither(x[i], y[k], cs);
      }
    }
  }

  lemma KeysDiffer(x: seq<Member>, y: seq<Member>, i: int, cs: bool)
    requires SortedKeys(x, cs) && SortedKeys(y, cs) && 0 <= i < |x| && i < |y| && SamePrefix(x, y, i, cs)
    requires CompareStrings(x[i].key, y[i].key, cs) != 0
    ensures DenoteMembers(x, cs) != DenoteMembers(y, cs)
  {
    BeforeEither(x[i], y[i], cs);
    CompareZero(Fold(x[i].key, cs), Fold(y[i].key, cs));
    if Before(x[i], y[i], cs) {
      Missing(x, y, i, cs);
    } else {
      PrefixSwap(x, y, i, cs);
      Missing(y, x, i, cs);
    }
  }

  lemma PrefixSwap(x: seq<Member>, y: seq<Member>, i: int, cs: bool)
    requires 0 <= i <= |x| && i <= |y| && SamePrefix(x, y, i, cs)
    ensures SamePrefix(y, x, i, cs)
  {
    forall k | 0 <= k < i ensures SameMember(y[k], x[k], cs) {
      assert SameMember(x[k], y[k], cs);
    }
  }

  lemma ValuesDiffer(x: seq<Member>, y: seq<Member>, i: int, cs: bool)
    requires SortedKeys(x, cs) && SortedKeys(y, cs) && 0 <= i < |x| && i < |y|
    requires Fold(x[i].key, cs) == Fold(y[i].key, cs) && Denote(x[i].value, cs) != Denote(y[i].value, cs)
    ensures DenoteMembers(x, cs) != DenoteMembers(y, cs)
  {
    SortedDistinct(x, cs);
    SortedDistinct(y, cs);
    ValueOf(x, i, cs);
    ValueOf(y, i, cs);
  }

  lemma LengthsDiffer(x: seq<Member>, y: seq<Member>, i: int, cs: bool)
    requires SortedKeys(x, cs) && SortedKeys(y, cs) && 0 <= i <= |x| && i <= |y| && SamePrefix(x, y, i, cs)
    requires (i == |x|) != (i == |y|)
    ensures DenoteMembers(x, cs) != DenoteMembers(y, cs)
  {
    if i < |x| {
      Missing(x, y, i, cs);
    } else {
      PrefixSwap(x, y, i, cs);
      Missing(y, x, i, cs);
    }
  }

  lemma {:induction false} AllSame(x: seq<Member>, y: seq<Member>, cs: bool)
    requires |x| == |y| && SamePrefix(x, y, |x|, cs)
    ensures DenoteMembers(x, cs) == DenoteMembers(y, cs)
    decreases |x|
  {
    if x != [] {
      var n := |x| - 1;
      assert SameMember(x[n], y[n], cs);
      forall k | 0 <= k < n ensures SameMember(x[..n][k], y[..n][k], cs) {
        assert SameMember(x[k], y[k], cs);
      }
      AllSame(x[..n], y[..n], cs);
    }
  }

  /** What sorting keeps. */
  lemma SortKeeps(ms: seq<Member>, x: seq<Member>, cs: bool)
    requires ProperMembers(ms, cs) && SortedKeys(x, cs) && multiset(x) == multiset(ms)
    ensures DenoteMembers(x, cs) == DenoteMembers(ms, cs) && ProperMembers(x, cs)
    ensures forall m :: m in x ==> m in ms
  {
    SameElements(x, ms);
    SortedDistinct(x, cs);
    SameMembers(x, ms, cs);
  }

  lemma ProperObj(j: Json, cs: bool)
    requires j.Obj?
    ensures Proper(j, cs) <==> ProperMembers(j.members, cs)
  {
    var ms := j.members;
    if ProperMembers(ms, cs) {
      forall i | 0 <= i < |ms| ensures Proper(ms[i].value, cs) {
        assert ms[i] in ms;
      }
    }
  }

  // ---------------------------------------------------------------- compare_json

  /** Equal up to the order of members, at every depth. */
  method CompareJson(a: Json, b: Json, cs: bool) returns (same: bool)
    requires Proper(a, cs) && Proper(b, cs)
    ensures same <==> Denote(a, cs) == Denote(b, cs)
    decreases a
  {
    match a {
      case Null => same := b.Null?;
      case Bool(x) => same := b.Bool? && x == b.b;
      case Num(x) => same := b.Num? && x == b.n;
      case Str(x) => same := b.Str? && x == b.s;
      case Arr(x) =>
        if !b.Arr? { return false; }
        same := CompareItems(a, b, cs);
      case Obj(x) =>
        if !b.Obj? { return false; }
        same := CompareMembers(a, b, cs);
    }
  }

  method CompareItems(a: Json, b: Json, cs: bool) returns (same: bool)
    requires a.Arr? && b.Arr? && Proper(a, cs) && Proper(b, cs)
    ensures same <==> Denote(a, cs) == Denote(b, cs)
    decreases a, 0
  {
    var x, y, i := a.items, b.items, 0;
    while i < |x| && i < |y|
      invariant 0 <= i <= |x| && i <= |y|
      invariant forall k :: 0 <= k < i ==> Denote(x[k], cs) == Denote(y[k], cs)
    {
      var identical := CompareJson(x[i], y[i], cs);
      if !identical {
        assert DenoteItems(x, cs)[i] != DenoteItems(y, cs)[i];
        return false;
      }
      i := i + 1;
    }
    if i < |x| || i < |y| {
      assert |DenoteItems(x, cs)| != |DenoteItems(y, cs)|;
      return false;
    }
    assert DenoteItems(x, cs) == DenoteItems(y, cs);
    return true;
  }

  /** sort_object */
  method SortObject(j: Json, cs: bool) returns (ms: seq<Member>)
    requires j.Obj? && Proper(j, cs)
    ensures SortedKeys(ms, cs) && ProperMembers(ms, cs) && DenoteMembers(ms, cs) == DenoteMembers(j.members, cs)
    ensures ms == Arrange(j.members, cs) && forall m :: m in ms ==> m in j.members
  {
    ProperObj(j, cs);
    ms := SortList(j.members, cs);
    SortKeeps(j.members, ms, cs);
  }

  method CompareMembers(a: Json, b: Json, cs: bool) returns (same: bool)
    requires a.Obj? && b.Obj? && Proper(a, cs) && Proper(b, cs)
    ensures same <==> Denote(a, cs) == Denote(b, cs)
    decreases a, 0
  {
    var x := SortObject(a, cs);
    var y := SortObject(b, cs);
    same := CompareSorted(a, x, y, cs);
  }

  /** The loop over two sorted objects. */
  method CompareSorted(ghost a: Json, x: seq<Member>, y: seq<Member>, cs: bool) returns (same: bool)
    requires SortedKeys(x, cs) && SortedKeys(y, cs) && ProperMembers(x, cs) && ProperMembers(y, cs)
    requires a.Obj? && forall m :: m in x ==> m in a.members
    ensures same <==> DenoteMembers(x, cs) == DenoteMembers(y, cs)
    decreases a, 0, 0
  {
    hide SortedKeys, DenoteMembers, DistinctKeys, Proper, Compare, CompareStrings, Fold, ProperMembers, SamePrefix;
    hide Denote;
    EmptyPrefix(x, y, cs);
    var i := 0;
    while i < |x| && i < |y|
      invariant 0 <= i <= |x| && i <= |y| && SamePrefix(x, y, i, cs)
    {
      ProperAt(x, i, cs);
      ProperAt(y, i, cs);
      KeysCompare(x[i].key, y[i].key, cs);
      if CompareStrings(x[i].key, y[i].key, cs) != 0 {
        KeysDiffer(x, y, i, cs);
        return false;
      }
      var identical := CompareJson(x[i].value, y[i].value, cs);
      if !identical {
        ValuesDiffer(x, y, i, cs);
        return false;
      }
      LongerPrefix(x, y, i, cs);
      i := i + 1;
    }
    if i < |x| || i < |y| {
      LengthsDiffer(x, y, i, cs);
      return false;
    }
    AllSame(x, y, cs);
    return true;
  }

  lemma KeysCompare(k: string, k': string, cs: bool)
    ensures CompareStrings(k, k', cs) == 0 <==> Fold(k, cs) == Fold(k', cs)
  {
    CompareZero(Fold(k, cs), Fold(k', cs));
  }
}
