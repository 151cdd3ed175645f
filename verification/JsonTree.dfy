/**
  JSON trees with members in order: key comparison, the merge sort of members, and comparison of
  trees up to member order.
  Source: liblinktool/cJSON/cJSON_Utils.c, lines 83-109 and 480-598.
 */
module JsonTree {
  import opened JsonValue

  datatype Member = Member(key: string, value: Json)

  datatype Json =
    | Null
    | Bool(b: bool)
    | Num(n: int)
    | Str(s: string)
    | Arr(items: seq<Json>)
    | Obj(members: seq<Member>)

  // ---------------------------------------------------------------- keys

  /** strcmp */
  function Compare(a: string, b: string): int {
    if a == [] then (if b == [] then 0 else -1)
    else if b == [] then 1
    else if a[0] < b[0] then -1
    else if a[0] > b[0] then 1
    else Compare(a[1..], b[1..])
  }

  function ToLower(c: char): char {
    if 'A' <= c <= 'Z' then c + ' ' else c
  }

  function Lower(s: string): (r: string)
    ensures |r| == |s| && forall i :: 0 <= i < |s| ==> r[i] == ToLower(s[i])
  {
    if s == [] then [] else [ToLower(s[0])] + Lower(s[1..])
  }

  /** What a comparison sees of a key: all of it, or all but the letter case. */
  function Fold(key: string, cs: bool): string {
    if cs then key else Lower(key)
  }

  /** compare_strings */
  function CompareStrings(a: string, b: string, cs: bool): int {
    Compare(Fold(a, cs), Fold(b, cs))
  }

  lemma {:induction false} CompareZero(a: string, b: string)
    ensures Compare(a, b) == 0 <==> a == b
  {
    if a != [] && b != [] && a[0] == b[0] {
      CompareZero(a[1..], b[1..]);
      assert a == [a[0]] + a[1..] && b == [b[0]] + b[1..];
    }
  }

  lemma {:induction false} CompareSwap(a: string, b: string)
    ensures Compare(a, b) < 0 <==> Compare(b, a) > 0
  {
    if a != [] && b != [] && a[0] == b[0] { CompareSwap(a[1..], b[1..]); }
  }

  lemma {:induction false} CompareTrans(a: string, b: string, c: string)
    requires Compare(a, b) < 0 && Compare(b, c) < 0
    ensures Compare(a, c) < 0
  {
    if a != [] && b != [] && c != [] && a[0] == b[0] && b[0] == c[0] { CompareTrans(a[1..], b[1..], c[1..]); }
  }

  // ---------------------------------------------------------------- well-formed trees and what they denote

  /** No two keys are the same to the comparison. */
  ghost predicate DistinctKeys(ms: seq<Member>, cs: bool) {
    forall i, j :: 0 <= i < j < |ms| ==> Fold(ms[i].key, cs) != Fold(ms[j].key, cs)
  }

  /** No object has a key twice, to the comparison. */
  ghost predicate Proper(j: Json, cs: bool)
    decreases j
  {
    match j
    case Arr(items) => forall i :: 0 <= i < |items| ==> Proper(items[i], cs)
    case Obj(ms) => DistinctKeys(ms, cs) && forall i :: 0 <= i < |ms| ==> Proper(ms[i].value, cs)
    case _ => true
  }

  ghost predicate ProperMembers(ms: seq<Member>, cs: bool) {
    DistinctKeys(ms, cs) && forall m :: m in ms ==> Proper(m.value, cs)
  }

  /** A tree without member order, and without letter case in keys unless case counts. */
  ghost function Denote(j: Json, cs: bool): Value
    decreases j, 1
  {
    match j
    case Null => VNull
    case Bool(b) => VBool(b)
    case Num(n) => VNum(n)
    case Str(s) => VStr(s)
    case Arr(items) => VArr(DenoteItems(items, cs))
    case Obj(ms) => VObj(DenoteMembers(ms, cs))
  }

  ghost function DenoteItems(items: seq<Json>, cs: bool): (r: seq<Value>)
    ensures |r| == |items| && forall i :: 0 <= i < |items| ==> r[i] == Denote(items[i], cs)
    decreases items, 0
  {
    if items == [] then [] else [Denote(items[0], cs)] + DenoteItems(items[1..], cs)
  }

  ghost predicate HasKey(ms: seq<Member>, k: string, cs: bool) {
    exists i :: 0 <= i < |ms| && Fold(ms[i].key, cs) == k
  }

  ghost function DenoteMembers(ms: seq<Member>, cs: bool): map<string, Value>
    decreases ms, 0
  {
    if ms == [] then map[]
    else
      var m := ms[|ms| - 1];
      DenoteMembers(ms[..|ms| - 1], cs)[Fold(m.key, cs) := Denote(m.value, cs)]
  }

  lemma {:induction false} KeysOf(ms: seq<Member>, k: string, cs: bool)
    ensures k in DenoteMembers(ms, cs) <==> HasKey(ms, k, cs)
    decreases |ms|
  {
    if ms != [] {
      var n := |ms| - 1;
      KeysOf(ms[..n], k, cs);
      if HasKey(ms[..n], k, cs) {
        var i :| 0 <= i < n && Fold(ms[..n][i].key, cs) == k;
        assert Fold(ms[i].key, cs) == k;
      }
      if HasKey(ms, k, cs) && Fold(ms[n].key, cs) != k {
        var i :| 0 <= i < |ms| && Fold(ms[i].key, cs) == k;
        assert Fold(ms[..n][i].key, cs) == k;
      }
    }
  }

  lemma {:induction false} ValueOf(ms: seq<Member>, i: int, cs: bool)
    requires DistinctKeys(ms, cs) && 0 <= i < |ms|
    ensures var k := Fold(ms[i].key, cs);
            k in DenoteMembers(ms, cs) && DenoteMembers(ms, cs)[k] == Denote(ms[i].value, cs)
    decreases |ms|
  {
    var n := |ms| - 1;
    if i < n { ValueOf(ms[..n], i, cs); }
  }

  /** Members with the same keys and values, in whatever order, denote the same map. */
  lemma SameMembers(a: seq<Member>, b: seq<Member>, cs: bool)
    requires DistinctKeys(a, cs) && DistinctKeys(b, cs) && forall m :: m in a <==> m in b
    ensures DenoteMembers(a, cs) == DenoteMembers(b, cs)
  {
    var x, y := DenoteMembers(a, cs), DenoteMembers(b, cs);
    hide DistinctKeys, DenoteMembers;
    forall k | k in x ensures k in y && y[k] == x[k] { Carried(a, b, k, cs); }
    forall k | k in y ensures k in x { Carried(b, a, k, cs); }
  }

  lemma Carried(a: seq<Member>, b: seq<Member>, k: string, cs: bool)
    requires DistinctKeys(a, cs) && DistinctKeys(b, cs) && (forall m :: m in a ==> m in b) && k in DenoteMembers(a, cs)
    ensures k in DenoteMembers(b, cs) && DenoteMembers(b, cs)[k] == DenoteMembers(a, cs)[k]
  {
    KeysOf(a, k, cs);
    var i :| 0 <= i < |a| && Fold(a[i].key, cs) == k;
    assert a[i] in b;
    var j :| 0 <= j < |b| && b[j] == a[i];
    ValueOf(a, i, cs);
    ValueOf(b, j, cs);
  }

  // ---------------------------------------------------------------- sorting

  ghost predicate Before(x: Member, y: Member, cs: bool) {
    CompareStrings(x.key, y.key, cs) < 0
  }

  /** Strictly increasing keys. */
  ghost predicate SortedKeys(ms: seq<Member>, cs: bool) {
    forall i, j :: 0 <= i < j < |ms| ==> Before(ms[i], ms[j], cs)
  }

  lemma BeforeTrans(x: Member, y: Member, z: Member, cs: bool)
    requires Before(x, y, cs) && Before(y, z, cs)
    ensures Before(x, z, cs)
  {
    CompareTrans(Fold(x.key, cs), Fold(y.key, cs), Fold(z.key, cs));
  }

  lemma BeforeEither(x: Member, y: Member, cs: bool)
    ensures Before(x, y, cs) || Before(y, x, cs) || Fold(x.key, cs) == Fold(y.key, cs)
    ensures !(Before(x, y, cs) && Before(y, x, cs))
    ensures Fold(x.key, cs) == Fold(y.key, cs) ==> !Before(x, y, cs)
  {
    CompareZero(Fold(x.key, cs), Fold(y.key, cs));
    CompareSwap(Fold(x.key, cs), Fold(y.key, cs));
    CompareSwap(Fold(y.key, cs), Fold(x.key, cs));
  }

  /** Neighbours in order make the whole list sorted. */
  lemma SortedFromNeighbours(ms: seq<Member>, cs: bool)
    requires forall i :: 0 < i < |ms| ==> Before(ms[i - 1], ms[i], cs)
    ensures SortedKeys(ms, cs)
  {
    forall i, j | 0 <= i < j < |ms| ensures Before(ms[i], ms[j], cs) {
      Climb(ms, i, j, cs);
    }
  }

  lemma {:induction false} Climb(ms: seq<Member>, i: int, j: int, cs: bool)
    requires forall i :: 0 < i < |ms| ==> Before(ms[i - 1], ms[i], cs)
    requires 0 <= i < j < |ms|
    ensures Before(ms[i], ms[j], cs)
    decreases j
  {
    hide Before;
    if i < j - 1 {
      Climb(ms, i, j - 1, cs);
      BeforeTrans(ms[i], ms[j - 1], ms[j], cs);
    }
  }

  ghost predicate Apart(a: seq<Member>, b: seq<Member>, cs: bool) {
    forall x, y :: x in a && y in b ==> Fold(x.key, cs) != Fold(y.key, cs)
  }

  /** Every key of `a` comes before every key of `b`. */
  ghost predicate AllBefore(a: seq<Member>, b: seq<Member>, cs: bool) {
    forall x, y :: x in a && y in b ==> Before(x, y, cs)
  }

  lemma SortedAppend(a: seq<Member>, b: seq<Member>, cs: bool)
    requires SortedKeys(a, cs) && SortedKeys(b, cs) && AllBefore(a, b, cs)
    ensures SortedKeys(a + b, cs)
  {
    var s := a + b;
    forall i, j | 0 <= i < j < |s| ensures Before(s[i], s[j], cs) {
      if i < |a| && j >= |a| {
        assert s[i] in a && s[j] in b;
      }
    }
  }

  lemma SortedTail(s: seq<Member>, i: int, cs: bool)
    requires SortedKeys(s, cs) && 0 <= i < |s|
    ensures AllBefore([s[i]], s[i + 1..], cs) && SortedKeys(s[i..], cs) && SortedKeys(s[i + 1..], cs)
    ensures s[i..] == [s[i]] + s[i + 1..]
  {
    assert s[i..] == [s[i]] + s[i + 1..];
  }

  /** The smaller head goes before everything that is left. */
  lemma SmallerHead(x: Member, xs: seq<Member>, y: Member, ys: seq<Member>, cs: bool)
    requires AllBefore([x], xs, cs) && AllBefore([y], ys, cs) && Before(x, y, cs)
    ensures AllBefore([x], xs, cs) && AllBefore([x], [y] + ys, cs)
  {
    forall e | e in [y] + ys ensures Before(x, e, cs) {
      if e in ys {
        assert y in [y];
        BeforeTrans(x, y, e, cs);
      }
    }
  }

  lemma OneMore(r: seq<Member>, x: Member, rest: seq<Member>, cs: bool)
    requires SortedKeys(r, cs) && AllBefore(r, [x] + rest, cs) && AllBefore([x], rest, cs)
    ensures SortedKeys(r + [x], cs) && AllBefore(r + [x], rest, cs)
  {
    assert x in [x] + rest;
    forall e | e in r ensures Before(e, x, cs) {
    }
    SortedAppend(r, [x], cs);
    forall e, y | e in r + [x] && y in rest ensures Before(e, y, cs) {
      assert y in [x] + rest;
      if e !in r { assert e in [x]; }
    }
  }

  // ---------------------------------------------------------------- the one sorted order

  /** Insertion sort, as a reference. */
  ghost function Arrange(ms: seq<Member>, cs: bool): seq<Member> {
    if ms == [] then [] else Insert(ms[0], Arrange(ms[1..], cs), cs)
  }

  ghost function Insert(m: Member, ms: seq<Member>, cs: bool): seq<Member> {
    if ms == [] || Before(m, ms[0], cs) then [m] + ms else [ms[0]] + Insert(m, ms[1..], cs)
  }

  /** No member of the list has the key. */
  ghost predicate NewTo(m: Member, ms: seq<Member>, cs: bool) {
    forall e :: e in ms ==> Fold(e.key, cs) != Fold(m.key, cs)
  }

  lemma {:induction false} InsertSorts(m: Member, ms: seq<Member>, cs: bool)
    requires SortedKeys(ms, cs) && NewTo(m, ms, cs)
    ensures SortedKeys(Insert(m, ms, cs), cs) && multiset(Insert(m, ms, cs)) == multiset(ms) + multiset{m}
  {
    if ms != [] {
      SortedTail(ms, 0, cs);
      BeforeEither(m, ms[0], cs);
      assert ms[0] in ms && forall e :: e in ms[1..] ==> e in ms;
      hide SortedKeys, Before, Fold, AllBefore;
      if Before(m, ms[0], cs) {
        InsertFirst(m, ms, cs);
      } else {
        InsertSorts(m, ms[1..], cs);
        InsertLater(m, ms, Insert(m, ms[1..], cs), cs);
      }
    }
  }

  lemma InsertFirst(m: Member, ms: seq<Member>, cs: bool)
    requires ms != [] && SortedKeys(ms, cs) && Before(m, ms[0], cs)
    ensures SortedKeys([m] + ms, cs) && multiset([m] + ms) == multiset(ms) + multiset{m}
  {
    SortedTail(ms, 0, cs);
    assert ms == [ms[0]] + ms[1..];
    SmallerHead(m, [], ms[0], ms[1..], cs);
    SortedAppend([m], ms, cs);
  }

  lemma InsertLater(m: Member, ms: seq<Member>, r: seq<Member>, cs: bool)
    requires ms != [] && SortedKeys(ms, cs) && Before(ms[0], m, cs)
    requires SortedKeys(r, cs) && multiset(r) == multiset(ms[1..]) + multiset{m}
    ensures SortedKeys([ms[0]] + r, cs) && multiset([ms[0]] + r) == multiset(ms) + multiset{m}
  {
    SortedTail(ms, 0, cs);
    WithoutFirst(ms);
    SameElements(r, ms[1..] + [m]);
    hide SortedKeys;
    assert AllBefore([ms[0]], r, cs);
    assert SortedKeys([ms[0]], cs) by { OneSorted(ms[0], cs); }
    SortedAppend([ms[0]], r, cs);
  }

  lemma OneSorted(m: Member, cs: bool)
    ensures SortedKeys([m], cs)
  {
  }

  lemma {:induction false} ArrangeSorts(ms: seq<Member>, cs: bool)
    requires DistinctKeys(ms, cs)
    ensures SortedKeys(Arrange(ms, cs), cs) && multiset(Arrange(ms, cs)) == multiset(ms)
  {
    if ms != [] {
      var r := Arrange(ms[1..], cs);
      FirstIsNew(ms, cs);
      hide SortedKeys, DistinctKeys, NewTo;
      ArrangeSorts(ms[1..], cs);
      SameElements(r, ms[1..]);
      NewToSame(ms[0], ms[1..], r, cs);
      InsertSorts(ms[0], r, cs);
      WithoutFirst(ms);
    }
  }

  lemma FirstIsNew(ms: seq<Member>, cs: bool)
    requires DistinctKeys(ms, cs) && ms != []
    ensures NewTo(ms[0], ms[1..], cs) && DistinctKeys(ms[1..], cs)
  {
  }

  lemma NewToSame(m: Member, a: seq<Member>, b: seq<Member>, cs: bool)
    requires NewTo(m, a, cs) && forall e :: e in b ==> e in a
    ensures NewTo(m, b, cs)
  {
  }

  /** There is only one sorted order. */
  lemma {:induction false} SortedOnce(a: seq<Member>, b: seq<Member>, cs: bool)
    requires SortedKeys(a, cs) && SortedKeys(b, cs) && multiset(a) == multiset(b)
    ensures a == b
  {
    assert |multiset(a)| == |a| && |multiset(b)| == |b|;
    if a != [] {
      SameFirst(a, b, cs);
      WithoutFirst(a);
      WithoutFirst(b);
      SortedTail(a, 0, cs);
      SortedTail(b, 0, cs);
      hide SortedKeys;
      SortedOnce(a[1..], b[1..], cs);
    }
  }

  lemma WithoutFirst(a: seq<Member>)
    requires a != []
    ensures multiset(a[1..]) == multiset(a) - multiset{a[0]} && a == [a[0]] + a[1..]
  {
    assert a == [a[0]] + a[1..];
  }

  lemma SameFirst(a: seq<Member>, b: seq<Member>, cs: bool)
    requires SortedKeys(a, cs) && SortedKeys(b, cs) && multiset(a) == multiset(b) && a != [] && b != []
    ensures a[0] == b[0]
  {
    SameElements(a, b);
    FirstIsLeast(a, b[0], cs);
    FirstIsLeast(b, a[0], cs);
    BeforeEither(a[0], b[0], cs);
  }

  lemma FirstIsLeast(a: seq<Member>, m: Member, cs: bool)
    requires SortedKeys(a, cs) && m in a
    ensures a[0] == m || Before(a[0], m, cs)
  {
    var i :| 0 <= i < |a| && a[i] == m;
  }

  // ---------------------------------------------------------------- the merge sort

  /** sort_list: a merge sort, which gives the same list as the insertion sort. */
  method SortList(list: seq<Member>, cs: bool) returns (sorted: seq<Member>)
    requires DistinctKeys(list, cs)
    ensures SortedKeys(sorted, cs) && multiset(sorted) == multiset(list) && sorted == Arrange(list, cs)
    decreases |list|
  {
    ArrangeSorts(list, cs);
    if |list| <= 1 {
      SortedOnce(list, Arrange(list, cs), cs);
      return list;
    }
    var current := 0;
    while current + 1 < |list| && CompareStrings(list[current].key, list[current + 1].key, cs) < 0
      invariant 0 <= current < |list|
      invariant forall i :: 0 < i <= current ==> Before(list[i - 1], list[i], cs)
    {
      current := current + 1;
    }
    if current + 1 == |list| {
      SortedFromNeighbours(list, cs);
      SortedOnce(list, Arrange(list, cs), cs);
      return list;
    }
    var second := Middle(list);
    sorted := SortHalves(list, second, cs);
    SortedOnce(sorted, Arrange(list, cs), cs);
  }

  /** Two walks through the list, one twice as fast, find where its second half starts. */
  method Middle(list: seq<Member>) returns (second: int)
    requires |list| >= 2
    ensures 0 < second < |list|
  {
    second := 0;
    var current := 0;
    while current < |list|
      invariant 0 <= second && 2 * second <= |list| + 1
          && current == if 2 * second <= |list| then 2 * second else |list|
    {
      second := second + 1;
      current := current + 1;
      if current < |list| { current := current + 1; }
    }
  }

  method SortHalves(list: seq<Member>, second: int, cs: bool) returns (sorted: seq<Member>)
    requires DistinctKeys(list, cs) && 0 < second < |list|
    ensures SortedKeys(sorted, cs) && multiset(sorted) == multiset(list)
    decreases |list|, 0
  {
    HalvesApart(list, second, cs);
    hide SortedKeys, DistinctKeys, Apart;
    var a := SortList(list[..second], cs);
    var b := SortList(list[second..], cs);
    SameElements(a, list[..second]);
    SameElements(b, list[second..]);
    ApartKept(list[..second], list[second..], a, b, cs);
    sorted := Merge(a, b, cs);
  }

  lemma ApartKept(a: seq<Member>, b: seq<Member>, a': seq<Member>, b': seq<Member>, cs: bool)
    requires Apart(a, b, cs) && (forall m :: m in a' ==> m in a) && (forall m :: m in b' ==> m in b)
    ensures Apart(a', b', cs)
  {
  }

  lemma HalvesApart(list: seq<Member>, n: int, cs: bool)
    requires DistinctKeys(list, cs) && 0 <= n <= |list|
    ensures DistinctKeys(list[..n], cs) && DistinctKeys(list[n..], cs) && Apart(list[..n], list[n..], cs)
    ensures multiset(list) == multiset(list[..n]) + multiset(list[n..])
  {
    assert list == list[..n] + list[n..];
  }

  lemma SameElements(a: seq<Member>, b: seq<Member>)
    requires multiset(a) == multiset(b)
    ensures forall m :: m in a <==> m in b
  {
    forall m ensures m in a <==> m in b {
      assert m in a <==> m in multiset(a);
      assert m in b <==> m in multiset(b);
    }
  }

  /** What has been merged comes before what is left of both lists. */
  ghost predicate Merging(result: seq<Member>, a: seq<Member>, b: seq<Member>, cs: bool) {
    && SortedKeys(result, cs) && SortedKeys(a, cs) && SortedKeys(b, cs) && AllBefore(result, a, cs)
      && AllBefore(result, b, cs)
    && Apart(a, b, cs) && Apart(b, a, cs)
  }

  ghost function Pool(result: seq<Member>, a: seq<Member>, b: seq<Member>): multiset<Member> {
    multiset(result) + multiset(a) + multiset(b)
  }

  lemma TakeHead(result: seq<Member>, a: seq<Member>, b: seq<Member>, cs: bool)
    requires Merging(result, a, b, cs) && a != [] && b != [] && Before(a[0], b[0], cs)
    ensures Merging(result + [a[0]], a[1..], b, cs)
    ensures Pool(result + [a[0]], a[1..], b) == Pool(result, a, b)
    ensures Pool(result + [a[0]], b, a[1..]) == Pool(result, b, a)
  {
    hide SortedKeys, AllBefore, Apart, Before;
    SortedTail(a, 0, cs);
    SortedTail(b, 0, cs);
    SmallerHead(a[0], a[1..], b[0], b[1..], cs);
    OneMore(result, a[0], a[1..], cs);
    StillBefore(result, a[0], b, cs);
    RestApart(a, b, cs);
    assert a == [a[0]] + a[1..];
    assert multiset(a) == multiset{a[0]} + multiset(a[1..]);
    assert multiset(result + [a[0]]) == multiset(result) + multiset{a[0]};
  }

  lemma RestApart(a: seq<Member>, b: seq<Member>, cs: bool)
    requires a != [] && Apart(a, b, cs) && Apart(b, a, cs)
    ensures Apart(a[1..], b, cs) && Apart(b, a[1..], cs)
  {
    assert forall m :: m in a[1..] ==> m in a;
  }

  /** The two sorted lists as one. */
  method Merge(first: seq<Member>, second: seq<Member>, cs: bool) returns (result: seq<Member>)
    requires SortedKeys(first, cs) && SortedKeys(second, cs) && Apart(first, second, cs)
    ensures SortedKeys(result, cs) && multiset(result) == multiset(first) + multiset(second)
  {
    result := [];
    var a, b := first, second;
    assert Merging(result, a, b, cs);
    assert Pool(result, a, b) == multiset(first) + multiset(second);
    hide Pool, SortedKeys, AllBefore, Apart, Merging, Compare;
    while a != [] && b != []
      invariant Pool(result, a, b) == multiset(first) + multiset(second)
      invariant Merging(result, a, b, cs)
      decreases |a| + |b|
    {
      HeadsCompare(result, a, b, cs);
      if CompareStrings(a[0].key, b[0].key, cs) < 0 {
        TakeHead(result, a, b, cs);
        result, a := result + [a[0]], a[1..];
      } else {
        TakeHead(result, b, a, cs);
        PoolSwap(result, a, b);
        result, b := result + [b[0]], b[1..];
      }
    }
    result := Rest(result, a, b, cs);
  }

  lemma PoolSwap(result: seq<Member>, a: seq<Member>, b: seq<Member>)
    requires b != []
    ensures Pool(result, a, b) == Pool(result, b, a)
  {
  }

  /** One list is used up: the other one follows. */
  method Rest(merged: seq<Member>, a: seq<Member>, b: seq<Member>, cs: bool) returns (result: seq<Member>)
    requires Merging(merged, a, b, cs) && (a == [] || b == [])
    ensures SortedKeys(result, cs) && multiset(result) == Pool(merged, a, b)
  {
    if a != [] {
      SortedAppend(merged, a, cs);
      result := merged + a;
    } else {
      SortedAppend(merged, b, cs);
      result := merged + b;
    }
  }

  lemma HeadsCompare(result: seq<Member>, a: seq<Member>, b: seq<Member>, cs: bool)
    requires Merging(result, a, b, cs) && a != [] && b != []
    ensures Merging(result, b, a, cs)
    ensures CompareStrings(a[0].key, b[0].key, cs) < 0 <==> Before(a[0], b[0], cs)
    ensures Before(a[0], b[0], cs) || Before(b[0], a[0], cs)
  {
    assert a[0] in a && b[0] in b;
    BeforeEither(a[0], b[0], cs);
  }

  lemma StillBefore(r: seq<Member>, x: Member, b: seq<Member>, cs: bool)
    requires AllBefore(r, b, cs) && AllBefore([x], b, cs)
    ensures AllBefore(r + [x], b, cs)
  {
  }
}
