/**
  Generating a patch and applying it: a condition on keys under which the generated patch is the one
  RFC 7396 would want, the inputs on which it is not, and the round trip.
  Source: liblinktool/cJSON/cJSON_Utils.c, lines 1315-1470.
 */
module JsonUpdate {
  import opened JsonExact
  import opened JsonGenerate
  import opened JsonPatch
  import opened JsonTree
  import opened JsonValue
  import opened Wrappers

  // ---------------------------------------------------------------- keys that both comparisons order alike

  /** Sorting and walking order these keys alike; when case counts, they always do. */
  ghost predicate OneOrder(ms: seq<Member>, w: bool) {
    forall a, b :: a in ms && b in ms ==> (Compare(a.key, b.key) < 0 <==> Before(a, b, w))
  }

  /**
    At every pair of objects the generation compares without regard to case, sorting and walking order
    the keys of both alike; and what it takes for equal, because only letter case differs, is equal.
   */
  ghost predicate Alike(from: Json, goal: Json, w: bool, e: bool)
    decreases goal, 1
  {
    from.Obj? && goal.Obj? ==>
      && OneOrder(from.members + goal.members, w)
      && forall i, j :: 0 <= i < |from.members| && 0 <= j < |goal.members| ==>
           Fold(from.members[i].key, e) == Fold(goal.members[j].key, e) ==>
             AlikeMembers(from.members[i].value, goal, j, w, e)
  }

  ghost predicate AlikeMembers(v: Json, goal: Json, j: int, w: bool, e: bool)
    requires goal.Obj? && 0 <= j < |goal.members|
    decreases goal, 0
  {
    var u := goal.members[j].value;
    if Denote(v, w) == Denote(u, w) then Denote(v, e) == Denote(u, e) else Alike(v, u, false, e)
  }

  lemma OrderIsKeys(ms: seq<Member>, a: Member, b: Member, w: bool, e: bool)
    requires OneOrder(ms, w) && a in ms && b in ms && (w ==> e) && Fold(a.key, e) == Fold(b.key, e)
    ensures a.key == b.key
  {
    BeforeEither(a, b, w);
    BeforeEither(a, b, true);
    assert !w ==> Fold(a.key, w) == Fold(b.key, w);
  }

  lemma SortedAlike(x: seq<Member>, ms: seq<Member>, w: bool)
    requires OneOrder(ms, w) && SortedKeys(x, w) && forall m :: m in x ==> m in ms
    ensures SortedKeys(x, true)
  {
    forall i, j | 0 <= i < j < |x| ensures Before(x[i], x[j], true) {
      assert Before(x[i], x[j], w) && x[i] in x && x[j] in x;
    }
  }

  /** Two lists in the order of the walk: a common key is met in both at once. */
  lemma {:induction false} MetAtOnce(x: seq<Member>, y: seq<Member>, i: int, j: int, e: bool)
    requires SortedKeys(x, true) && SortedKeys(y, true) && 0 <= i < |x| && 0 <= j < |y| && x[i].key == y[j].key
    requires DistinctKeys(x, e) && DistinctKeys(y, e)
    ensures First(Steps(x, y), Fold(x[i].key, e), e) == Some(Both(x[i].value, y[j]))
    decreases |x| + |y|
  {
    HeadsMeet(x, y, i, j);
    CompareZero(x[0].key, y[0].key);
    SortedTail(x, 0, true);
    SortedTail(y, 0, true);
    if Compare(x[0].key, y[0].key) < 0 {
      MetAtOnce(x[1..], y, i - 1, j, e);
      MetLater(x, y, i, j, e);
    } else if Compare(x[0].key, y[0].key) > 0 {
      MetAtOnce(x, y[1..], i, j - 1, e);
      MetLater(x, y, i, j, e);
    } else if i > 0 {
      MetAtOnce(x[1..], y[1..], i - 1, j - 1, e);
      MetLater(x, y, i, j, e);
    }
  }

  /** A step for another key comes first. */
  lemma MetLater(x: seq<Member>, y: seq<Member>, i: int, j: int, e: bool)
    requires 0 <= i < |x| && 0 <= j < |y| && x[i].key == y[j].key && DistinctKeys(x, e) && DistinctKeys(y, e)
    requires var c := Compare(x[0].key, y[0].key); if c < 0 then i > 0 else if c > 0 then j > 0 else i > 0 && j > 0
    ensures var c, k := Compare(x[0].key, y[0].key), Fold(x[i].key, e);
            First(Steps(x, y), k, e) ==
            First(if c < 0 then Steps(x[1..], y) else if c > 0 then Steps(x, y[1..]) else Steps(x[1..], y[1..]), k, e)
  {
  }

  lemma HeadsMeet(x: seq<Member>, y: seq<Member>, i: int, j: int)
    requires SortedKeys(x, true) && SortedKeys(y, true) && 0 <= i < |x| && 0 <= j < |y| && x[i].key == y[j].key
    ensures Compare(x[0].key, y[0].key) < 0 ==> i > 0
    ensures Compare(x[0].key, y[0].key) > 0 ==> j > 0
    ensures x[0].key == y[0].key ==> (i > 0 <==> j > 0)
  {
    CompareZero(x[0].key, x[0].key);
    CompareSwap(y[0].key, x[0].key);
    if i == 0 && j > 0 {
      assert Before(y[0], y[j], true);
      CompareSwap(y[0].key, y[j].key);
      CompareSwap(x[0].key, y[0].key);
    }
    if i > 0 && j == 0 {
      assert Before(x[0], x[i], true);
    }
    CompareZero(x[0].key, y[0].key);
  }

  // ---------------------------------------------------------------- equal, and equal but for letter case

  lemma {:induction false} EqualFolded(a: Json, b: Json)
    requires Denote(a, true) == Denote(b, true) && Proper(a, false) && Proper(b, false)
    ensures Denote(a, false) == Denote(b, false)
    decreases a, 1
  {
    match a
    case Arr(items) =>
      forall i | 0 <= i < |items| ensures Denote(items[i], false) == Denote(b.items[i], false) {
        assert DenoteItems(items, true)[i] == DenoteItems(b.items, true)[i];
        EqualFolded(items[i], b.items[i]);
      }
      assert DenoteItems(items, false) == DenoteItems(b.items, false);
    case Obj(ms) =>
      var x, y := DenoteMembers(ms, false), DenoteMembers(b.members, false);
      forall k ensures Get(x, k) == Get(y, k) {
        FoldedAt(a, b, k);
      }
      MapsSame(x, y);
    case _ =>
  }

  lemma MapsSame(x: map<string, Value>, y: map<string, Value>)
    requires forall k :: Get(x, k) == Get(y, k)
    ensures x == y
  {
    forall k ensures k in x <==> k in y { assert Get(x, k) == Get(y, k); }
    forall k | k in x ensures x[k] == y[k] { assert Get(x, k) == Get(y, k); }
  }

  lemma {:induction false} FoldedAt(a: Json, b: Json, k: string)
    requires a.Obj? && b.Obj? && Denote(a, true) == Denote(b, true) && Proper(a, false) && Proper(b, false)
    ensures Get(DenoteMembers(a.members, false), k) == Get(DenoteMembers(b.members, false), k)
    decreases a, 0
  {
    var x, y := a.members, b.members;
    GetMember(x, k, false);
    GetMember(y, k, false);
    LaterNone(x, k, false);
    LaterNone(y, k, false);
    HasBoth(x, y, k);
    HasBoth(y, x, k);
    if !NoKey(x, k, false) {
      var i :| 0 <= i < |x| && Fold(x[i].key, false) == k;
      var j := SameKey(x, y, i);
      LaterIs(x, i, false);
      LaterIs(y, j, false);
      EqualFolded(x[i].value, y[j].value);
    }
  }

  lemma HasBoth(x: seq<Member>, y: seq<Member>, k: string)
    requires DenoteMembers(x, true) == DenoteMembers(y, true) && DistinctKeys(x, false) && DistinctKeys(y, false)
    ensures NoKey(y, k, false) ==> NoKey(x, k, false)
  {
    if !NoKey(x, k, false) {
      var i :| 0 <= i < |x| && Fold(x[i].key, false) == k;
      var j := SameKey(x, y, i);
      assert Fold(y[j].key, false) == k;
    }
  }

  /** The member with the same key and value in an equal object. */
  lemma SameKey(x: seq<Member>, y: seq<Member>, i: int) returns (j: int)
    requires DenoteMembers(x, true) == DenoteMembers(y, true) && DistinctKeys(x, false) && DistinctKeys(y, false)
        && 0 <= i < |x|
    ensures 0 <= j < |y| && y[j].key == x[i].key && Denote(y[j].value, true) == Denote(x[i].value, true)
  {
    DistinctBoth(x, true);
    DistinctBoth(y, true);
    ValueOf(x, i, true);
    KeysOf(y, x[i].key, true);
    j :| 0 <= j < |y| && Fold(y[j].key, true) == x[i].key;
    ValueOf(y, j, true);
  }

  lemma EqualEither(a: Json, b: Json, w: bool, e: bool)
    requires Denote(a, e) == Denote(b, e) && Proper(a, false) && Proper(b, false) && (w ==> e)
    ensures Denote(a, w) == Denote(b, w)
  {
    if w != e { EqualFolded(a, b); }
  }

  // ---------------------------------------------------------------- the patch that RFC 7396 would want

  /** The function of RFC 7396 with the ideal patch, key by key. */
  ghost function Wanted(f: map<string, Value>, t: map<string, Value>, k: string): Option<Value> {
    if k !in t then None
    else if k !in f then if t[k] == VNull then None else Some(Rfc(VNull, t[k]))
    else if f[k] == t[k] then Some(f[k])
    else if t[k] == VNull then None
    else Some(Rfc(f[k], Diff(f[k], t[k])))
  }

  lemma WantedIs(f: map<string, Value>, t: map<string, Value>, k: string)
    ensures Get(Rfc(VObj(f), Diff(VObj(f), VObj(t))).members, k) == Wanted(f, t, k)
  {
    DiffOfObjects(f, t);
    var p := DiffMap(f, t);
    hide Diff, Rfc;
    RfcGet(f, p, k);
    if k in f && k in t { DiffNull(f[k], t[k]); }
  }

  lemma RfcGet(f: map<string, Value>, p: map<string, Value>, k: string)
    ensures Rfc(VObj(f), VObj(p)).VObj?
    ensures Get(Rfc(VObj(f), VObj(p)).members, k) ==
            if k in p then (if p[k] == VNull then None else Some(Rfc(At(f, k), p[k]))) else Get(f, k)
  {
  }

  lemma DiffNull(f: Value, t: Value)
    ensures Diff(f, t) == VNull <==> t == VNull
  {
  }

  /** Values met in both lists at once, alike. */
  lemma {:induction false} AlikeMet(v: Json, goal: Json, j: int, m: Member, w: bool, e: bool)
    requires goal.Obj? && 0 <= j < |goal.members| && AlikeMembers(v, goal, j, w, e) && (w ==> e)
    requires Proper(v, false) && Proper(goal.members[j].value, false) && m.value == goal.members[j].value
    ensures var u := goal.members[j].value; var f, t := Denote(v, e), Denote(u, e);
            StepAt(Some(f), Both(v, m), w, e) ==
            if f == t then Some(f) else if t == VNull then None else Some(Rfc(f, Diff(f, t)))
    decreases goal, 0, 0
  {
    var u := goal.members[j].value;
    if Denote(v, e) == Denote(u, e) { EqualEither(v, u, w, e); }
    if Denote(v, w) != Denote(u, w) {
      GeneratedNull(v, u);
      AlikeResult(v, u, false, e);
    }
  }

  /** What applying gives for one member of the goal is what RFC 7396 wants. */
  lemma {:induction false} AlikeMember(from: Json, goal: Json, i: int, w: bool, e: bool)
    requires from.Obj? && goal.Obj? && Comparable(from, w) && Comparable(goal, w) && (w ==> e)
        && 0 <= i < |goal.members|
    requires Alike(from, goal, w, e)
    ensures var f, t, k := DenoteMembers(from.members, e), DenoteMembers(goal.members, e), Fold(goal.members[i].key, e);
            StepsAt(Get(f, k), Walk(from, goal, w), k, w, e) == Wanted(f, t, k)
    decreases goal, 0, 1
  {
    var u, k := goal.members[i].value, Fold(goal.members[i].key, e);
    var x, y, f := Arrange(from.members, w), Arrange(goal.members, w), DenoteMembers(from.members, e);
    MemberLists(from, goal, i, w, e);
    Arranged2(goal, w, e);
    LaterIs(goal.members, i, e);
    GetMember(goal.members, k, e);
    hide StepsAt, Steps, DenoteMembers, Comparable, Fold, Denote, Arrange, Rfc, Diff, Alike, AlikeMembers;
    SpineBelow(u, e);
    ApplyIsRfc(VNull, u, e);
    NullIsNull(u, e);
    if NoKey(from.members, k, e) {
      OnlyNew(None, x, y, k, w, e);
    } else {
      InBoth(Get(f, k), x, y, k, w, e);
      var v := Later(x, k, e).value;
      var m := AlikeMeet(from, goal, i, w, e, v);
      AlikeMet(v, goal, i, m, w, e);
    }
  }

  lemma NullIsNull(u: Json, e: bool)
    ensures Denote(u, e) == VNull <==> u.Null?
  {
  }

  /** Keys alike are met at once. */
  lemma AlikeMeet(from: Json, goal: Json, i: int, w: bool, e: bool, v: Json) returns (m: Member)
    requires from.Obj? && goal.Obj? && Comparable(from, w) && Comparable(goal, w) && (w ==> e)
        && 0 <= i < |goal.members|
    requires Alike(from, goal, w, e) && Later(Arrange(from.members, w), Fold(goal.members[i].key, e), e) == Some(v)
    ensures m == goal.members[i] && AlikeMembers(v, goal, i, w, e)
    ensures First(Walk(from, goal, w), Fold(goal.members[i].key, e), e) == Some(Both(v, m))
  {
    var k, x := Fold(goal.members[i].key, e), Arrange(from.members, w);
    m := goal.members[i];
    ArrangeIn(from.members, w);
    Arranged(from.members, w, e);
    Arranged(goal.members, w, e);
    LaterIn(x, k, e);
    var a :| a in x && a.value == v && Fold(a.key, e) == k;
    var r :| 0 <= r < |from.members| && from.members[r] == a;
    assert AlikeMembers(from.members[r].value, goal, i, w, e);
    hide Alike, AlikeMembers, DistinctKeys, Arrange, Fold, Comparable, Later;
    ListsMeet(from.members, goal.members, a, m, w, e);
  }

  /** Two members with the same key, in lists that are sorted as they are walked. */
  lemma ListsMeet(f: seq<Member>, g: seq<Member>, a: Member, m: Member, w: bool, e: bool)
    requires OneOrder(f + g, w) && DistinctKeys(f, w) && DistinctKeys(g, w) && (w ==> e)
    requires a in f && m in g && Fold(a.key, e) == Fold(m.key, e)
    ensures First(Steps(Arrange(f, w), Arrange(g, w)), Fold(m.key, e), e) == Some(Both(a.value, m))
  {
    var x, y := Arrange(f, w), Arrange(g, w);
    ArrangeSorts(f, w);
    ArrangeSorts(g, w);
    ArrangeIn(f, w);
    ArrangeIn(g, w);
    Arranged(f, w, e);
    Arranged(g, w, e);
    SortedAlike(x, f + g, w);
    SortedAlike(y, f + g, w);
    OrderIsKeys(f + g, a, m, w, e);
    hide Arrange, OneOrder, SortedKeys, DistinctKeys, Fold, Steps;
    var p :| 0 <= p < |x| && x[p] == a;
    var q :| 0 <= q < |y| && y[q] == m;
    MetAtOnce(x, y, p, q, e);
  }

  /** Alike, what the generated patch gives is what RFC 7396 gives with the ideal patch. */
  lemma {:induction false} AlikeResult(from: Json, goal: Json, w: bool, e: bool)
    requires Comparable(from, w) && Comparable(goal, w) && (w ==> e) && Alike(from, goal, w, e)
    ensures var f, t := Denote(from, e), Denote(goal, e); Result(from, goal, w, e) == Rfc(f, Diff(f, t))
    decreases goal, 1
  {
    if goal.Obj? && from.Obj? {
      AlikeObjects(from, goal, w, e);
    } else if goal.Obj? {
      GoalSpine(goal, w, e);
      ApplyIsRfc(Denote(from, e), goal, e);
    }
  }

  lemma {:induction false} AlikeObjects(from: Json, goal: Json, w: bool, e: bool)
    requires from.Obj? && goal.Obj? && Comparable(from, w) && Comparable(goal, w) && (w ==> e)
        && Alike(from, goal, w, e)
    ensures var f, t := Denote(from, e), Denote(goal, e); Result(from, goal, w, e) == Rfc(f, Diff(f, t))
    decreases goal, 0, 2
  {
    var f, t := DenoteMembers(from.members, e), DenoteMembers(goal.members, e);
    var steps := Walk(from, goal, w);
    var r, r' := ApplyAll(f, Patches(steps, goal, w), e), Rfc(VObj(f), Diff(VObj(f), VObj(t))).members;
    assert Result(from, goal, w, e) == VObj(r);
    hide Patches, Walk, Alike, Comparable, StepsAt, DenoteMembers, ApplyAll, Rfc, Diff, Wanted;
    forall k ensures Get(r, k) == Get(r', k) {
      PatchesAt(f, steps, goal, k, w, e);
      WantedIs(f, t, k);
      if NoKey(goal.members, k, e) {
        OtherGone(from, goal, k, w, e);
        NotWanted(f, goal, k, w, e);
      } else {
        var i :| 0 <= i < |goal.members| && Fold(goal.members[i].key, e) == k;
        AlikeMember(from, goal, i, w, e);
      }
    }
    MapsSame(r, r');
    DiffOfObjects(f, t);
    RfcGet(f, DiffMap(f, t), "");
  }

  lemma NotWanted(f: map<string, Value>, goal: Json, k: string, w: bool, e: bool)
    requires goal.Obj? && Comparable(goal, w) && (w ==> e) && NoKey(goal.members, k, e)
    ensures Wanted(f, DenoteMembers(goal.members, e), k) == None
  {
    Arranged2(goal, w, e);
    LaterNone(goal.members, k, e);
    GetMember(goal.members, k, e);
  }

  /** Alike, the goal is reached exactly if no null member has to be set. */
  lemma AlikeIsKept(from: Json, goal: Json, w: bool, e: bool)
    requires Comparable(from, w) && Comparable(goal, w) && (w ==> e) && Alike(from, goal, w, e)
    ensures Reaches(from, goal, w, e) <==> Kept(Denote(from, e), Denote(goal, e))
  {
    Exact(from, goal, w, e);
    AlikeResult(from, goal, w, e);
    RoundTrip(Denote(from, e), Denote(goal, e));
  }

  // ---------------------------------------------------------------- without upper-case letters

  /** No upper-case letter in any key. */
  ghost predicate Plain(j: Json)
    decreases j
  {
    match j
    case Arr(items) => forall i :: 0 <= i < |items| ==> Plain(items[i])
    case Obj(ms) => forall i :: 0 <= i < |ms| ==> Lower(ms[i].key) == ms[i].key && Plain(ms[i].value)
    case _ => true
  }

  lemma {:induction false} PlainDenotes(j: Json)
    requires Plain(j)
    ensures Denote(j, false) == Denote(j, true)
    decreases j, 1
  {
    match j
    case Arr(items) =>
      forall i | 0 <= i < |items| ensures Denote(items[i], false) == Denote(items[i], true) { PlainDenotes(items[i]); }
      assert DenoteItems(items, false) == DenoteItems(items, true);
    case Obj(ms) =>
      PlainMembers(j, |ms|);
      assert ms[..|ms|] == ms;
    case _ =>
  }

  lemma {:induction false} PlainMembers(j: Json, n: nat)
    requires j.Obj? && Plain(j) && n <= |j.members|
    ensures DenoteMembers(j.members[..n], false) == DenoteMembers(j.members[..n], true)
    decreases j, 0, n
  {
    if n > 0 {
      var ms := j.members[..n];
      assert ms[..|ms| - 1] == j.members[..n - 1] && ms[|ms| - 1] == j.members[n - 1];
      PlainMembers(j, n - 1);
      PlainDenotes(j.members[n - 1].value);
    }
  }

  /** Trees without upper-case letters in their keys are alike. */
  lemma {:induction false} PlainAlike(from: Json, goal: Json, w: bool, e: bool)
    requires Plain(from) && Plain(goal)
    ensures Alike(from, goal, w, e)
    decreases goal
  {
    if from.Obj? && goal.Obj? {
      var x, y := from.members, goal.members;
      forall i, j | 0 <= i < |x| && 0 <= j < |y| ensures AlikeMembers(x[i].value, goal, j, w, e) {
        PlainDenotes(x[i].value);
        PlainDenotes(y[j].value);
        PlainAlike(x[i].value, y[j].value, false, e);
      }
    }
  }

  // ---------------------------------------------------------------- inputs on which the patch is wrong

  /** The two comparisons order keys with upper-case letters differently. */
  lemma OrdersDisagree()
    ensures Compare("B", "a") < 0 && CompareStrings("a", "B", false) < 0
  {
    assert Lower("B") == "b" && Lower("a") == "a";
    assert "b"[0] == 'b' && "a"[0] == 'a' && "B"[0] == 'B';
  }

  const OldObject := Obj([Member("a", Num(1)), Member("B", Num(2))])
  const NewObject := Obj([Member("B", Num(2))])
  const WrongPatch := Obj([Member("B", Num(2)), Member("a", Null), Member("B", Null)])

  /**
    Taking "a" out of {"a":1,"B":2} without regard to case: the lists are sorted a, B but walked in the
    order B, a, so the patch puts "B" and then removes it, and what it gives is the empty object.
   */
  lemma LosesMember()
    ensures Generated(OldObject, NewObject, false) == Some(WrongPatch)
    ensures Applied(Denote(OldObject, false), WrongPatch, false) == VObj(map[]) != Denote(NewObject, false)
  {
    OrdersDisagree();
    var a, b := Member("a", Num(1)), Member("B", Num(2));
    var x, y := [a, b], [b];
    assert Arrange([b], false) == [b] by { assert [b][1..] == []; }
    assert Arrange(x, false) == x by { assert x[1..] == [b] && Before(a, b, false); }
    CompareSwap("B", "a");
    LosesSteps(a, b);
    LosesPatches(a, b);
    LosesApplied(a, b, false);
  }

  lemma LosesSteps(a: Member, b: Member)
    requires Compare(a.key, b.key) > 0
    ensures Steps([a, b], [b]) == [New(b), Gone(a.key), Gone(b.key)]
  {
    assert [a, b][1..] == [b] && [b][1..] == [];
    assert Steps([b], []) == [Gone(b.key)] + Steps([], []);
    assert Steps([a, b], []) == [Gone(a.key)] + Steps([b], []);
    assert Steps([a, b], [b]) == [New(b)] + Steps([a, b], []);
  }

  lemma LosesPatches(a: Member, b: Member)
    ensures Patches([New(b), Gone(a.key), Gone(b.key)], Obj([b]), false) ==
        [b, Member(a.key, Null), Member(b.key, Null)]
  {
    var s := [New(b), Gone(a.key), Gone(b.key)];
    var g := Obj([b]);
    assert s[1..] == [Gone(a.key), Gone(b.key)] && s[1..][1..] == [Gone(b.key)] && [Gone(b.key)][1..] == [];
    assert Patches([Gone(b.key)], g, false) == [Member(b.key, Null)] + Patches([], g, false);
    assert Patches(s[1..], g, false) == [Member(a.key, Null)] + Patches([Gone(b.key)], g, false);
    assert Patches(s, g, false) == [b] + Patches(s[1..], g, false);
  }

  lemma LosesApplied(a: Member, b: Member, e: bool)
    requires a == Member("a", Num(1)) && b == Member("B", Num(2))
    ensures Applied(Denote(Obj([a, b]), e), Obj([b, Member("a", Null), Member("B", Null)]), e) == VObj(map[])
    ensures Denote(Obj([b]), e) != VObj(map[])
    ensures Denote(Obj([a, b]), e) != Denote(Obj([b]), e)
  {
    var m := DenoteMembers([a, b], e);
    assert [a, b][..1] == [a] && [a][..0] == [] && [b][..0] == [];
    var ka, kb := Fold("a", e), Fold("B", e);
    assert ka[0] == 'a' && kb[0] != 'a';
    assert DenoteMembers([a], e) == map[ka := VNum(1)] && DenoteMembers([b], e) == map[kb := VNum(2)];
    assert m == DenoteMembers([a], e)[kb := VNum(2)] == map[ka := VNum(1), kb := VNum(2)];
    assert ka in m && ka !in DenoteMembers([b], e) && kb in DenoteMembers([b], e);
    var p, q, r := b, Member("a", Null), Member("B", Null);
    assert [p, q, r][1..] == [q, r] && [q, r][1..] == [r] && [r][1..] == [];
    var m1 := ApplyMember(m, p, e);
    var m2 := ApplyMember(m1, q, e);
    assert m1 == m && m2 == m - {ka} && ApplyMember(m2, r, e) == map[];
    assert ApplyAll(m2, [r], e) == ApplyAll(map[], [], e);
    assert ApplyAll(m1, [q, r], e) == ApplyAll(m2, [r], e);
  }

  /** One level down it happens when case counts, too, because nested patches are generated without regard to case. */
  lemma LosesNested()
    ensures var old', new' := Obj([Member("x", OldObject)]), Obj([Member("x", NewObject)]);
            && Generated(old', new', true) == Some(Obj([Member("x", WrongPatch)]))
            && Result(old', new', true, true) == VObj(map["x" := VObj(map[])]) != Denote(new', true)
  {
    LosesMember();
    LosesApplied(Member("a", Num(1)), Member("B", Num(2)), true);
    NestedPatch("x", OldObject, NewObject, WrongPatch);
    hide Applied, Generated;
    NestedResult("x", OldObject, WrongPatch);
    OneMember(Member("x", NewObject));
    assert Denote(Obj([Member("x", NewObject)]), true).members["x"] == Denote(NewObject, true);
  }

  lemma OneMember(a: Member)
    ensures Denote(Obj([a]), true) == VObj(map[a.key := Denote(a.value, true)])
  {
    var ms := [a];
    assert ms[..|ms| - 1] == [] && ms[|ms| - 1] == a;
    assert DenoteMembers(ms, true) == DenoteMembers([], true)[a.key := Denote(a.value, true)];
  }

  lemma ArrangeOne(a: Member, w: bool)
    ensures Arrange([a], w) == [a]
  {
    assert [a][1..] == [];
    assert Arrange([a], w) == Insert(a, Arrange([], w), w);
  }

  lemma StepsOne(k: string, v: Json, u: Json)
    ensures Steps([Member(k, v)], [Member(k, u)]) == [Both(v, Member(k, u))]
  {
    var x, y := [Member(k, v)], [Member(k, u)];
    assert x[1..] == [] && y[1..] == [];
    CompareZero(k, k);
    assert Steps(x, y) == [Both(v, y[0])] + Steps([], []);
  }

  lemma NestedPatch(k: string, v: Json, u: Json, p: Json)
    requires Generated(v, u, false) == Some(p) && Denote(v, true) != Denote(u, true)
    ensures Generated(Obj([Member(k, v)]), Obj([Member(k, u)]), true) == Some(Obj([Member(k, p)]))
  {
    var a, b := Member(k, v), Member(k, u);
    ArrangeOne(a, true);
    ArrangeOne(b, true);
    StepsOne(k, v, u);
    hide Arrange, Steps, Denote;
    var steps, goal := [Both(v, b)], Obj([b]);
    assert Walk(Obj([a]), goal, true) == steps;
    assert steps[1..] == [] && steps[0] == Both(v, b);
    assert Patches(steps, goal, true) == OnePatch(steps[0], goal, true) + Patches([], goal, true);
    assert OnePatch(steps[0], goal, true) == [Member(k, p)];
    var ps := Patches(Walk(Obj([a]), goal, true), goal, true);
    assert ps == [Member(k, p)] + Patches([], goal, true) == [Member(k, p)];
    assert Generated(Obj([a]), goal, true) == if ps == [] then None else Some(Obj(ps));
  }

  lemma NestedResult(k: string, v: Json, p: Json)
    requires p.Obj?
    ensures Applied(Denote(Obj([Member(k, v)]), true), Obj([Member(k, p)]), true) ==
        VObj(map[k := Applied(Denote(v, true), p, true)])
  {
    var a, q := Member(k, v), Member(k, p);
    OneMember(a);
    var m := map[k := Denote(v, true)];
    assert [q][1..] == [];
    assert ApplyAll(m, [q], true) == ApplyAll(ApplyMember(m, q, true), [], true);
    assert ApplyMember(m, q, true) == map[k := Applied(Denote(v, true), p, true)];
  }

  // ---------------------------------------------------------------- the round trip

  /**
    Generating a patch and applying it to a fresh copy of `from` (no patch: leaving it alone). The copy
    is needed because generating sorts its arguments in place and leaves list heads unfit for adding
    members. The goal is given, up to the order of members, and the letter case of keys unless case
    counts, exactly if it is reached.
   */
  method Update(from: Json, goal: Json, cs: bool) returns (result: Json)
    requires Comparable(from, cs) && Comparable(goal, cs)
    ensures Denote(result, cs) == Denote(goal, cs) <==> Reaches(from, goal, cs, cs)
    ensures Alike(from, goal, cs, cs) ==>
              (Denote(result, cs) == Denote(goal, cs) <==> Kept(Denote(from, cs), Denote(goal, cs)))
    ensures Alike(from, goal, cs, cs) && Solid(Denote(goal, cs)) ==> Denote(result, cs) == Denote(goal, cs)
  {
    Exact(from, goal, cs, cs);
    if Alike(from, goal, cs, cs) { AlikeIsKept(from, goal, cs, cs); }
    if Solid(Denote(goal, cs)) { SolidIsKept(Denote(from, cs), Denote(goal, cs)); }
    var patch := GenerateMergePatch(Some(from), Some(goal), cs);
    if patch.None? { return from; }
    if from.Obj? { GoalSpine(from, cs, cs); }
    result := MergePatch(Some(from), patch.value, cs);
  }
}
