/**
  The generated patch itself: where both orders of keys agree it is the ideal one, with a member for
  every key that differs and for no other.
  Source: liblinktool/cJSON/cJSON_Utils.c, lines 1386-1470.
 */
module JsonIdeal {
  import opened JsonExact
  import opened JsonGenerate
  import opened JsonTree
  import opened JsonUpdate
  import opened JsonValue
  import opened Wrappers

  // ---------------------------------------------------------------- one step for each key

  /** At most one step concerns the key. */
  ghost predicate Once(steps: seq<Step>, k: string, e: bool)
    decreases |steps|
  {
    steps == [] || if StepKey(steps[0], e) == k then First(steps[1..], k, e) == None else Once(steps[1..], k, e)
  }

  lemma {:induction false} NoneIsOnce(steps: seq<Step>, k: string, e: bool)
    requires First(steps, k, e) == None
    ensures Once(steps, k, e)
    decreases |steps|
  {
    if steps != [] { NoneIsOnce(steps[1..], k, e); }
  }

  /** Members that are the same to one comparison have the same key. */
  ghost predicate OneSpelling(x: seq<Member>, y: seq<Member>, k: string, e: bool) {
    forall a, b :: a in x && b in y && Fold(a.key, e) == k && Fold(b.key, e) == k ==> a.key == b.key
  }

  /** The smaller of two sorted lists' heads is in the other list nowhere. */
  lemma HeadAlone(a: Member, y: seq<Member>, k: string, e: bool)
    requires Fold(a.key, e) == k && OneSpelling([a], y, k, e) && SortedKeys(y, true)
    requires y != [] ==> Compare(a.key, y[0].key) < 0
    ensures NoKey(y, k, e)
  {
    forall j | 0 <= j < |y| ensures Fold(y[j].key, e) != k {
      if Fold(y[j].key, e) == k {
        assert a in [a] && y[j] in y;
        CompareZero(a.key, a.key);
        if j > 0 {
          assert Before(y[0], y[j], true);
          CompareTrans(a.key, y[0].key, y[j].key);
        }
        assert false;
      }
    }
  }

  lemma {:induction false} WalkOnce(x: seq<Member>, y: seq<Member>, k: string, e: bool)
    requires SortedKeys(x, true) && SortedKeys(y, true) && DistinctKeys(x, e) && DistinctKeys(y, e)
    requires OneSpelling(x, y, k, e)
    ensures Once(Steps(x, y), k, e)
    decreases |x| + |y|
  {
    if x == [] && y == [] {
    } else if y == [] || (x != [] && Compare(x[0].key, y[0].key) < 0) {
      OnceAtGone(x, y, k, e);
    } else if x == [] || Compare(x[0].key, y[0].key) > 0 {
      OnceAtNew(x, y, k, e);
    } else {
      OnceAtBoth(x, y, k, e);
    }
  }

  lemma Tails(x: seq<Member>, y: seq<Member>, k: string, e: bool)
    requires x != [] && SortedKeys(x, true) && DistinctKeys(x, e) && OneSpelling(x, y, k, e)
    ensures SortedKeys(x[1..], true) && DistinctKeys(x[1..], e) && OneSpelling(x[1..], y, k, e)
    ensures OneSpelling(y, x[1..], k, e) && OneSpelling([x[0]], y, k, e)
    ensures Fold(x[0].key, e) == k ==> NoKey(x[1..], k, e)
  {
    forall i, j | 0 <= i < j < |x[1..]| ensures Before(x[1..][i], x[1..][j], true) {
      assert Before(x[i + 1], x[j + 1], true);
    }
  }

  lemma {:induction false} OnceAtGone(x: seq<Member>, y: seq<Member>, k: string, e: bool)
    requires x != [] && (y == [] || Compare(x[0].key, y[0].key) < 0)
    requires SortedKeys(x, true) && SortedKeys(y, true) && DistinctKeys(x, e) && DistinctKeys(y, e)
    requires OneSpelling(x, y, k, e)
    ensures Once(Steps(x, y), k, e)
    decreases |x| + |y|, 0
  {
    Tails(x, y, k, e);
    assert Steps(x, y) == [Gone(x[0].key)] + Steps(x[1..], y);
    assert Steps(x, y)[1..] == Steps(x[1..], y);
    hide SortedKeys, DistinctKeys, OneSpelling;
    if Fold(x[0].key, e) == k {
      HeadAlone(x[0], y, k, e);
      Untouched(None, x[1..], y, k, true, e);
    } else {
      WalkOnce(x[1..], y, k, e);
    }
  }

  lemma {:induction false} OnceAtNew(x: seq<Member>, y: seq<Member>, k: string, e: bool)
    requires y != [] && (x == [] || Compare(x[0].key, y[0].key) > 0)
    requires SortedKeys(x, true) && SortedKeys(y, true) && DistinctKeys(x, e) && DistinctKeys(y, e)
    requires OneSpelling(x, y, k, e)
    ensures Once(Steps(x, y), k, e)
    decreases |x| + |y|, 0
  {
    if x != [] { CompareSwap(y[0].key, x[0].key); }
    Tails(y, x, k, e);
    assert Steps(x, y) == [New(y[0])] + Steps(x, y[1..]);
    assert Steps(x, y)[1..] == Steps(x, y[1..]);
    hide SortedKeys, DistinctKeys, OneSpelling;
    if Fold(y[0].key, e) == k {
      HeadAlone(y[0], x, k, e);
      Untouched(None, x, y[1..], k, true, e);
    } else {
      WalkOnce(x, y[1..], k, e);
    }
  }

  lemma {:induction false} OnceAtBoth(x: seq<Member>, y: seq<Member>, k: string, e: bool)
    requires x != [] && y != [] && Compare(x[0].key, y[0].key) == 0
    requires SortedKeys(x, true) && SortedKeys(y, true) && DistinctKeys(x, e) && DistinctKeys(y, e)
    requires OneSpelling(x, y, k, e)
    ensures Once(Steps(x, y), k, e)
    decreases |x| + |y|, 0
  {
    CompareZero(x[0].key, y[0].key);
    Tails(x, y, k, e);
    Tails(y, x, k, e);
    assert OneSpelling(x[1..], y[1..], k, e);
    assert Steps(x, y) == [Both(x[0].value, y[0])] + Steps(x[1..], y[1..]);
    assert Steps(x, y)[1..] == Steps(x[1..], y[1..]);
    hide SortedKeys, DistinctKeys, OneSpelling;
    if Fold(y[0].key, e) == k {
      Untouched(None, x[1..], y[1..], k, true, e);
    } else {
      WalkOnce(x[1..], y[1..], k, e);
    }
  }

  // ---------------------------------------------------------------- the members of the patch

  /** What the patch holds for a key, given the step that concerns it. */
  ghost function PatchOf(o: Option<Step>, goal: Json, w: bool): Option<Json>
    requires goal.Obj? && (o.Some? && (o.value.New? || o.value.Both?) ==> o.value.m in goal.members)
  {
    if o.None? then None
    else
      var ps := OnePatch(o.value, goal, w);
      if ps == [] then None else Some(ps[0].value)
  }

  lemma {:induction false} FirstInGoal(steps: seq<Step>, goal: Json, k: string, e: bool)
    requires goal.Obj? && GoalsIn(steps, goal.members)
    ensures var s := First(steps, k, e);
            && (s.Some? && (s.value.New? || s.value.Both?) ==> s.value.m in goal.members)
            && (s.Some? ==> StepKey(s.value, e) == k)
    decreases |steps|
  {
    if steps != [] {
      RestInGoal(steps, goal.members);
      FirstInGoal(steps[1..], goal, k, e);
    }
  }

  lemma RestInGoal(steps: seq<Step>, ms: seq<Member>)
    requires steps != [] && GoalsIn(steps, ms)
    ensures GoalsIn(steps[1..], ms) && (steps[0].New? || steps[0].Both? ==> steps[0].m in ms)
  {
    forall i | 0 <= i < |steps[1..]| && (steps[1..][i].New? || steps[1..][i].Both?) ensures steps[1..][i].m in ms {
      assert steps[1..][i] == steps[i + 1];
    }
  }

  lemma OnePatchShape(s: Step, goal: Json, w: bool, e: bool)
    requires goal.Obj? && (s.New? || s.Both? ==> s.m in goal.members)
    ensures var ps := OnePatch(s, goal, w); |ps| <= 1 && (ps != [] ==> Fold(ps[0].key, e) == StepKey(s, e))
  {
  }

  lemma {:induction false} PatchLater(steps: seq<Step>, goal: Json, k: string, w: bool, e: bool)
    requires goal.Obj? && GoalsIn(steps, goal.members) && Once(steps, k, e)
    ensures First(steps, k, e).Some? && (First(steps, k, e).value.New? || First(steps, k, e).value.Both?) ==>
              First(steps, k, e).value.m in goal.members
    ensures Later(Patches(steps, goal, w), k, e) == PatchOf(First(steps, k, e), goal, w)
    decreases |steps|
  {
    FirstInGoal(steps, goal, k, e);
    if steps != [] {
      var rest := steps[1..];
      RestInGoal(steps, goal.members);
      OnePatchShape(steps[0], goal, w, e);
      if StepKey(steps[0], e) == k { NoneIsOnce(rest, k, e); }
      PatchLater(rest, goal, k, w, e);
      LaterBehind(OnePatch(steps[0], goal, w), Patches(rest, goal, w), k, e);
    }
  }

  lemma LaterBehind(one: seq<Member>, rest: seq<Member>, k: string, e: bool)
    requires |one| <= 1
    ensures Later(one + rest, k, e) ==
              if one != [] && Fold(one[0].key, e) == k then Some(one[0].value) else Later(rest, k, e)
  {
    if one == [] {
      assert one + rest == rest;
    } else {
      assert (one + rest)[1..] == rest;
    }
  }

  lemma {:induction false} PatchesDistinct(steps: seq<Step>, goal: Json, w: bool, e: bool)
    requires goal.Obj? && GoalsIn(steps, goal.members) && forall k :: Once(steps, k, e)
    ensures DistinctKeys(Patches(steps, goal, w), e)
    decreases |steps|
  {
    if steps != [] {
      var one, rest := OnePatch(steps[0], goal, w), Patches(steps[1..], goal, w);
      RestInGoal(steps, goal.members);
      forall k ensures Once(steps[1..], k, e) {
        assert Once(steps, k, e);
        if StepKey(steps[0], e) == k { NoneIsOnce(steps[1..], k, e); }
      }
      PatchesDistinct(steps[1..], goal, w, e);
      OnePatchShape(steps[0], goal, w, e);
      var k := StepKey(steps[0], e);
      assert Once(steps, k, e);
      PatchLater(steps[1..], goal, k, w, e);
      LaterNone(rest, k, e);
      OneMore(one, rest, k, e);
    }
  }

  lemma OneMore(one: seq<Member>, rest: seq<Member>, k: string, e: bool)
    requires |one| <= 1 && (one != [] ==> Fold(one[0].key, e) == k) && NoKey(rest, k, e) && DistinctKeys(rest, e)
    ensures DistinctKeys(one + rest, e)
  {
    var all := one + rest;
    forall i, j | 0 <= i < j < |all| ensures Fold(all[i].key, e) != Fold(all[j].key, e) {
      assert all[j] == rest[j - |one|];
      if i >= |one| { assert all[i] == rest[i - |one|]; }
    }
  }

  // ---------------------------------------------------------------- the ideal patch

  /** `m` is a member of the goal that the value is alike to. */
  ghost predicate AlikeSome(v: Json, m: Member, goal: Json, w: bool, e: bool)
    requires goal.Obj?
  {
    exists j :: 0 <= j < |goal.members| && goal.members[j] == m && AlikeMembers(v, goal, j, w, e)
  }

  /** The step for a key tells which of the objects have it. */
  ghost predicate StepFits(s: Option<Step>, from: Json, goal: Json, k: string, w: bool, e: bool)
    requires from.Obj? && goal.Obj?
  {
    var f, g := Later(from.members, k, e), Later(goal.members, k, e);
    if s.None? then f.None? && g.None?
    else if s.value.Gone? then f.Some? && g.None?
    else if s.value.New? then f.None? && g == Some(s.value.m.value)
    else
      && f == Some(s.value.v) && g == Some(s.value.m.value)
      && AlikeSome(s.value.v, s.value.m, goal, w, e)
  }

  /** The walk has one step for each key, the one that fits. */
  lemma AlikeStep(from: Json, goal: Json, k: string, w: bool, e: bool)
    requires from.Obj? && goal.Obj? && Comparable(from, w) && Comparable(goal, w) && (w ==> e)
    requires Alike(from, goal, w, e)
    ensures Once(Walk(from, goal, w), k, e)
    ensures DistinctKeys(from.members, e) && DistinctKeys(goal.members, e)
    ensures StepFits(First(Walk(from, goal, w), k, e), from, goal, k, w, e)
  {
    hide Alike, AlikeMembers, OneOrder, SortedKeys, Steps, Once, First, Later, NoKey, Proper;
    var f, g := from.members, goal.members;
    var x, y := Arrange(f, w), Arrange(g, w);
    Arranged(f, w, e);
    Arranged(g, w, e);
    AlikeOnce(from, goal, k, w, e);
    LaterNone(g, k, e);
    LaterNone(f, k, e);
    if NoKey(f, k, e) && NoKey(g, k, e) {
      Untouched(None, x, y, k, w, e);
    } else if NoKey(g, k, e) {
      OnlyGone(None, x, y, k, w, e);
    } else if NoKey(f, k, e) {
      LaterNone(y, k, e);
      OnlyNew(None, x, y, k, w, e);
      NewFromGoal(from, goal, k, w, e);
    } else {
      BothFromGoal(from, goal, k, w, e);
    }
  }

  lemma AlikeOnce(from: Json, goal: Json, k: string, w: bool, e: bool)
    requires from.Obj? && goal.Obj? && Comparable(from, w) && Comparable(goal, w) && (w ==> e)
    requires Alike(from, goal, w, e)
    ensures Once(Walk(from, goal, w), k, e)
  {
    hide AlikeMembers, Steps, Once, Arrange, Proper;
    var f, g := from.members, goal.members;
    var x, y := Arrange(f, w), Arrange(g, w);
    Arranged(f, w, e);
    Arranged(g, w, e);
    ArrangeSorts(f, w);
    ArrangeSorts(g, w);
    ArrangeIn(f, w);
    ArrangeIn(g, w);
    SortedAlike(x, f + g, w);
    SortedAlike(y, f + g, w);
    forall a, b | a in x && b in y && Fold(a.key, e) == k && Fold(b.key, e) == k ensures a.key == b.key {
      OrderIsKeys(f + g, a, b, w, e);
    }
    WalkOnce(x, y, k, e);
  }

  lemma NewFromGoal(from: Json, goal: Json, k: string, w: bool, e: bool)
    requires from.Obj? && goal.Obj? && DistinctKeys(goal.members, e)
    requires First(Walk(from, goal, w), k, e).Some? && First(Walk(from, goal, w), k, e).value.New?
    ensures Later(goal.members, k, e) == Some(First(Walk(from, goal, w), k, e).value.m.value)
  {
    FirstInGoal(Walk(from, goal, w), goal, k, e);
    var m := First(Walk(from, goal, w), k, e).value.m;
    var j :| 0 <= j < |goal.members| && goal.members[j] == m;
    LaterIs(goal.members, j, e);
  }

  lemma BothFromGoal(from: Json, goal: Json, k: string, w: bool, e: bool)
    requires from.Obj? && goal.Obj? && Comparable(from, w) && Comparable(goal, w) && (w ==> e)
    requires Alike(from, goal, w, e) && !NoKey(from.members, k, e) && !NoKey(goal.members, k, e)
    requires DistinctKeys(from.members, e) && DistinctKeys(goal.members, e)
    ensures var s := First(Walk(from, goal, w), k, e);
            && s.Some? && s.value.Both?
            && Later(from.members, k, e) == Some(s.value.v) && Later(goal.members, k, e) == Some(s.value.m.value)
            && AlikeSome(s.value.v, s.value.m, goal, w, e)
  {
    var f, g := from.members, goal.members;
    var i :| 0 <= i < |f| && Fold(f[i].key, e) == k;
    var j :| 0 <= j < |g| && Fold(g[j].key, e) == k;
    LaterIs(f, i, e);
    LaterIs(g, j, e);
    assert AlikeMembers(f[i].value, goal, j, w, e);
    ListsMeet(f, g, f[i], g[j], w, e);
  }

  /** What the patch says of one key is what the ideal patch says of it. */
  lemma {:induction false} IdealAt(from: Json, goal: Json, k: string, w: bool, e: bool)
    requires from.Obj? && goal.Obj? && Comparable(from, w) && Comparable(goal, w) && (w ==> e)
    requires Alike(from, goal, w, e)
    ensures var f, t := DenoteMembers(from.members, e), DenoteMembers(goal.members, e);
            var l := Later(Patches(Walk(from, goal, w), goal, w), k, e);
            Get(DiffMap(f, t), k) == if l.Some? then Some(Denote(l.value, e)) else None
    decreases goal, 0, 1
  {
    hide Alike, AlikeMembers, Comparable, DenoteMembers, Patches, Once, First, Later, Diff, Steps, Arrange;
    var steps := Walk(from, goal, w);
    AlikeStep(from, goal, k, w, e);
    PatchLater(steps, goal, k, w, e);
    GetMember(from.members, k, e);
    GetMember(goal.members, k, e);
    LaterNone(from.members, k, e);
    LaterNone(goal.members, k, e);
    var s := First(steps, k, e);
    if s.Some? && s.value.Both? {
      var v, m := s.value.v, s.value.m;
      var j :| 0 <= j < |goal.members| && goal.members[j] == m && AlikeMembers(v, goal, j, w, e);
      LaterMember(from, k, w, e);
      IdealBelow(v, goal, j, w, e);
    }
  }

  lemma LaterMember(from: Json, k: string, w: bool, e: bool)
    requires from.Obj? && Comparable(from, w) && Later(from.members, k, e).Some?
    ensures Proper(Later(from.members, k, e).value, false)
  {
    LaterIn(from.members, k, e);
  }

  /** The patch for two values met in both lists. */
  lemma {:induction false} IdealBelow(v: Json, goal: Json, j: int, w: bool, e: bool)
    requires goal.Obj? && 0 <= j < |goal.members| && AlikeMembers(v, goal, j, w, e) && (w ==> e)
    requires Comparable(goal, w) && Proper(v, false)
    ensures var m := goal.members[j];
            var f, t := Denote(v, e), Denote(m.value, e);
            var ps := OnePatch(Both(v, m), goal, w);
            if f == t then ps == [] else |ps| == 1 && Denote(ps[0].value, e) == Diff(f, t)
    decreases goal, 0, 0
  {
    var u := goal.members[j].value;
    ComparableBelow(goal, w, goal.members[j]);
    if Denote(v, e) == Denote(u, e) { EqualEither(v, u, w, e); }
    if Denote(v, w) != Denote(u, w) {
      ProperComparable(v);
      IdealPatch(v, u, false, e);
    }
  }

  lemma ProperComparable(v: Json)
    requires Proper(v, false)
    ensures Comparable(v, false)
  {
  }

  /**
    Alike, the generated patch is the ideal one: for every key that differs what RFC 7396 needs there, and
    nothing for any other; there is none exactly if both are equal objects.
   */
  lemma {:induction false} IdealPatch(from: Json, goal: Json, w: bool, e: bool)
    requires Comparable(from, w) && Comparable(goal, w) && (w ==> e) && Alike(from, goal, w, e)
    ensures var f, t := Denote(from, e), Denote(goal, e);
            match Generated(from, goal, w)
            case None => from.Obj? && goal.Obj? && f == t
            case Some(p) => Denote(p, e) == Diff(f, t) && (from.Obj? && goal.Obj? ==> f != t)
    decreases goal, 1, 0
  {
    if from.Obj? && goal.Obj? {
      var f, t := DenoteMembers(from.members, e), DenoteMembers(goal.members, e);
      var steps := Walk(from, goal, w);
      var ps := Patches(steps, goal, w);
      forall k ensures Once(steps, k, e) { AlikeStep(from, goal, k, w, e); }
      PatchesDistinct(steps, goal, w, e);
      forall k ensures Get(DenoteMembers(ps, e), k) == Get(DiffMap(f, t), k) {
        IdealAt(from, goal, k, w, e);
        GetMember(ps, k, e);
      }
      MapsSame(DenoteMembers(ps, e), DiffMap(f, t));
      DiffOfObjects(f, t);
      NoDifference(f, t);
      EmptyPatch(ps, e);
    }
  }

  lemma NoDifference(f: map<string, Value>, t: map<string, Value>)
    ensures DiffMap(f, t) == map[] <==> f == t
  {
    forall k ensures k in DiffMap(f, t) <==> Get(f, k) != Get(t, k) {
    }
    if DiffMap(f, t) == map[] { MapsSame(f, t); }
  }

  lemma EmptyPatch(ps: seq<Member>, e: bool)
    ensures DenoteMembers(ps, e) == map[] <==> ps == []
  {
    if ps != [] { assert Fold(ps[|ps| - 1].key, e) in DenoteMembers(ps, e); }
  }
}
