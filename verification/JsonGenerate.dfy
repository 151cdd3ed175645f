/**
  Generating merge patches, and exactly when applying what was generated gives the goal.
  Source: liblinktool/cJSON/cJSON_Utils.c, lines 1386-1470.
 */
module JsonGenerate {
  import opened JsonCompare
  import opened JsonPatch
  import opened JsonTree
  import opened JsonValue
  import opened Wrappers

  // ---------------------------------------------------------------- the walk over two lists of members

  /** What the walk meets: a key only the first list has next, a member only the second has next, or both. */
  datatype Step = Gone(key: string) | New(m: Member) | Both(v: Json, m: Member)

  /** The walk always compares keys with `strcmp`, whatever the lists were sorted by. */
  function Steps(x: seq<Member>, y: seq<Member>): seq<Step>
    decreases |x| + |y|
  {
    if x == [] && y == [] then []
    else if y == [] || (x != [] && Compare(x[0].key, y[0].key) < 0) then [Gone(x[0].key)] + Steps(x[1..], y)
    else if x == [] || Compare(x[0].key, y[0].key) > 0 then [New(y[0])] + Steps(x, y[1..])
    else [Both(x[0].value, y[0])] + Steps(x[1..], y[1..])
  }

  ghost predicate GoalsIn(steps: seq<Step>, ms: seq<Member>) {
    forall i :: 0 <= i < |steps| ==> (steps[i].New? || steps[i].Both?) ==> steps[i].m in ms
  }

  lemma {:induction false} StepsGoals(x: seq<Member>, y: seq<Member>, ms: seq<Member>)
    requires forall m :: m in y ==> m in ms
    ensures GoalsIn(Steps(x, y), ms)
    decreases |x| + |y|
  {
    if x == [] && y == [] {
    } else if y == [] || (x != [] && Compare(x[0].key, y[0].key) < 0) {
      StepsGoals(x[1..], y, ms);
    } else if x == [] || Compare(x[0].key, y[0].key) > 0 {
      assert forall m :: m in y[1..] ==> m in y;
      StepsGoals(x, y[1..], ms);
    } else {
      assert forall m :: m in y[1..] ==> m in y;
      StepsGoals(x[1..], y[1..], ms);
    }
  }

  lemma {:induction false} ArrangeIn(ms: seq<Member>, cs: bool)
    ensures forall m :: m in Arrange(ms, cs) <==> m in ms
  {
    if ms != [] {
      ArrangeIn(ms[1..], cs);
      InsertIn(ms[0], Arrange(ms[1..], cs), cs);
      assert ms == [ms[0]] + ms[1..];
    }
  }

  lemma {:induction false} InsertIn(x: Member, ms: seq<Member>, cs: bool)
    ensures forall m :: m in Insert(x, ms, cs) <==> m == x || m in ms
  {
    if ms != [] && !Before(x, ms[0], cs) {
      InsertIn(x, ms[1..], cs);
      assert ms == [ms[0]] + ms[1..];
    }
  }

  // ---------------------------------------------------------------- the patch, as a function

  /** Both objects sorted and walked through. */
  ghost function Walk(from: Json, goal: Json, w: bool): (steps: seq<Step>)
    requires from.Obj? && goal.Obj?
    ensures GoalsIn(steps, goal.members)
  {
    ArrangeIn(goal.members, w);
    StepsGoals(Arrange(from.members, w), Arrange(goal.members, w), goal.members);
    Steps(Arrange(from.members, w), Arrange(goal.members, w))
  }

  /**
    The patch between two trees, or none. `w` says whether case counts; below the top it never does,
    because the nested patches come from the entry point that ignores case.
   */
  ghost function Generated(from: Json, goal: Json, w: bool): Option<Json>
    decreases goal, 1, 0
  {
    if !from.Obj? || !goal.Obj? then Some(goal)
    else
      var ps := Patches(Walk(from, goal, w), goal, w);
      if ps == [] then None else Some(Obj(ps))
  }

  ghost function Patches(steps: seq<Step>, goal: Json, w: bool): seq<Member>
    requires goal.Obj? && GoalsIn(steps, goal.members)
    decreases goal, 0, |steps|
  {
    if steps == [] then [] else OnePatch(steps[0], goal, w) + Patches(steps[1..], goal, w)
  }

  /** What one step adds to the patch. */
  ghost function OnePatch(s: Step, goal: Json, w: bool): seq<Member>
    requires goal.Obj? && (s.New? || s.Both? ==> s.m in goal.members)
    decreases goal, 0, 0
  {
    match s
    case Gone(key) => [Member(key, Null)]
    case New(m) => [m]
    case Both(v, m) =>
      if Denote(v, w) == Denote(m.value, w) then []
      else
        match Generated(v, m.value, false)
        case None => []
        case Some(p) => [Member(m.key, p)]
  }

  /** What `generate_merge_patch` can be given: no key twice to the comparisons that will be used. */
  ghost predicate Comparable(j: Json, w: bool) {
    if j.Obj? then DistinctKeys(j.members, w) && forall i :: 0 <= i < |j.members| ==> Proper(j.members[i].value, false)
    else Proper(j, false)
  }

  lemma ComparableBelow(j: Json, w: bool, m: Member)
    requires j.Obj? && Comparable(j, w) && m in j.members
    ensures Proper(m.value, false) && Comparable(m.value, false)
  {
  }

  lemma DistinctBoth(ms: seq<Member>, w: bool)
    requires DistinctKeys(ms, false)
    ensures DistinctKeys(ms, w)
  {
  }

  /** Distinct when case is ignored is distinct when it counts. */
  lemma {:induction false} ProperBoth(j: Json, cs: bool)
    requires Proper(j, false)
    ensures Proper(j, cs)
    decreases j
  {
    match j
    case Arr(items) =>
      forall i | 0 <= i < |items| ensures Proper(items[i], cs) { ProperBoth(items[i], cs); }
    case Obj(ms) =>
      DistinctBoth(ms, cs);
      forall i | 0 <= i < |ms| ensures Proper(ms[i].value, cs) { ProperBoth(ms[i].value, cs); }
    case _ =>
  }

  // ---------------------------------------------------------------- generate_merge_patch

  /** generate_merge_patch */
  method GenerateMergePatch(from: Option<Json>, goal: Option<Json>, w: bool) returns (patch: Option<Json>)
    requires (from.Some? ==> Comparable(from.value, w)) && (goal.Some? ==> Comparable(goal.value, w))
    ensures patch ==
            if goal.None? then Some(Null)
            else if from.None? then goal
            else Generated(from.value, goal.value, w)
    decreases if goal.Some? then goal.value else Null, 3
  {
    if goal.None? { return Some(Null); }
    if !goal.value.Obj? || from.None? || !from.value.Obj? { return goal; }
    var ms := GenerateMembers(from.value, goal.value, w);
    patch := if ms == [] then None else Some(Obj(ms));
  }

  method GenerateMembers(from: Json, goal: Json, w: bool) returns (patch: seq<Member>)
    requires from.Obj? && goal.Obj? && Comparable(from, w) && Comparable(goal, w)
    ensures patch == Patches(Walk(from, goal, w), goal, w)
    decreases goal, 2
  {
    var x := SortList(from.members, w);
    var y := SortList(goal.members, w);
    ArrangeIn(from.members, w);
    ArrangeIn(goal.members, w);
    StepsGoals(x, y, goal.members);
    patch := WalkThrough(from, goal, x, y, w);
  }

  /** The loop over both sorted lists. */
  method WalkThrough(ghost from: Json, ghost goal: Json, x: seq<Member>, y: seq<Member>, w: bool)
      returns (patch: seq<Member>)
    requires from.Obj? && goal.Obj? && Comparable(from, w) && Comparable(goal, w)
    requires (forall m :: m in x ==> m in from.members) && (forall m :: m in y ==> m in goal.members)
    requires GoalsIn(Steps(x, y), goal.members)
    ensures patch == Patches(Steps(x, y), goal, w)
    decreases goal, 1
  {
    patch := [];
    var i, j := 0, 0;
    assert x[0..] == x && y[0..] == y && Sum([], x, y, 0, 0, goal, w) == Patches(Steps(x, y), goal, w);
    hide Comparable, Denote, Proper, Compare, Steps, Patches, OnePatch, GoalsIn, Sum;
    while i < |x| || j < |y|
      invariant 0 <= i <= |x| && 0 <= j <= |y| && GoalsIn(Steps(x[i..], y[j..]), goal.members)
      invariant Sum(patch, x, y, i, j, goal, w) == Patches(Steps(x, y), goal, w)
      decreases |x| - i + |y| - j
    {
      var diff := if i < |x| then (if j < |y| then Compare(x[i].key, y[j].key) else -1) else 1;
      NextPatch(patch, x, y, i, j, goal, w);
      if diff < 0 {
        patch := patch + [Member(x[i].key, Null)];
        i := i + 1;
      } else if diff > 0 {
        patch := patch + [y[j]];
        j := j + 1;
      } else {
        var ps := GenerateCommon(from, goal, x[i], y[j], w);
        patch := patch + ps;
        i, j := i + 1, j + 1;
      }
    }
    NoSteps(patch, x, y, goal, w);
  }

  /** The patch so far and what the rest of the walk will add. */
  ghost function Sum(patch: seq<Member>, x: seq<Member>, y: seq<Member>, i: int, j: int, goal: Json,
                     w: bool): seq<Member>
    requires 0 <= i <= |x| && 0 <= j <= |y| && goal.Obj? && GoalsIn(Steps(x[i..], y[j..]), goal.members)
  {
    patch + Patches(Steps(x[i..], y[j..]), goal, w)
  }

  lemma NoSteps(patch: seq<Member>, x: seq<Member>, y: seq<Member>, goal: Json, w: bool)
    requires goal.Obj? && GoalsIn(Steps(x[|x|..], y[|y|..]), goal.members)
    ensures Sum(patch, x, y, |x|, |y|, goal, w) == patch
  {
    assert x[|x|..] == [] && y[|y|..] == [];
  }

  /** What one round of the loop adds. */
  lemma NextPatch(patch: seq<Member>, x: seq<Member>, y: seq<Member>, i: int, j: int, goal: Json, w: bool)
    requires 0 <= i <= |x| && 0 <= j <= |y| && (i < |x| || j < |y|)
    requires goal.Obj? && GoalsIn(Steps(x[i..], y[j..]), goal.members)
    ensures var diff := if i < |x| then (if j < |y| then Compare(x[i].key, y[j].key) else -1) else 1;
            var i', j' := if diff > 0 then i else i + 1, if diff < 0 then j else j + 1;
            && i' <= |x| && j' <= |y| && GoalsIn(Steps(x[i'..], y[j'..]), goal.members)
            && (diff == 0 ==> i < |x| && j < |y| && y[j] in goal.members)
            && var ps :=
                 if diff < 0 then [Member(x[i].key, Null)]
                 else if diff > 0 then [y[j]]
                 else OnePatch(Both(x[i].value, y[j]), goal, w);
               Sum(patch + ps, x, y, i', j', goal, w) == Sum(patch, x, y, i, j, goal, w)
  {
    NextStep(x, y, i, j, goal, w);
    var s := Steps(x[i..], y[j..]);
    PatchMore(patch, OnePatch(s[0], goal, w), Patches(s[1..], goal, w));
  }

  lemma PatchMore(a: seq<Member>, b: seq<Member>, c: seq<Member>)
    ensures a + (b + c) == a + b + c
  {
  }

  /** The next step of the walk, in the terms of the loop. */
  lemma NextStep(x: seq<Member>, y: seq<Member>, i: int, j: int, goal: Json, w: bool)
    requires 0 <= i <= |x| && 0 <= j <= |y| && (i < |x| || j < |y|)
    requires goal.Obj? && GoalsIn(Steps(x[i..], y[j..]), goal.members)
    ensures var s := Steps(x[i..], y[j..]);
            var diff := if i < |x| then (if j < |y| then Compare(x[i].key, y[j].key) else -1) else 1;
            && s != [] && GoalsIn(s[1..], goal.members)
              && Patches(s, goal, w) == OnePatch(s[0], goal, w) + Patches(s[1..], goal, w)
            && (if diff < 0 then s[0] == Gone(x[i].key) && s[1..] == Steps(x[i + 1..], y[j..])
                else if diff > 0 then s[0] == New(y[j]) && s[1..] == Steps(x[i..], y[j + 1..])
                else i < |x| && j < |y| && s[0] == Both(x[i].value, y[j]) && s[1..] == Steps(x[i + 1..], y[j + 1..]))
  {
    assert i < |x| ==> x[i..][0] == x[i] && x[i..][1..] == x[i + 1..];
    assert j < |y| ==> y[j..][0] == y[j] && y[j..][1..] == y[j + 1..];
    var s := Steps(x[i..], y[j..]);
    forall k | 0 <= k < |s[1..]| && (s[1..][k].New? || s[1..][k].Both?) ensures s[1..][k].m in goal.members {
      assert s[1..][k] == s[k + 1];
    }
  }

  /** A key in both lists: nothing if the values are equal, else their patch if there is one. */
  method GenerateCommon(ghost from: Json, ghost goal: Json, a: Member, b: Member, w: bool) returns (ps: seq<Member>)
    requires from.Obj? && goal.Obj? && Comparable(from, w) && Comparable(goal, w) && a in from.members
        && b in goal.members
    ensures ps == OnePatch(Both(a.value, b), goal, w)
    decreases goal, 0
  {
    ComparableBelow(from, w, a);
    ComparableBelow(goal, w, b);
    ProperBoth(a.value, w);
    ProperBoth(b.value, w);
    hide Comparable, Denote, Proper;
    ps := [];
    var identical := CompareJson(a.value, b.value, w);
    if !identical {
      var child := GenerateMergePatch(Some(a.value), Some(b.value), false);
      if child.Some? { ps := [Member(b.key, child.value)]; }
    }
  }
}
