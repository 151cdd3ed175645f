/**
  Exactly when a generated patch, applied to a fresh copy, gives the goal.
  Source: liblinktool/cJSON/cJSON_Utils.c, lines 1325-1470.
 */
module JsonExact {
  import opened JsonCompare
  import opened JsonGenerate
  import opened JsonPatch
  import opened JsonTree
  import opened JsonValue
  import opened Wrappers

  // ---------------------------------------------------------------- what applying does to one key

  ghost function Get(m: map<string, Value>, k: string): Option<Value> {
    if k in m then Some(m[k]) else None
  }

  ghost function Val(o: Option<Value>): Value {
    if o.Some? then o.value else VNull
  }

  /** A patch member at its key. */
  ghost function Put(o: Option<Value>, p: Json, e: bool): Option<Value> {
    if p.Null? then None else Some(Applied(Val(o), p, e))
  }

  lemma PutHere(m: map<string, Value>, p: Member, k: string, e: bool)
    ensures Get(ApplyMember(m, p, e), k) == if k == Fold(p.key, e) then Put(Get(m, k), p.value, e) else Get(m, k)
  {
  }

  ghost function StepKey(s: Step, e: bool): string {
    match s
    case Gone(key) => Fold(key, e)
    case New(m) => Fold(m.key, e)
    case Both(_, m) => Fold(m.key, e)
  }

  /** What one step does at its key: `w` is how values were compared, `e` how the patch is applied. */
  ghost function StepAt(o: Option<Value>, s: Step, w: bool, e: bool): Option<Value> {
    match s
    case Gone(_) => None
    case New(m) => Put(o, m.value, e)
    case Both(v, m) =>
      if Denote(v, w) == Denote(m.value, w) then o
      else
        match Generated(v, m.value, false)
        case None => o
        case Some(p) => Put(o, p, e)
  }

  ghost function StepsAt(o: Option<Value>, steps: seq<Step>, k: string, w: bool, e: bool): Option<Value>
    decreases |steps|
  {
    if steps == [] then o
    else StepsAt(if StepKey(steps[0], e) == k then StepAt(o, steps[0], w, e) else o, steps[1..], k, w, e)
  }

  lemma {:induction false} PatchesAt(m: map<string, Value>, steps: seq<Step>, goal: Json, k: string, w: bool, e: bool)
    requires goal.Obj? && GoalsIn(steps, goal.members)
    ensures Get(ApplyAll(m, Patches(steps, goal, w), e), k) == StepsAt(Get(m, k), steps, k, w, e)
    decreases |steps|
  {
    if steps != [] {
      var one, rest := OnePatch(steps[0], goal, w), Patches(steps[1..], goal, w);
      forall i | 0 <= i < |steps[1..]|
          && (steps[1..][i].New? || steps[1..][i].Both?) ensures steps[1..][i].m in goal.members {
        assert steps[1..][i] == steps[i + 1];
      }
      if one == [] {
        assert one + rest == rest;
        PatchesAt(m, steps[1..], goal, k, w, e);
      } else {
        assert (one + rest)[0] == one[0] && (one + rest)[1..] == rest;
        PutHere(m, one[0], k, e);
        PatchesAt(ApplyMember(m, one[0], e), steps[1..], goal, k, w, e);
      }
    }
  }

  // ---------------------------------------------------------------- the fate of a key

  ghost predicate NoKey(ms: seq<Member>, k: string, e: bool) {
    forall i :: 0 <= i < |ms| ==> Fold(ms[i].key, e) != k
  }

  /** The first step that concerns a key. */
  ghost function First(steps: seq<Step>, k: string, e: bool): Option<Step>
    decreases |steps|
  {
    if steps == [] then None else if StepKey(steps[0], e) == k then Some(steps[0]) else First(steps[1..], k, e)
  }

  /** Where there is only one of its kind, the later member of a key. */
  ghost function Later(y: seq<Member>, k: string, e: bool): Option<Json>
    decreases |y|
  {
    if y == [] then None else if Fold(y[0].key, e) == k then Some(y[0].value) else Later(y[1..], k, e)
  }

  lemma {:induction false} LaterIs(y: seq<Member>, j: int, e: bool)
    requires DistinctKeys(y, e) && 0 <= j < |y|
    ensures Later(y, Fold(y[j].key, e), e) == Some(y[j].value)
    decreases |y|
  {
    if j > 0 { LaterIs(y[1..], j - 1, e); }
  }

  lemma {:induction false} LaterNone(y: seq<Member>, k: string, e: bool)
    ensures Later(y, k, e).None? <==> NoKey(y, k, e)
    decreases |y|
  {
    if y != [] {
      LaterNone(y[1..], k, e);
      if NoKey(y[1..], k, e) && Fold(y[0].key, e) != k {
        forall i | 0 <= i < |y| ensures Fold(y[i].key, e) != k { if i > 0 { assert y[1..][i - 1] == y[i]; } }
      }
    }
  }

  /** The rest of a walk when neither list has the key any more. */
  lemma {:induction false} Untouched(o: Option<Value>, x: seq<Member>, y: seq<Member>, k: string, w: bool, e: bool)
    requires NoKey(x, k, e) && NoKey(y, k, e)
    ensures StepsAt(o, Steps(x, y), k, w, e) == o && First(Steps(x, y), k, e) == None
    decreases |x| + |y|
  {
    if x == [] && y == [] {
    } else if y == [] || (x != [] && Compare(x[0].key, y[0].key) < 0) {
      Untouched(o, x[1..], y, k, w, e);
    } else if x == [] || Compare(x[0].key, y[0].key) > 0 {
      Untouched(o, x, y[1..], k, w, e);
    } else {
      CompareZero(x[0].key, y[0].key);
      Untouched(o, x[1..], y[1..], k, w, e);
    }
  }

  /** When only the second list has the key, its member is put. */
  lemma {:induction false} OnlyNew(o: Option<Value>, x: seq<Member>, y: seq<Member>, k: string, w: bool, e: bool)
    requires NoKey(x, k, e) && DistinctKeys(y, e) && Later(y, k, e).Some?
    ensures StepsAt(o, Steps(x, y), k, w, e) == Put(o, Later(y, k, e).value, e)
    ensures First(Steps(x, y), k, e).Some? && First(Steps(x, y), k, e).value.New?
    decreases |x| + |y|
  {
    if x != [] && Compare(x[0].key, y[0].key) < 0 {
      OnlyNew(o, x[1..], y, k, w, e);
    } else if x == [] || Compare(x[0].key, y[0].key) > 0 {
      if Fold(y[0].key, e) == k {
        Untouched(Put(o, y[0].value, e), x, y[1..], k, w, e);
      } else {
        OnlyNew(o, x, y[1..], k, w, e);
      }
    } else {
      CompareZero(x[0].key, y[0].key);
      assert Fold(x[0].key, e) != k;
      OnlyNew(o, x[1..], y[1..], k, w, e);
    }
  }

  /** When only the first list has the key, it is removed. */
  lemma {:induction false} OnlyGone(o: Option<Value>, x: seq<Member>, y: seq<Member>, k: string, w: bool, e: bool)
    requires !NoKey(x, k, e) && DistinctKeys(x, e) && NoKey(y, k, e)
    ensures StepsAt(o, Steps(x, y), k, w, e) == None
    ensures First(Steps(x, y), k, e).Some? && First(Steps(x, y), k, e).value.Gone?
    decreases |x| + |y|
  {
    if y == [] || (x != [] && Compare(x[0].key, y[0].key) < 0) {
      if Fold(x[0].key, e) == k {
        Untouched(None, x[1..], y, k, w, e);
      } else {
        RestHasKey(x, k, e);
        OnlyGone(o, x[1..], y, k, w, e);
      }
    } else if x == [] || Compare(x[0].key, y[0].key) > 0 {
      OnlyGone(o, x, y[1..], k, w, e);
    } else {
      CompareZero(x[0].key, y[0].key);
      assert Fold(y[0].key, e) != k;
      RestHasKey(x, k, e);
      OnlyGone(o, x[1..], y[1..], k, w, e);
    }
  }

  lemma RestHasKey(x: seq<Member>, k: string, e: bool)
    requires !NoKey(x, k, e) && Fold(x[0].key, e) != k
    ensures !NoKey(x[1..], k, e)
  {
    var i :| 0 <= i < |x| && Fold(x[i].key, e) == k;
    assert x[1..][i - 1] == x[i];
  }

  /**
    A key in both lists: what the walk meets first decides. Met in both at once, its values are
    compared; met in the first list alone, it is removed and put again; in the second, put and removed.
   */
  ghost function Outcome(o: Option<Value>, first: Step, later: Json, w: bool, e: bool): Option<Value> {
    match first
    case Both(_, _) => StepAt(o, first, w, e)
    case Gone(_) => Put(None, later, e)
    case New(_) => None
  }

  ghost predicate Decided(o: Option<Value>, x: seq<Member>, y: seq<Member>, k: string, w: bool, e: bool) {
    var f, l := First(Steps(x, y), k, e), Later(y, k, e);
    && f.Some? && l.Some?
    && StepsAt(o, Steps(x, y), k, w, e) == Outcome(o, f.value, l.value, w, e)
    && (f.value.Both? ==> f.value.m.value == l.value && Later(x, k, e) == Some(f.value.v) && StepKey(f.value, e) == k)
  }

  /** The key is the one the walk meets next. */
  lemma DecidedHere(o: Option<Value>, x: seq<Member>, y: seq<Member>, k: string, w: bool, e: bool)
    requires !NoKey(x, k, e) && DistinctKeys(x, e) && DistinctKeys(y, e) && Later(y, k, e).Some?
    requires Steps(x, y) != [] && StepKey(Steps(x, y)[0], e) == k
    ensures Decided(o, x, y, k, w, e)
  {
    var s := Steps(x, y)[0];
    if s.Gone? {
      GoneHere(o, x, y, k, w, e);
    } else if s.New? {
      NewHere(o, x, y, k, w, e);
    } else {
      BothHere(o, x, y, k, w, e);
    }
  }

  lemma GoneHere(o: Option<Value>, x: seq<Member>, y: seq<Member>, k: string, w: bool, e: bool)
    requires x != [] && DistinctKeys(x, e) && DistinctKeys(y, e) && Later(y, k, e).Some?
    requires Steps(x, y) != [] && Steps(x, y)[0].Gone? && Fold(x[0].key, e) == k
    ensures Decided(o, x, y, k, w, e)
  {
    assert Steps(x, y) == [Gone(x[0].key)] + Steps(x[1..], y);
    hide Put, DistinctKeys;
    assert NoKey(x[1..], k, e);
    OnlyNew(None, x[1..], y, k, w, e);
  }

  lemma NewHere(o: Option<Value>, x: seq<Member>, y: seq<Member>, k: string, w: bool, e: bool)
    requires !NoKey(x, k, e) && y != [] && DistinctKeys(x, e) && DistinctKeys(y, e)
    requires Steps(x, y) != [] && Steps(x, y)[0].New? && Fold(y[0].key, e) == k
    ensures Decided(o, x, y, k, w, e)
  {
    assert Steps(x, y) == [New(y[0])] + Steps(x, y[1..]);
    hide Put;
    assert NoKey(y[1..], k, e);
    OnlyGone(Put(o, y[0].value, e), x, y[1..], k, w, e);
  }

  lemma BothHere(o: Option<Value>, x: seq<Member>, y: seq<Member>, k: string, w: bool, e: bool)
    requires x != [] && y != [] && DistinctKeys(x, e) && DistinctKeys(y, e)
    requires Steps(x, y) != [] && Steps(x, y)[0].Both? && Fold(y[0].key, e) == k
    ensures Decided(o, x, y, k, w, e)
  {
    CompareZero(x[0].key, y[0].key);
    assert Steps(x, y) == [Both(x[0].value, y[0])] + Steps(x[1..], y[1..]);
    hide Put, StepAt;
    assert NoKey(x[1..], k, e) && NoKey(y[1..], k, e);
    Untouched(StepAt(o, Both(x[0].value, y[0]), w, e), x[1..], y[1..], k, w, e);
  }

  lemma {:induction false} InBoth(o: Option<Value>, x: seq<Member>, y: seq<Member>, k: string, w: bool, e: bool)
    requires !NoKey(x, k, e) && DistinctKeys(x, e) && DistinctKeys(y, e) && Later(y, k, e).Some?
    ensures Decided(o, x, y, k, w, e)
    decreases |x| + |y|
  {
    if StepKey(Steps(x, y)[0], e) == k {
      DecidedHere(o, x, y, k, w, e);
    } else if y == [] || (x != [] && Compare(x[0].key, y[0].key) < 0) {
      RestHasKey(x, k, e);
      InBoth(o, x[1..], y, k, w, e);
    } else if x == [] || Compare(x[0].key, y[0].key) > 0 {
      InBoth(o, x, y[1..], k, w, e);
    } else {
      CompareZero(x[0].key, y[0].key);
      RestHasKey(x, k, e);
      InBoth(o, x[1..], y[1..], k, w, e);
    }
  }

  // ---------------------------------------------------------------- the exact condition

  /** What applying the generated patch makes of a fresh copy; no patch leaves it alone. */
  ghost function Result(from: Json, goal: Json, w: bool, e: bool): Value {
    match Generated(from, goal, w)
    case None => Denote(from, e)
    case Some(p) => Applied(Denote(from, e), p, e)
  }

  /**
    When the goal is reached: every member of it either is new and without nulls, or is met in both
    lists at once and equal or itself reached, or is met as removed before it is put again.
   */
  ghost predicate Reaches(from: Json, goal: Json, w: bool, e: bool)
    decreases goal, 1
  {
    if !goal.Obj? then true
    else if !from.Obj? then Solid(Denote(goal, e))
    else forall i :: 0 <= i < |goal.members| ==> Arrives(from, goal, i, w, e)
  }

  ghost predicate Arrives(from: Json, goal: Json, i: int, w: bool, e: bool)
    requires from.Obj? && goal.Obj? && 0 <= i < |goal.members|
    decreases goal, 0
  {
    var u, k := goal.members[i].value, Fold(goal.members[i].key, e);
    match Meeting(from, goal, k, w, e)
    case Some(Both(v, _)) =>
      if Denote(v, w) == Denote(u, w) then Denote(v, e) == Denote(u, e) else !u.Null? && Reaches(v, u, false, e)
    case Some(New(_)) => false
    case _ => !u.Null? && Solid(Denote(u, e))
  }

  /** How the walk meets a key that is in both objects. */
  ghost function Meeting(from: Json, goal: Json, k: string, w: bool, e: bool): Option<Step>
    requires from.Obj? && goal.Obj?
  {
    if NoKey(from.members, k, e) then None else First(Walk(from, goal, w), k, e)
  }

  lemma {:induction false} GetMember(ms: seq<Member>, k: string, e: bool)
    requires DistinctKeys(ms, e)
    ensures var l := Later(ms, k, e);
            Get(DenoteMembers(ms, e), k) == if l.Some? then Some(Denote(l.value, e)) else None
  {
    LaterNone(ms, k, e);
    KeysOf(ms, k, e);
    if HasKey(ms, k, e) {
      var i :| 0 <= i < |ms| && Fold(ms[i].key, e) == k;
      LaterIs(ms, i, e);
      ValueOf(ms, i, e);
    }
  }

  lemma {:induction false} LaterIn(ms: seq<Member>, k: string, e: bool)
    requires Later(ms, k, e).Some?
    ensures exists m :: m in ms && m.value == Later(ms, k, e).value && Fold(m.key, e) == k
    decreases |ms|
  {
    if Fold(ms[0].key, e) == k {
      assert ms[0] in ms;
    } else {
      LaterIn(ms[1..], k, e);
    }
  }

  /** What sorting leaves as it is, for either comparison. */
  lemma Arranged(ms: seq<Member>, w: bool, e: bool)
    requires DistinctKeys(ms, w) && (w ==> e)
    ensures DistinctKeys(ms, e) && DistinctKeys(Arrange(ms, w), e)
        && DenoteMembers(Arrange(ms, w), e) == DenoteMembers(ms, e)
    ensures forall k :: NoKey(Arrange(ms, w), k, e) <==> NoKey(ms, k, e)
  {
    var x := Arrange(ms, w);
    ArrangeSorts(ms, w);
    SortedDistinct(x, w);
    if !w { DistinctBoth(ms, e); DistinctBoth(x, e); }
    ArrangeIn(ms, w);
    SameMembers(x, ms, e);
    forall k ensures NoKey(x, k, e) <==> NoKey(ms, k, e) {
      NoKeyIn(x, ms, k, e);
      NoKeyIn(ms, x, k, e);
    }
  }

  lemma NoKeyIn(a: seq<Member>, b: seq<Member>, k: string, e: bool)
    requires forall m :: m in a ==> m in b
    ensures NoKey(b, k, e) ==> NoKey(a, k, e)
  {
    if NoKey(b, k, e) {
      forall i | 0 <= i < |a| ensures Fold(a[i].key, e) != k { assert a[i] in b; }
    }
  }

  lemma SpineBelow(u: Json, e: bool)
    requires Proper(u, false)
    ensures Spine(u, e)
  {
    ProperBoth(u, e);
    ProperSpine(u, e);
  }

  /** A member put where nothing is arrives exactly if it holds no null. */
  lemma PutOntoNothing(u: Json, e: bool)
    requires Proper(u, false)
    ensures Put(None, u, e) == Some(Denote(u, e)) <==> !u.Null? && Solid(Denote(u, e))
  {
    SpineBelow(u, e);
    ApplyIsRfc(VNull, u, e);
    OntoNothing(VNull, Denote(u, e));
  }

  /** Values met in both lists at once. */
  lemma {:induction false} MetTogether(v: Json, u: Json, m: Member, w: bool, e: bool)
    requires Proper(v, false) && Proper(u, false) && m.value == u
    ensures StepAt(Some(Denote(v, e)), Both(v, m), w, e) == Some(Denote(u, e)) <==>
            if Denote(v, w) == Denote(u, w) then Denote(v, e) == Denote(u, e) else !u.Null? && Reaches(v, u, false, e)
    decreases u, 3
  {
    if Denote(v, w) != Denote(u, w) {
      GeneratedNull(v, u);
      Exact(v, u, false, e);
    }
  }

  lemma GeneratedNull(v: Json, u: Json)
    ensures var p := Generated(v, u, false); if p.None? then v.Obj? && u.Obj? else p.value.Null? <==> u.Null?
  {
  }

  /** What applying gives for one member of the goal. */
  lemma {:induction false} MemberExact(from: Json, goal: Json, i: int, w: bool, e: bool)
    requires from.Obj? && goal.Obj? && Comparable(from, w) && Comparable(goal, w) && (w ==> e)
        && 0 <= i < |goal.members|
    ensures var u, k := goal.members[i].value, Fold(goal.members[i].key, e);
            StepsAt(Get(DenoteMembers(from.members, e), k), Walk(from, goal, w), k, w, e) == Some(Denote(u, e)) <==>
                Arrives(from, goal, i, w, e)
    decreases goal, 0, 1
  {
    var u, k := goal.members[i].value, Fold(goal.members[i].key, e);
    var x, y, o := Arrange(from.members, w), Arrange(goal.members, w), Get(DenoteMembers(from.members, e), k);
    hide StepsAt, Steps, DenoteMembers, Comparable, Solid, Generated, Put, Fold, Denote, Arrange, Reaches;
    MemberLists(from, goal, i, w, e);
    PutOntoNothing(u, e);
    if NoKey(from.members, k, e) {
      OnlyNew(o, x, y, k, w, e);
    } else {
      InBoth(o, x, y, k, w, e);
      MemberMet(from, goal, i, w, e, First(Steps(x, y), k, e).value);
    }
  }

  /** A member whose key is in both, after how it is met. */
  lemma {:induction false} MemberMet(from: Json, goal: Json, i: int, w: bool, e: bool, first: Step)
    requires from.Obj? && goal.Obj? && 0 <= i < |goal.members| && Proper(goal.members[i].value, false)
    requires Meeting(from, goal, Fold(goal.members[i].key, e), w, e) == Some(first)
    requires first.Both? ==> first.m.value == goal.members[i].value && Proper(first.v, false)
    ensures var u := goal.members[i].value;
            var o := Some(if first.Both? then Denote(first.v, e) else VNull);
            Outcome(o, first, u, w, e) == Some(Denote(u, e)) <==> Arrives(from, goal, i, w, e)
    decreases goal, 0, 0
  {
    var u := goal.members[i].value;
    hide Meeting, Solid, Generated, Put, Fold, Denote, Reaches, StepAt;
    PutOntoNothing(u, e);
    if first.Both? { MetTogether(first.v, u, first.m, w, e); }
  }

  /** Both sorted lists at the key of a member of the goal. */
  lemma MemberLists(from: Json, goal: Json, i: int, w: bool, e: bool)
    requires from.Obj? && goal.Obj? && Comparable(from, w) && Comparable(goal, w) && (w ==> e)
        && 0 <= i < |goal.members|
    ensures var u, k := goal.members[i].value, Fold(goal.members[i].key, e);
            var x, y := Arrange(from.members, w), Arrange(goal.members, w);
            && Proper(u, false) && Later(y, k, e) == Some(u) && DistinctKeys(x, e) && DistinctKeys(y, e)
            && (NoKey(x, k, e) <==> NoKey(from.members, k, e))
            && var l := Later(x, k, e);
               && (l.None? <==> NoKey(x, k, e)) && (l.Some? ==> Proper(l.value, false))
               && Get(DenoteMembers(from.members, e), k) == if l.Some? then Some(Denote(l.value, e)) else None
  {
    var u, k := goal.members[i].value, Fold(goal.members[i].key, e);
    var x, y := Arrange(from.members, w), Arrange(goal.members, w);
    Arranged(from.members, w, e);
    Arranged(goal.members, w, e);
    GetMember(x, k, e);
    LaterNone(x, k, e);
    SameLater(goal.members, y, i, w, e);
    if Later(x, k, e).Some? {
      LaterIn(x, k, e);
      ArrangeIn(from.members, w);
      var a :| a in x && a.value == Later(x, k, e).value;
      ComparableBelow(from, w, a);
    }
  }

  lemma SameLater(ms: seq<Member>, y: seq<Member>, i: int, w: bool, e: bool)
    requires DistinctKeys(y, e) && 0 <= i < |ms| && y == Arrange(ms, w)
    ensures Later(y, Fold(ms[i].key, e), e) == Some(ms[i].value)
  {
    ArrangeIn(ms, w);
    assert ms[i] in y;
    var j :| 0 <= j < |y| && y[j] == ms[i];
    LaterIs(y, j, e);
  }

  /** Keys that are not in the goal are gone. */
  lemma OtherGone(from: Json, goal: Json, k: string, w: bool, e: bool)
    requires from.Obj? && goal.Obj? && Comparable(from, w) && Comparable(goal, w) && (w ==> e)
        && NoKey(goal.members, k, e)
    ensures StepsAt(Get(DenoteMembers(from.members, e), k), Walk(from, goal, w), k, w, e) == None
  {
    var x, y, o := Arrange(from.members, w), Arrange(goal.members, w), Get(DenoteMembers(from.members, e), k);
    Arranged(from.members, w, e);
    Arranged(goal.members, w, e);
    if NoKey(from.members, k, e) {
      GetMember(from.members, k, e);
      LaterNone(from.members, k, e);
      Untouched(o, x, y, k, w, e);
    } else {
      OnlyGone(o, x, y, k, w, e);
    }
  }

  /** The generated patch, applied to a fresh copy of the first tree, gives the second exactly if it is reached. */
  lemma {:induction false} Exact(from: Json, goal: Json, w: bool, e: bool)
    requires Comparable(from, w) && Comparable(goal, w) && (w ==> e)
    ensures Result(from, goal, w, e) == Denote(goal, e) <==> Reaches(from, goal, w, e)
    decreases goal, 2
  {
    if goal.Obj? && from.Obj? {
      ObjectsExact(from, goal, w, e);
    } else if goal.Obj? {
      GoalSpine(goal, w, e);
      ApplyIsRfc(Denote(from, e), goal, e);
      OntoNothing(Denote(from, e), Denote(goal, e));
    }
  }

  lemma GoalSpine(goal: Json, w: bool, e: bool)
    requires goal.Obj? && Comparable(goal, w) && (w ==> e)
    ensures Spine(goal, e)
  {
    if !w { DistinctBoth(goal.members, e); }
    forall i | 0 <= i < |goal.members| ensures Spine(goal.members[i].value, e) { SpineBelow(goal.members[i].value, e); }
  }

  lemma {:induction false} ObjectsExact(from: Json, goal: Json, w: bool, e: bool)
    requires from.Obj? && goal.Obj? && Comparable(from, w) && Comparable(goal, w) && (w ==> e)
    ensures Result(from, goal, w, e) == Denote(goal, e) <==> Reaches(from, goal, w, e)
    decreases goal, 1
  {
    var m, t := DenoteMembers(from.members, e), DenoteMembers(goal.members, e);
    var steps := Walk(from, goal, w);
    var r := ApplyAll(m, Patches(steps, goal, w), e);
    assert Result(from, goal, w, e) == VObj(r);
    hide Patches, Walk, Arrives, Comparable, StepsAt, DenoteMembers, ApplyAll;
    forall k ensures Get(r, k) == StepsAt(Get(m, k), steps, k, w, e) {
      PatchesAt(m, steps, goal, k, w, e);
    }
    Arranged2(goal, w, e);
    forall i | 0 <= i < |goal.members|
      ensures Get(r, Fold(goal.members[i].key, e)) == Get(t, Fold(goal.members[i].key, e)) <==>
          Arrives(from, goal, i, w, e)
    {
      MemberExact(from, goal, i, w, e);
      LaterIs(goal.members, i, e);
      GetMember(goal.members, Fold(goal.members[i].key, e), e);
    }
    forall k | NoKey(goal.members, k, e) ensures Get(r, k) == None == Get(t, k) {
      OtherGone(from, goal, k, w, e);
      LaterNone(goal.members, k, e);
      GetMember(goal.members, k, e);
    }
    MapsEqual(r, t, goal.members, e);
  }

  lemma Arranged2(goal: Json, w: bool, e: bool)
    requires goal.Obj? && Comparable(goal, w) && (w ==> e)
    ensures DistinctKeys(goal.members, e)
  {
    if !w { DistinctBoth(goal.members, e); }
  }

  /** Two maps are equal if they agree at the keys of a list and have no others. */
  lemma MapsEqual(r: map<string, Value>, t: map<string, Value>, ms: seq<Member>, e: bool)
    requires forall k :: NoKey(ms, k, e) ==> Get(r, k) == None && Get(t, k) == None
    ensures r == t <==> forall i :: 0 <= i < |ms| ==> Get(r, Fold(ms[i].key, e)) == Get(t, Fold(ms[i].key, e))
  {
    if forall i :: 0 <= i < |ms| ==> Get(r, Fold(ms[i].key, e)) == Get(t, Fold(ms[i].key, e)) {
      forall k ensures Get(r, k) == Get(t, k) {
        if !NoKey(ms, k, e) {
          var i :| 0 <= i < |ms| && Fold(ms[i].key, e) == k;
        }
      }
      forall k | k in r ensures k in t && t[k] == r[k] { assert Get(r, k) == Get(t, k); }
      forall k | k in t ensures k in r { assert Get(r, k) == Get(t, k); }
      assert r == t;
    }
  }
}
