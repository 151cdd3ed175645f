/**
  kt_for(): a parallel loop in which every worker first walks its own residue class of the
  indices and then steals from whichever worker looked least advanced, reading the other
  counters without a lock.
  Source: liblinktool/klib/kthread.c, lines 24-65.

  The threads are modelled as a transition system: one transition is one read of a shared
  counter, one atomic fetch-and-add, or the return of the user's function; a schedule is any
  sequence of thread numbers.
 */
module KtFor {
  import opened Arithmetic

  const LONG_MAX := 0x7fff_ffff_ffff_ffff

  /** Where a worker is.  `Run` is inside the user's function; `Wild` is an access outside `w[]`. */
  datatype Pc =
    | Own
    | Run(k: int, own: bool)
    | Scan(i: nat, min: int, minI: int)
    | Steal(minI: int)
    | Exit
    | Wild

  /** `c[i]` is the shared counter of worker `i`; `calls` lists the indices passed to the user's function. */
  datatype State = State(n: int, c: seq<int>, pc: seq<Pc>, calls: seq<int>)

  ghost predicate WellFormed(s: State) {
    && 1 < |s.c| == |s.pc| && 0 <= s.n
    && forall t :: 0 <= t < |s.pc| && s.pc[t].Scan? ==> s.pc[t].i <= |s.c|
  }

  /** kthread.c:57-59. */
  function Init(T: nat, n: int): (s: State)
    requires 1 < T && 0 <= n
    ensures WellFormed(s)
  {
    State(n, seq(T, i => i), seq(T, _ => Own), [])
  }

  predicate Live(s: State, t: int) {
    0 <= t < |s.pc| && !s.pc[t].Exit? && !s.pc[t].Wild?
  }

  /** One step of thread `t`: kthread.c:24-46. */
  function Step(s: State, t: int): (s': State)
    requires WellFormed(s) && Live(s, t)
    ensures WellFormed(s') && |s'.c| == |s.c| && s'.n == s.n
  {
    match s.pc[t]
    case Own =>
      var k := s.c[t];
      var fetched := s.(c := s.c[t := k + |s.c|]);
      if k >= s.n then fetched.(pc := s.pc[t := Scan(0, LONG_MAX, -1)])
      else fetched.(pc := s.pc[t := Run(k, true)], calls := s.calls + [k])
    case Run(_, own) =>
      s.(pc := s.pc[t := if own then Own else Scan(0, LONG_MAX, -1)])
    case Scan(i, min, minI) =>
      if i < |s.c| then
        s.(pc := s.pc[t := if min > s.c[i] then Scan(i + 1, s.c[i], i) else Scan(i + 1, min, minI)])
      else
        s.(pc := s.pc[t := Steal(minI)])
    case Steal(minI) =>
      if 0 <= minI < |s.c| then
        var k := s.c[minI];
        var fetched := s.(c := s.c[minI := k + |s.c|]);
        if k >= s.n then fetched.(pc := s.pc[t := Exit])
        else fetched.(pc := s.pc[t := Run(k, false)], calls := s.calls + [k])
      else
        s.(pc := s.pc[t := Wild])
  }

  /** A schedule that only ever runs live threads. */
  ghost predicate Fits(s: State, schedule: seq<int>)
    requires WellFormed(s)
    decreases |schedule|
  {
    schedule == [] || (Live(s, schedule[0]) && Fits(Step(s, schedule[0]), schedule[1..]))
  }

  ghost function After(s: State, schedule: seq<int>): (s': State)
    requires WellFormed(s) && Fits(s, schedule)
    ensures WellFormed(s') && |s'.c| == |s.c| && s'.n == s.n
    decreases |schedule|
  {
    if schedule == [] then s else After(Step(s, schedule[0]), schedule[1..])
  }

  ghost predicate AllExited(s: State) {
    forall t :: 0 <= t < |s.pc| ==> s.pc[t].Exit?
  }

  // ---------------------------------------------------------------- invariant

  /** Has worker `t` taken everything from its own counter? */
  predicate PastOwn(p: Pc) {
    !p.Own? && !(p.Run? && p.own)
  }

  function Exited(pc: seq<Pc>): (e: nat)
    ensures e <= |pc|
  {
    if pc == [] then 0 else Exited(pc[1..]) + if pc[0].Exit? then 1 else 0
  }

  /** The residue class of an index: the worker that would reach it without stealing. */
  function Class(k: int, T: nat): (i: int)
    requires 0 <= k && 0 < T
    ensures 0 <= i < T && i <= k
  {
    if k < T then k else Class(k - T, T)
  }

  /** Each counter stays in its residue class. */
  ghost predicate Classes(s: State)
    requires WellFormed(s)
  {
    forall i :: 0 <= i < |s.c| ==> i <= s.c[i] && Class(s.c[i], |s.c|) == i
  }

  /** Index `k` has been handed out exactly when the counter of its class has passed it. */
  predicate Taken(s: State, k: int)
    requires WellFormed(s)
  {
    0 <= k < s.n && k < s.c[Class(k, |s.c|)]
  }

  ghost predicate ExactlyTaken(s: State)
    requires WellFormed(s)
  {
    forall k :: multiset(s.calls)[k] == if Taken(s, k) then 1 else 0
  }

  /** A worker that has left its own loop left its counter at or beyond `n`. */
  ghost predicate OwnDone(s: State)
    requires WellFormed(s)
  {
    forall t :: 0 <= t < |s.c| && PastOwn(s.pc[t]) ==> s.n <= s.c[t]
  }

  /** Additions at or beyond `n`: one by the owner when it leaves its loop, one by each worker when it exits. */
  function Ceiling(s: State, i: int): int
    requires WellFormed(s) && 0 <= i < |s.c|
  {
    s.n + |s.c| - 1 + Times(|s.c|, Exited(s.pc) + if PastOwn(s.pc[i]) then 1 else 0)
  }

  ghost predicate Bounded(s: State)
    requires WellFormed(s)
  {
    forall i :: 0 <= i < |s.c| ==> s.c[i] <= Ceiling(s, i)
  }

  /** A scan that has read anything has picked a worker, provided counters are below LONG_MAX. */
  predicate ScanOk(p: Pc, T: nat) {
    match p
    case Scan(i, _, minI) => i <= T && (i == 0 || 0 <= minI < T)
    case Steal(minI) => 0 <= minI < T
    case _ => true
  }

  ghost predicate Scans(s: State) {
    (forall t :: 0 <= t < |s.pc| ==> ScanOk(s.pc[t], |s.pc|) && !s.pc[t].Wild?)
    && (forall t :: 0 <= t < |s.pc| && s.pc[t].Scan? && s.pc[t].i == 0 ==> s.pc[t].min == LONG_MAX)
  }

  /** The overflow-free range: the largest value any counter can reach is below LONG_MAX. */
  predicate Fitting(T: nat, n: int) {
    n + T - 1 + T * (T + 1) < LONG_MAX
  }

  ghost predicate Inv(s: State) {
    WellFormed(s) && Classes(s) && ExactlyTaken(s) && OwnDone(s) && Bounded(s)
    && (Fitting(|s.c|, s.n) ==> Scans(s))
  }

  // ---------------------------------------------------------------- counting lemmas

  lemma {:induction false} ExitedUpdate(pc: seq<Pc>, t: int, p: Pc)
    requires 0 <= t < |pc|
    ensures Exited(pc[t := p]) == Exited(pc) - (if pc[t].Exit? then 1 else 0) + (if p.Exit? then 1 else 0)
  {
    if t == 0 {
      assert pc[t := p][1..] == pc[1..];
    } else {
      assert pc[t := p][1..] == pc[1..][t - 1 := p];
      ExitedUpdate(pc[1..], t - 1, p);
    }
  }

  /** Members of one residue class are at least the modulus apart. */
  lemma {:induction false} ClassGap(x: int, y: int, T: nat)
    requires 0 < T && 0 <= x <= y < x + T && Class(x, T) == Class(y, T)
    ensures x == y
  {
    if T <= x { ClassGap(x - T, y - T, T); }
  }

  // ---------------------------------------------------------------- invariance

  /** A fetch-and-add on counter `i` changes the hand-out status of the fetched index and of nothing else. */
  lemma FetchTakes(s: State, s': State, i: int, k: int)
    requires WellFormed(s) && WellFormed(s') && Classes(s) && 0 <= i < |s.c|
    requires s'.n == s.n && s'.c == s.c[i := s.c[i] + |s.c|]
    ensures Classes(s')
    ensures Taken(s', k) <==> Taken(s, k) || (k == s.c[i] && k < s.n)
    ensures k == s.c[i] ==> !Taken(s, k)
  {
    var T := |s.c|;
    if 0 <= k && Class(k, T) == i && s.c[i] <= k < s.c[i] + T { ClassGap(s.c[i], k, T); }
  }

  lemma FetchExact(s: State, s': State, i: int)
    requires WellFormed(s) && WellFormed(s') && Classes(s) && ExactlyTaken(s) && 0 <= i < |s.c|
    requires s'.n == s.n && s'.c == s.c[i := s.c[i] + |s.c|]
    requires s'.calls == if s.c[i] < s.n then s.calls + [s.c[i]] else s.calls
    ensures Classes(s') && ExactlyTaken(s')
  {
    forall k ensures multiset(s'.calls)[k] == if Taken(s', k) then 1 else 0 {
      FetchTakes(s, s', i, k);
    }
    FetchTakes(s, s', i, 0);
  }

  lemma CeilingStep(s: State, s': State, t: int, i: int)
    requires WellFormed(s) && WellFormed(s') && |s'.c| == |s.c| && s'.n == s.n
    requires 0 <= t < |s.c| && 0 <= i < |s.c|
    requires s'.pc == s.pc[t := s'.pc[t]] && !s.pc[t].Exit?
    requires PastOwn(s.pc[t]) ==> PastOwn(s'.pc[t])
    ensures Ceiling(s, i) <= Ceiling(s', i)
    ensures s'.pc[t].Exit? || (i == t && PastOwn(s'.pc[t]) && !PastOwn(s.pc[t])) ==>
              Ceiling(s, i) + |s.c| <= Ceiling(s', i)
    ensures s.n + |s.c| - 1 <= Ceiling(s', i)
  {
    ExitedUpdate(s.pc, t, s'.pc[t]);
    var e, e' := Exited(s.pc) + (if PastOwn(s.pc[i]) then 1 else 0),
        Exited(s'.pc) + (if PastOwn(s'.pc[i]) then 1 else 0);
    TimesMonotone(|s.c|, e, e');
  }

  lemma BoundedStep(s: State, t: int)
    requires WellFormed(s) && Live(s, t) && Bounded(s)
    ensures Bounded(Step(s, t))
  {
    var s' := Step(s, t);
    assert s'.pc == s.pc[t := s'.pc[t]];
    forall i | 0 <= i < |s.c| ensures s'.c[i] <= Ceiling(s', i) {
      CeilingStep(s, s', t, i);
      assert s.c[i] <= Ceiling(s, i);
    }
  }

  /** The largest value any counter can reach. */
  lemma CeilingMax(s: State, i: int)
    requires WellFormed(s) && 0 <= i < |s.c|
    ensures Ceiling(s, i) <= s.n + |s.c| - 1 + |s.c| * (|s.c| + 1)
  {
    TimesMonotone(|s.c|, Exited(s.pc) + (if PastOwn(s.pc[i]) then 1 else 0), |s.c| + 1);
    TimesIsProduct(|s.c|, |s.c| + 1);
  }

  lemma ScansStep(s: State, t: int)
    requires Inv(s) && Live(s, t) && Fitting(|s.c|, s.n)
    ensures Scans(Step(s, t))
  {
    var s' := Step(s, t);
    assert ScanOk(s.pc[t], |s.pc|);
    if s.pc[t].Scan? && s.pc[t].i < |s.c| {
      CeilingMax(s, s.pc[t].i);
    }
  }

  /** What any step does to the counters and to the program counters. */
  ghost predicate Shape(s: State, s': State, t: int, i: int)
    requires WellFormed(s) && WellFormed(s') && |s'.c| == |s.c| && s'.n == s.n && 0 <= t < |s.c|
  {
    && s'.pc == s.pc[t := s'.pc[t]]
    && (if 0 <= i < |s.c|
        then s'.c == s.c[i := s.c[i] + |s.c|] && s'.calls == (if s.c[i] < s.n then s.calls + [s.c[i]] else s.calls)
        else s'.c == s.c && s'.calls == s.calls)
    && (PastOwn(s.pc[t]) ==> PastOwn(s'.pc[t]))
    && (PastOwn(s'.pc[t]) ==> PastOwn(s.pc[t]) || (i == t && s.n <= s.c[t]))
  }

  lemma StepShape(s: State, t: int) returns (i: int)
    requires WellFormed(s) && Live(s, t)
    ensures Shape(s, Step(s, t), t, i)
  {
    i := match s.pc[t] case Own => t case Steal(v) => v case _ => -1;
  }

  lemma TakenStep(s: State, s': State, t: int, i: int)
    requires WellFormed(s) && WellFormed(s') && |s'.c| == |s.c| && s'.n == s.n && 0 <= t < |s.c| && Shape(s, s', t, i)
    requires Classes(s) && ExactlyTaken(s) && OwnDone(s)
    ensures Classes(s') && ExactlyTaken(s') && OwnDone(s')
  {
    if 0 <= i < |s.c| {
      FetchExact(s, s', i);
    } else {
      assert forall k :: Taken(s', k) == Taken(s, k);
    }
  }

  lemma InvStep(s: State, t: int)
    requires Inv(s) && Live(s, t)
    ensures Inv(Step(s, t))
  {
    BoundedStep(s, t);
    if Fitting(|s.c|, s.n) { ScansStep(s, t); }
    var i := StepShape(s, t);
    TakenStep(s, Step(s, t), t, i);
  }

  lemma InvInit(T: nat, n: int)
    requires 1 < T && 0 <= n
    ensures Inv(Init(T, n))
  {
    var s := Init(T, n);
  }

  lemma {:induction false} InvRun(s: State, schedule: seq<int>)
    requires Inv(s) && Fits(s, schedule)
    ensures Inv(After(s, schedule))
    decreases |schedule|
  {
    if schedule != [] {
      InvStep(s, schedule[0]);
      InvRun(Step(s, schedule[0]), schedule[1..]);
    }
  }

  // ---------------------------------------------------------------- main results

  /**
    In every schedule no index outside `0..n` is ever run and none is run twice, and once all
    workers have exited every index has been run.
   */
  lemma EachIndexExactlyOnce(T: nat, n: int, schedule: seq<int>)
    requires 1 < T && 0 <= n && Fits(Init(T, n), schedule)
    ensures var s := After(Init(T, n), schedule);
            && (forall k :: multiset(s.calls)[k] <= if 0 <= k < n then 1 else 0)
            && (AllExited(s) ==> forall k :: multiset(s.calls)[k] == if 0 <= k < n then 1 else 0)
  {
    InvInit(T, n);
    InvRun(Init(T, n), schedule);
    var s := After(Init(T, n), schedule);
    assert forall k :: multiset(s.calls)[k] == if Taken(s, k) then 1 else 0;
    if AllExited(s) {
      forall k | 0 <= k < n ensures Taken(s, k) {
        assert PastOwn(s.pc[Class(k, T)]);
      }
    }
  }

  /** No counter ever exceeds `n + T - 1 + T * (T + 1)`, so within the range of `long` no scan comes back empty. */
  lemma CountersBounded(T: nat, n: int, schedule: seq<int>, i: int)
    requires 1 < T && 0 <= n && Fits(Init(T, n), schedule) && 0 <= i < T
    ensures After(Init(T, n), schedule).c[i] <= n + T - 1 + T * (T + 1)
    ensures Fitting(T, n) ==> !After(Init(T, n), schedule).pc[i].Wild?
  {
    InvInit(T, n);
    InvRun(Init(T, n), schedule);
    CeilingMax(After(Init(T, n), schedule), i);
  }

  // ---------------------------------------------------------------- which worker is robbed

  /** Run thread `t` alone until its scan is over. */
  ghost function Solo(s: State, t: int): (s': State)
    requires WellFormed(s) && Live(s, t)
    ensures WellFormed(s') && |s'.c| == |s.c| && s'.n == s.n
    decreases if s.pc[t].Scan? then |s.c| + 1 - s.pc[t].i else 0
  {
    if s.pc[t].Scan? then Solo(Step(s, t), t) else s
  }

  /** `v` is the first of the least counters among the first `i`. */
  ghost predicate FirstLeast(c: seq<int>, i: nat, v: int) {
    && i <= |c| && 0 <= v < i
    && (forall j :: 0 <= j < i ==> c[v] <= c[j])
    && (forall j :: 0 <= j < v ==> c[v] < c[j])
  }

  /** kthread.c:28-29: a scan nobody interferes with robs the first worker whose counter is least. */
  lemma {:induction false} SoloScan(s: State, t: int)
    requires WellFormed(s) && Live(s, t) && s.pc[t].Scan?
    requires forall j :: 0 <= j < |s.c| ==> s.c[j] < LONG_MAX
    requires var p := s.pc[t];
             if p.i == 0 then p.min == LONG_MAX else FirstLeast(s.c, p.i, p.minI) && p.min == s.c[p.minI]
    ensures var s' := Solo(s, t);
            s'.c == s.c && s'.calls == s.calls && s'.pc[t].Steal? && FirstLeast(s.c, |s.c|, s'.pc[t].minI)
    decreases |s.c| - s.pc[t].i
  {
    var s1 := Step(s, t);
    if s.pc[t].i < |s.c| {
      SoloScan(s1, t);
    } else {
      assert Solo(s1, t) == s1;
    }
  }

  // ---------------------------------------------------------------- termination

  /** Steps a worker can still take before it needs another index. */
  function Remaining(p: Pc, T: nat): (r: int) {
    match p
    case Own => T + 3
    case Run(_, own) => if own then T + 4 else T + 3
    case Scan(i, _, _) => T + 2 - i
    case Steal(_) => 1
    case Exit => 0
    case Wild => 0
  }

  function Sum(pc: seq<Pc>, T: nat): int {
    if pc == [] then 0 else Remaining(pc[0], T) + Sum(pc[1..], T)
  }

  function Measure(s: State): int
    requires WellFormed(s)
  {
    Times(|s.c| + 3, s.n - |s.calls|) + Sum(s.pc, |s.c|)
  }

  lemma {:induction false} SumUpdate(pc: seq<Pc>, t: int, p: Pc, T: nat)
    requires 0 <= t < |pc|
    ensures Sum(pc[t := p], T) == Sum(pc, T) - Remaining(pc[t], T) + Remaining(p, T)
  {
    if t == 0 {
      assert pc[t := p][1..] == pc[1..];
    } else {
      assert pc[t := p][1..] == pc[1..][t - 1 := p];
      SumUpdate(pc[1..], t - 1, p, T);
    }
  }

  lemma {:induction false} SumNonNegative(pc: seq<Pc>, T: nat)
    requires forall t :: 0 <= t < |pc| && pc[t].Scan? ==> pc[t].i <= T
    ensures Sum(pc, T) >= 0
  {
    if pc != [] {
      SumNonNegative(pc[1..], T);
    }
  }

  lemma {:induction false} SumConstant(pc: seq<Pc>, T: nat)
    requires forall t :: 0 <= t < |pc| ==> pc[t] == Own
    ensures Sum(pc, T) == Times(T + 3, |pc|)
  {
    if pc != [] { SumConstant(pc[1..], T); }
  }

  /** Distinct calls within `0..n` are at most `n` many. */
  lemma {:induction false} FewCalls(calls: multiset<int>, n: int)
    requires 0 <= n
    requires forall k :: calls[k] <= if 0 <= k < n then 1 else 0
    ensures |calls| <= n
  {
    if n == 0 {
      forall k ensures k !in calls { assert calls[k] == 0; }
    } else {
      var rest := calls[n - 1 := 0];
      FewCalls(rest, n - 1);
    }
  }

  /** Handing out an index buys at most `T + 2` more steps; every other step uses one up. */
  lemma RemainingStep(s: State, t: int)
    requires WellFormed(s) && Live(s, t)
    ensures var s' := Step(s, t); var T := |s.c|;
            || (|s'.calls| == |s.calls| && Remaining(s'.pc[t], T) < Remaining(s.pc[t], T))
            || (|s'.calls| == |s.calls| + 1 && Remaining(s'.pc[t], T) < Remaining(s.pc[t], T) + T + 3)
  {
  }

  lemma CallsBounded(s: State)
    requires Inv(s)
    ensures |s.calls| <= s.n
  {
    forall k ensures multiset(s.calls)[k] <= if 0 <= k < s.n then 1 else 0 {
      assert multiset(s.calls)[k] == if Taken(s, k) then 1 else 0;
    }
    FewCalls(multiset(s.calls), s.n);
  }

  lemma MeasureStep(s: State, t: int)
    requires WellFormed(s) && Live(s, t) && |Step(s, t).calls| <= s.n
    ensures Measure(Step(s, t)) < Measure(s)
  {
    var i := StepShape(s, t);
    var s' := Step(s, t);
    SumUpdate(s.pc, t, s'.pc[t], |s.c|);
    RemainingStep(s, t);
    TimesMonotone(|s.c| + 3, s'.n - |s'.calls|, s.n - |s.calls|);
  }

  lemma {:induction false} MeasureRun(s: State, schedule: seq<int>)
    requires Inv(s) && Fits(s, schedule)
    ensures |schedule| + Measure(After(s, schedule)) <= Measure(s)
    decreases |schedule|
  {
    if schedule != [] {
      InvStep(s, schedule[0]);
      CallsBounded(Step(s, schedule[0]));
      MeasureStep(s, schedule[0]);
      MeasureRun(Step(s, schedule[0]), schedule[1..]);
    }
  }

  lemma MeasureInit(T: nat, n: int)
    requires 1 < T && 0 <= n
    ensures Measure(Init(T, n)) == Times(T + 3, n) + Times(T + 3, T)
  {
    SumConstant(Init(T, n).pc, T);
  }

  lemma StepsBounded(T: nat, n: int, schedule: seq<int>)
    requires 1 < T && 0 <= n && Fits(Init(T, n), schedule)
    ensures |schedule| <= Times(T + 3, n) + Times(T + 3, T)
  {
    InvInit(T, n);
    InvRun(Init(T, n), schedule);
    MeasureRun(Init(T, n), schedule);
    SumNonNegative(After(Init(T, n), schedule).pc, T);
    MeasureInit(T, n);
  }

  /** Every schedule is finite, with an explicit bound on its length. */
  lemma EveryRunTerminates(T: nat, n: int, schedule: seq<int>)
    requires 1 < T && 0 <= n && Fits(Init(T, n), schedule)
    ensures |schedule| <= (T + 3) * n + (T + 3) * T
  {
    StepsBounded(T, n, schedule);
    TimesIsProduct(T + 3, T);
    TimesIsProduct(T + 3, n);
  }

  /** No worker ever waits, so a schedule that cannot be extended ends with all workers exited and all indices run. */
  lemma MaximalRunCompletes(T: nat, n: int, schedule: seq<int>)
    requires 1 < T && 0 <= n && Fitting(T, n) && Fits(Init(T, n), schedule)
    requires forall t :: !Live(After(Init(T, n), schedule), t)
    ensures AllExited(After(Init(T, n), schedule))
    ensures forall k :: multiset(After(Init(T, n), schedule).calls)[k] == if 0 <= k < n then 1 else 0
  {
    InvInit(T, n);
    InvRun(Init(T, n), schedule);
    var s := After(Init(T, n), schedule);
    forall t | 0 <= t < |s.pc| ensures s.pc[t].Exit? {
      assert !Live(s, t) && !s.pc[t].Wild?;
    }
    EachIndexExactlyOnce(T, n, schedule);
  }

  // ---------------------------------------------------------------- the single-thread branch

  /** kthread.c:61-64: with at most one thread the indices are run in order. */
  method KtForSequential(n: int) returns (calls: seq<int>)
    ensures |calls| == if n < 0 then 0 else n
    ensures forall k :: 0 <= k < |calls| ==> calls[k] == k
  {
    calls := [];
    var j := 0;
    while j < n
      invariant 0 <= j && |calls| == j && (j <= n || j == 0)
      invariant forall k :: 0 <= k < j ==> calls[k] == k
    {
      calls := calls + [j];
      j := j + 1;
    }
  }
}
