/**
  kt_pipeline(): workers push items through a sequence of steps, in order, under one mutex and
  one condition variable.
  Source: liblinktool/klib/kthread.c, lines 178-256.

  The threads are modelled as a transition system.  One transition is one lock operation, one
  test of another worker, the start or the return of the user's function, one update of the
  worker's fields, or one broadcast.  Results of the user's function are arbitrary, and a
  sleeping worker may also wake up spuriously.
 */
module KtPipeline {
  import opened Arithmetic

  /** A `void *`; 0 is NULL. */
  type Ptr = int
  const NULL: Ptr := 0

  /** Where a worker is in ktp_worker(), kthread.c:195-226. */
  datatype Pc =
    | Top                 // line 199
    | Lock1               // line 201
    | Test(i: nat)        // line 205, mutex held
    | Asleep              // line 211, in pthread_cond_wait
    | Woken               // line 211, waiting for the mutex
    | Unlock1             // line 213, mutex held
    | Ready               // line 216, before the call
    | Running             // line 216, inside the call
    | Lock2               // line 219
    | Update              // lines 220-221, mutex held
    | Broadcast           // line 222, mutex held
    | Unlock2             // line 223, mutex held
    | Exited              // line 225

  datatype Worker = Worker(index: int, step: int, data: Ptr, pc: Pc)

  /** An item as a call sees it: its index and the pointer passed in or handed back. */
  datatype Item = Item(index: int, ptr: Ptr)

  /** `calls[k]` and `outs[k]` record the calls of step `k` and their results, in order; `mutex` is the holder or -1. */
  datatype State = State(nSteps: int, index: int, w: seq<Worker>, mutex: int, calls: seq<seq<Item>>,
      outs: seq<seq<Item>>)

  datatype Action = Go(t: int, result: Ptr) | Spurious(t: int)

  ghost predicate WellFormed(s: State) {
    && 1 <= s.nSteps && 1 <= |s.w|
    && |s.calls| == |s.outs| == s.nSteps
    && forall t :: 0 <= t < |s.w| ==> WorkerOk(s.w[t], s.nSteps, |s.w|)
  }

  /** A worker whose step is `nSteps` is on its way out, and only such a worker has exited. */
  predicate WorkerOk(w: Worker, nSteps: int, n: int) {
    && 0 <= w.step <= nSteps
    && (w.step == nSteps ==> w.pc.Broadcast? || w.pc.Unlock2? || w.pc.Top? || w.pc.Exited?)
    && (w.pc.Exited? ==> w.step == nSteps)
    && (w.pc.Test? ==> w.pc.i <= n)
  }

  /** kthread.c:234-248; fewer than one thread is treated as one. */
  function Init(nThreads: int, nSteps: int): (s: State)
    requires 1 <= nSteps
  {
    var n := if nThreads < 1 then 1 else nThreads;
    State(nSteps, n, seq(n, i => Worker(i, 0, NULL, Top)), -1, seq(nSteps, _ => []), seq(nSteps, _ => []))
  }

  /** kthread.c:206-207: worker `j` keeps worker `t` from starting its step. */
  predicate Blocks(s: State, t: int, j: int)
    requires 0 <= t < |s.w| && 0 <= j < |s.w|
  {
    j != t && s.w[j].step <= s.w[t].step && s.w[j].index < s.w[t].index
  }

  /** A transition other than a spurious wake-up is possible for worker `t`. */
  predicate Enabled(s: State, t: int) {
    && 0 <= t < |s.w|
    && !s.w[t].pc.Exited? && !s.w[t].pc.Asleep?
    && (s.w[t].pc.Lock1? || s.w[t].pc.Woken? || s.w[t].pc.Lock2? ==> s.mutex == -1)
  }

  function At(s: State, t: int, pc: Pc): State
    requires 0 <= t < |s.w|
  {
    s.(w := s.w[t := s.w[t].(pc := pc)])
  }

  /** kthread.c:216: the call is made; for the first step the input is NULL. */
  function Begin(s: State, t: int): State
    requires WellFormed(s) && Enabled(s, t) && s.w[t].pc.Ready?
  {
    var w := s.w[t];
    var input := if w.step != 0 then w.data else NULL;
    At(s, t, Running).(calls := s.calls[w.step := s.calls[w.step] + [Item(w.index, input)]])
  }

  /** kthread.c:216: the call returns. */
  function Return(s: State, t: int, result: Ptr): State
    requires WellFormed(s) && Enabled(s, t) && s.w[t].pc.Running?
  {
    var w := s.w[t];
    s.(w := s.w[t := w.(data := result, pc := Lock2)],
       outs := s.outs[w.step := s.outs[w.step] + [Item(w.index, result)]])
  }

  /** kthread.c:220-221: advance, wrap around to a new item, or stop. */
  function Advance(s: State, t: int): State
    requires WellFormed(s) && Enabled(s, t) && s.w[t].pc.Update?
  {
    var w := s.w[t];
    if w.step == s.nSteps - 1 then
      s.(index := s.index + 1, w := s.w[t := w.(step := 0, index := s.index, pc := Broadcast)])
    else if w.data != NULL then
      s.(w := s.w[t := w.(step := w.step + 1, pc := Broadcast)])
    else
      s.(w := s.w[t := w.(step := s.nSteps, pc := Broadcast)])
  }

  /** kthread.c:222: every sleeping worker goes back to competing for the mutex. */
  function WakeAll(s: State, t: int): State
    requires 0 <= t < |s.w|
  {
    s.(w := seq(|s.w|, i requires 0 <= i < |s.w| =>
         if i == t then s.w[i].(pc := Unlock2)
         else if s.w[i].pc.Asleep? then s.w[i].(pc := Woken)
         else s.w[i]))
  }

  /** The transitions that touch only program counters and the mutex. */
  function Quiet(s: State, t: int): State
    requires WellFormed(s) && Enabled(s, t)
    requires !s.w[t].pc.Ready? && !s.w[t].pc.Running? && !s.w[t].pc.Update?
  {
    match s.w[t].pc
    case Top => At(s, t, if s.w[t].step < s.nSteps then Lock1 else Exited)
    case Lock1 => At(s, t, Test(0)).(mutex := t)
    case Test(i) =>
      if i == |s.w| then At(s, t, Unlock1)
      else if Blocks(s, t, i) then At(s, t, Asleep).(mutex := -1)
      else At(s, t, Test(i + 1))
    case Woken => At(s, t, Test(0)).(mutex := t)
    case Unlock1 => At(s, t, Ready).(mutex := -1)
    case Lock2 => At(s, t, Update).(mutex := t)
    case Broadcast => WakeAll(s, t)
    case Unlock2 => At(s, t, Top).(mutex := -1)
  }

  predicate Allowed(s: State, a: Action) {
    match a
    case Go(t, _) => Enabled(s, t)
    case Spurious(t) => 0 <= t < |s.w| && s.w[t].pc.Asleep?
  }

  function Step(s: State, a: Action): (s': State)
    requires WellFormed(s) && Allowed(s, a)
  {
    match a
    case Spurious(t) => At(s, t, Woken)
    case Go(t, result) =>
      if s.w[t].pc.Ready? then Begin(s, t)
      else if s.w[t].pc.Running? then Return(s, t, result)
      else if s.w[t].pc.Update? then Advance(s, t)
      else Quiet(s, t)
  }

  // ---------------------------------------------------------------- synchronisation invariant

  predicate Holds(pc: Pc) {
    pc.Test? || pc.Unlock1? || pc.Update? || pc.Broadcast? || pc.Unlock2?
  }

  /** The guard of the current step has been seen true and the step is not over. */
  predicate Passed(pc: Pc) {
    pc.Unlock1? || pc.Ready? || pc.Running? || pc.Lock2? || pc.Update?
  }

  ghost predicate Mutex(s: State) {
    && -1 <= s.mutex < |s.w|
    && forall t :: 0 <= t < |s.w| ==> (Holds(s.w[t].pc) <==> s.mutex == t)
  }

  ghost predicate Indices(s: State) {
    && (forall t :: 0 <= t < |s.w| ==> 0 <= s.w[t].index < s.index)
    && (forall t, j :: 0 <= t < |s.w| && 0 <= j < |s.w| && t != j ==> s.w[t].index != s.w[j].index)
  }

  ghost predicate Unblocked(s: State, t: int)
    requires 0 <= t < |s.w|
  {
    forall j :: 0 <= j < |s.w| ==> !Blocks(s, t, j)
  }

  /** What a scan has established so far, and what a finished scan keeps until the step is over. */
  ghost predicate GuardOk(s: State, t: int)
    requires 0 <= t < |s.w|
  {
    && (s.w[t].pc.Test? ==> forall j :: 0 <= j < s.w[t].pc.i && j < |s.w| ==> !Blocks(s, t, j))
    && (Passed(s.w[t].pc) ==> Unblocked(s, t))
  }

  ghost predicate Announced(s: State) {
    0 <= s.mutex < |s.w| && s.w[s.mutex].pc.Broadcast?
  }

  /** No lost wake-up: a sleeping worker is blocked, or a broadcast is about to happen. */
  ghost predicate SleepOk(s: State, t: int)
    requires 0 <= t < |s.w|
  {
    s.w[t].pc.Asleep? ==> !Unblocked(s, t) || Announced(s)
  }

  ghost predicate Sync(s: State) {
    && WellFormed(s) && Mutex(s) && Indices(s)
    && (forall t :: 0 <= t < |s.w| ==> GuardOk(s, t))
    && (forall t :: 0 <= t < |s.w| ==> SleepOk(s, t))
  }

  lemma SyncInit(nThreads: int, nSteps: int)
    requires 1 <= nSteps
    ensures Sync(Init(nThreads, nSteps))
  {
  }

  lemma MutexStep(s: State, a: Action)
    requires WellFormed(s) && Mutex(s) && Allowed(s, a)
    ensures Mutex(Step(s, a))
  {
  }

  lemma WellFormedStep(s: State, a: Action)
    requires WellFormed(s) && Allowed(s, a)
    ensures WellFormed(Step(s, a))
  {
    var s' := Step(s, a);
    forall t | 0 <= t < |s.w| ensures WorkerOk(s'.w[t], s.nSteps, |s.w|) {
      assert WorkerOk(s.w[t], s.nSteps, |s.w|);
    }
  }

  lemma IndicesStep(s: State, a: Action)
    requires WellFormed(s) && Indices(s) && Allowed(s, a)
    ensures Indices(Step(s, a))
  {
    var s' := Step(s, a);
    if s'.index == s.index {
      assert forall j :: 0 <= j < |s.w| ==> s'.w[j].index == s.w[j].index;
    } else {
      assert forall j :: 0 <= j < |s.w| ==> s'.w[j].index == if j == a.t then s.index else s.w[j].index;
    }
  }

  /** Does the transition write a worker's step or index? */
  predicate Moves(s: State, a: Action)
    requires WellFormed(s) && Allowed(s, a)
  {
    a.Go? && s.w[a.t].pc.Update?
  }

  lemma BlocksKept(s: State, a: Action, t: int)
    requires WellFormed(s) && Allowed(s, a) && !Moves(s, a) && 0 <= t < |s.w|
    ensures |Step(s, a).w| == |s.w|
    ensures forall j :: 0 <= j < |s.w| ==> Blocks(Step(s, a), t, j) == Blocks(s, t, j)
    ensures Unblocked(Step(s, a), t) == Unblocked(s, t)
  {
    var s' := Step(s, a);
    assert forall j :: 0 <= j < |s.w| ==> s'.w[j].step == s.w[j].step && s'.w[j].index == s.w[j].index;
  }

  /** Advancing never blocks another worker: the step grows, or the index becomes the largest. */
  lemma AdvanceKeepsUnblocked(s: State, t: int, a: int, b: int)
    requires WellFormed(s) && Indices(s) && Enabled(s, t) && s.w[t].pc.Update?
    requires 0 <= a < |s.w| && a != t && 0 <= b < |s.w| && !Blocks(s, a, b)
    ensures !Blocks(Advance(s, t), a, b)
  {
    assert WorkerOk(s.w[a], s.nSteps, |s.w|) && WorkerOk(s.w[t], s.nSteps, |s.w|);
  }

  lemma GuardMove(s: State, a: Action, t: int)
    requires WellFormed(s) && Indices(s) && Allowed(s, a) && Moves(s, a) && 0 <= t < |s.w| && GuardOk(s, t)
    ensures |Step(s, a).w| == |s.w| && GuardOk(Step(s, a), t)
  {
    var s' := Advance(s, a.t);
    if t != a.t {
      forall b | 0 <= b < |s.w| && !Blocks(s, t, b) ensures !Blocks(s', t, b) {
        AdvanceKeepsUnblocked(s, a.t, t, b);
      }
    }
  }

  lemma GuardStay(s: State, a: Action, t: int)
    requires WellFormed(s) && Allowed(s, a) && !Moves(s, a) && 0 <= t < |s.w| && GuardOk(s, t)
    ensures |Step(s, a).w| == |s.w| && GuardOk(Step(s, a), t)
  {
    BlocksKept(s, a, t);
    assert !Unblocked(s, t) || forall j :: 0 <= j < |s.w| ==> !Blocks(s, t, j);
  }

  lemma SleepStep(s: State, a: Action, t: int)
    requires Sync(s) && Allowed(s, a) && 0 <= t < |s.w|
    ensures |Step(s, a).w| == |s.w| && SleepOk(Step(s, a), t)
  {
    assert SleepOk(s, t);
    if Moves(s, a) {
      assert Announced(Step(s, a));
    } else {
      BlocksKept(s, a, t);
    }
  }

  lemma SyncStep(s: State, a: Action)
    requires Sync(s) && Allowed(s, a)
    ensures Sync(Step(s, a))
  {
    WellFormedStep(s, a);
    MutexStep(s, a);
    IndicesStep(s, a);
    var s' := Step(s, a);
    forall t | 0 <= t < |s'.w| ensures GuardOk(s', t) && SleepOk(s', t) {
      assert GuardOk(s, t);
      if Moves(s, a) { GuardMove(s, a, t); } else { GuardStay(s, a, t); }
      SleepStep(s, a, t);
    }
  }

  /** No two workers are past the guard of the same step. */
  lemma StepIsExclusive(s: State, a: int, b: int)
    requires Sync(s) && 0 <= a < |s.w| && 0 <= b < |s.w| && a != b
    requires Passed(s.w[a].pc) && Passed(s.w[b].pc)
    ensures s.w[a].step != s.w[b].step
  {
    assert GuardOk(s, a) && GuardOk(s, b);
    assert !Blocks(s, a, b) && !Blocks(s, b, a);
  }

  // ---------------------------------------------------------------- what the calls have done so far

  datatype Phase = Todo | Busy | Done

  function PhaseOf(pc: Pc): Phase {
    if pc.Running? then Busy else if pc.Lock2? || pc.Update? then Done else Todo
  }

  /** The worker's item has not been passed to step `k` yet. */
  predicate NotCalled(w: Worker, k: int) {
    w.step < k || (w.step == k && PhaseOf(w.pc) == Todo)
  }

  predicate NotReturned(w: Worker, k: int) {
    w.step < k || (w.step == k && PhaseOf(w.pc) != Done)
  }

  predicate BusyAt(w: Worker, k: int) {
    w.step == k && PhaseOf(w.pc) == Busy
  }

  /** The worker holds a result of step `k - 1` that step `k` has not received yet. */
  predicate Carrying(w: Worker, k: int) {
    (w.step == k && PhaseOf(w.pc) == Todo) || (w.step == k - 1 && PhaseOf(w.pc) == Done && w.data != NULL)
  }

  ghost predicate Before(log: seq<Item>, x: int) {
    forall i :: 0 <= i < |log| ==> log[i].index < x
  }

  ghost predicate Increasing(log: seq<Item>) {
    forall i, j :: 0 <= i < j < |log| ==> log[i].index < log[j].index
  }

  /** The results that are passed on. */
  function NonNull(log: seq<Item>): (r: seq<Item>)
    ensures |r| <= |log|
  {
    if log == [] then []
    else NonNull(log[..|log| - 1]) + if log[|log| - 1].ptr != NULL then [log[|log| - 1]] else []
  }

  lemma NonNullAppend(log: seq<Item>, x: Item)
    ensures NonNull(log + [x]) == NonNull(log) + if x.ptr != NULL then [x] else []
  {
    assert (log + [x])[..|log|] == log;
  }

  lemma {:induction false} NonNullOrder(log: seq<Item>, x: int)
    requires Increasing(log)
    ensures Increasing(NonNull(log))
    ensures Before(log, x) ==> Before(NonNull(log), x)
  {
    if log != [] {
      var init, last := log[..|log| - 1], log[|log| - 1];
      NonNullOrder(init, x);
      NonNullOrder(init, last.index);
    }
  }

  /** Items reach step `k` in increasing order, and items still to come are younger. */
  ghost predicate OrderOk(s: State, k: int)
    requires WellFormed(s) && 0 <= k < s.nSteps
  {
    && Increasing(s.calls[k]) && Increasing(s.outs[k])
    && Before(s.calls[k], s.index) && Before(s.outs[k], s.index)
    && (forall t :: 0 <= t < |s.w| && NotCalled(s.w[t], k) ==> Before(s.calls[k], s.w[t].index))
    && (forall t :: 0 <= t < |s.w| && NotReturned(s.w[t], k) ==> Before(s.outs[k], s.w[t].index))
  }

  /** The n-th result of step `k` is that of its n-th call, and only the last call can be pending. */
  ghost predicate PairOk(s: State, k: int)
    requires WellFormed(s) && 0 <= k < s.nSteps
  {
    && |s.outs[k]| <= |s.calls[k]|
    && (forall i :: 0 <= i < |s.outs[k]| ==> s.calls[k][i].index == s.outs[k][i].index)
    && (forall t :: 0 <= t < |s.w| && BusyAt(s.w[t], k) ==>
          |s.calls[k]| == |s.outs[k]| + 1 && s.calls[k][|s.outs[k]|].index == s.w[t].index)
    && ((forall t :: 0 <= t < |s.w| ==> !BusyAt(s.w[t], k)) ==> |s.calls[k]| == |s.outs[k]|)
    && (k == 0 ==> forall i :: 0 <= i < |s.calls[0]| ==> s.calls[0][i].ptr == NULL)
  }

  ghost predicate CarriedBySome(s: State, k: int, item: Item) {
    exists t :: 0 <= t < |s.w| && Carrying(s.w[t], k) && Item(s.w[t].index, s.w[t].data) == item
  }

  ghost predicate WaitsIn(nn: seq<Item>, from: nat, item: Item) {
    exists i :: from <= i < |nn| && nn[i] == item
  }

  /** Step `k` has consumed a prefix of what step `k - 1` passed on; the rest is carried by workers. */
  ghost predicate CarryOk(s: State, k: int)
    requires WellFormed(s) && 1 <= k < s.nSteps
  {
    var nn := NonNull(s.outs[k - 1]);
    && s.calls[k] <= nn
    && (forall i :: |s.calls[k]| <= i < |nn| ==> CarriedBySome(s, k, nn[i]))
    && (forall t :: 0 <= t < |s.w| && Carrying(s.w[t], k) ==>
          WaitsIn(nn, |s.calls[k]|, Item(s.w[t].index, s.w[t].data)))
  }

  ghost predicate LogOk(s: State, k: int)
    requires WellFormed(s) && 0 <= k < s.nSteps
  {
    OrderOk(s, k) && PairOk(s, k) && (1 <= k ==> CarryOk(s, k))
  }

  ghost predicate Inv(s: State) {
    Sync(s) && forall k :: 0 <= k < s.nSteps ==> LogOk(s, k)
  }

  lemma InvInit(nThreads: int, nSteps: int)
    requires 1 <= nSteps
    ensures Inv(Init(nThreads, nSteps))
  {
    SyncInit(nThreads, nSteps);
  }

  // -------- transitions that leave the records alone

  /** The records and everything they depend on, apart from worker `t`, are unchanged. */
  ghost predicate SameRecords(s: State, s': State) {
    && WellFormed(s) && WellFormed(s') && |s'.w| == |s.w| && s'.nSteps == s.nSteps
    && s'.calls == s.calls && s'.outs == s.outs && s.index <= s'.index
  }

  ghost predicate SameView(w: Worker, w': Worker) {
    w'.index == w.index && w'.step == w.step && w'.data == w.data && PhaseOf(w'.pc) == PhaseOf(w.pc)
  }

  /** Worker `w'` is in no record that `w` is not in. */
  ghost predicate Compatible(s: State, w: Worker, w': Worker, k: int) {
    && (NotCalled(w', k) ==> w'.index == s.index || (NotCalled(w, k) && w'.index == w.index))
    && (NotReturned(w', k) ==> w'.index == s.index || (NotReturned(w, k) && w'.index == w.index))
    && (BusyAt(w', k) <==> BusyAt(w, k)) && (BusyAt(w, k) ==> w'.index == w.index)
    && (1 <= k ==> (Carrying(w', k) <==> Carrying(w, k)))
    && (1 <= k && Carrying(w, k) ==> w'.index == w.index && w'.data == w.data)
  }

  lemma CarryStill(s: State, s': State, k: int)
    requires WellFormed(s) && WellFormed(s') && |s'.w| == |s.w| && s'.nSteps == s.nSteps
    requires 1 <= k < s.nSteps && s'.calls[k] == s.calls[k] && NonNull(s'.outs[k - 1]) == NonNull(s.outs[k - 1])
    requires forall t :: 0 <= t < |s.w| ==> (Carrying(s'.w[t], k) <==> Carrying(s.w[t], k))
    requires forall t :: 0 <= t < |s.w| && Carrying(s.w[t], k) ==>
               s'.w[t].index == s.w[t].index && s'.w[t].data == s.w[t].data
    requires CarryOk(s, k)
    ensures CarryOk(s', k)
  {
    var nn := NonNull(s.outs[k - 1]);
    forall i | |s.calls[k]| <= i < |nn| ensures CarriedBySome(s', k, nn[i]) {
      assert CarriedBySome(s, k, nn[i]);
      var t :| 0 <= t < |s.w| && Carrying(s.w[t], k) && Item(s.w[t].index, s.w[t].data) == nn[i];
      assert Carrying(s'.w[t], k);
    }
  }

  lemma LogKept(s: State, s': State, k: int)
    requires SameRecords(s, s') && 0 <= k < s.nSteps && LogOk(s, k)
    requires forall t :: 0 <= t < |s.w| ==> Compatible(s, s.w[t], s'.w[t], k)
    ensures LogOk(s', k)
  {
    assert OrderOk(s', k);
    assert PairOk(s', k);
    if 1 <= k { CarryStill(s, s', k); }
  }

  lemma CompatibleStep(s: State, a: Action, k: int, t: int)
    requires WellFormed(s) && Allowed(s, a) && 0 <= k < s.nSteps && 0 <= t < |s.w|
    requires a.Go? ==> !s.w[a.t].pc.Ready? && !s.w[a.t].pc.Running?
    ensures |Step(s, a).w| == |s.w| && Compatible(s, s.w[t], Step(s, a).w[t], k)
  {
    var s' := Step(s, a);
    assert WorkerOk(s.w[t], s.nSteps, |s.w|);
    if !(Moves(s, a) && t == a.t) {
      assert SameView(s.w[t], s'.w[t]);
    }
  }

  // -------- a call starts

  lemma OrderBegin(s: State, t: int, k: int)
    requires Sync(s) && Enabled(s, t) && s.w[t].pc.Ready? && 0 <= k < s.nSteps && OrderOk(s, k)
    ensures WellFormed(Begin(s, t)) && OrderOk(Begin(s, t), k)
  {
    WellFormedStep(s, Go(t, NULL));
    assert GuardOk(s, t);
    if k == s.w[t].step {
      forall u | 0 <= u < |s.w| && u != t && NotCalled(s.w[u], k) ensures s.w[t].index < s.w[u].index {
        assert !Blocks(s, t, u);
      }
    }
  }

  lemma NobodyElseBusy(s: State, t: int)
    requires Sync(s) && 0 <= t < |s.w| && Passed(s.w[t].pc)
    ensures forall u :: 0 <= u < |s.w| && u != t ==> !BusyAt(s.w[u], s.w[t].step)
  {
    forall u | 0 <= u < |s.w| && u != t ensures !BusyAt(s.w[u], s.w[t].step) {
      if s.w[u].pc.Running? { StepIsExclusive(s, t, u); }
    }
  }

  lemma PairBegin(s: State, t: int, k: int)
    requires Sync(s) && Enabled(s, t) && s.w[t].pc.Ready? && 0 <= k < s.nSteps && PairOk(s, k)
    ensures WellFormed(Begin(s, t)) && PairOk(Begin(s, t), k)
  {
    WellFormedStep(s, Go(t, NULL));
    NobodyElseBusy(s, t);
    var s' := Begin(s, t);
    assert k == s.w[t].step ==> BusyAt(s'.w[t], k);
    assert k != s.w[t].step ==> forall u :: 0 <= u < |s.w| ==> BusyAt(s'.w[u], k) == BusyAt(s.w[u], k);
    assert k == s.w[t].step ==> forall u :: 0 <= u < |s.w| ==> !BusyAt(s.w[u], k);
  }

  /** The worker that passed the guard carries the oldest waiting item. */
  lemma NextInLine(s: State, t: int, k: int)
    requires Sync(s) && 0 <= t < |s.w| && Unblocked(s, t) && 1 <= k < s.nSteps
    requires CarryOk(s, k) && Increasing(NonNull(s.outs[k - 1]))
    requires s.w[t].step == k && PhaseOf(s.w[t].pc) == Todo
    ensures |s.calls[k]| < |NonNull(s.outs[k - 1])|
    ensures NonNull(s.outs[k - 1])[|s.calls[k]|] == Item(s.w[t].index, s.w[t].data)
  {
    var nn, c := NonNull(s.outs[k - 1]), |s.calls[k]|;
    assert WaitsIn(nn, c, Item(s.w[t].index, s.w[t].data));
    var i :| c <= i < |nn| && nn[i] == Item(s.w[t].index, s.w[t].data);
    assert CarriedBySome(s, k, nn[c]);
    var u :| 0 <= u < |s.w| && Carrying(s.w[u], k) && Item(s.w[u].index, s.w[u].data) == nn[c];
    assert !Blocks(s, t, u);
    assert nn[c].index <= nn[i].index;
  }

  /** Step `k` takes the first item of the rest; the carriers of the others are untouched. */
  lemma CarryConsumed(s: State, s': State, t: int, k: int)
    requires WellFormed(s) && WellFormed(s') && |s'.w| == |s.w| && s'.nSteps == s.nSteps && Indices(s)
    requires 1 <= k < s.nSteps && 0 <= t < |s.w| && s'.outs[k - 1] == s.outs[k - 1]
    requires forall u :: 0 <= u < |s.w| && u != t ==> s'.w[u] == s.w[u]
    requires Carrying(s.w[t], k) && !Carrying(s'.w[t], k)
    requires CarryOk(s, k) && Increasing(NonNull(s.outs[k - 1]))
    requires |s.calls[k]| < |NonNull(s.outs[k - 1])|
    requires NonNull(s.outs[k - 1])[|s.calls[k]|] == Item(s.w[t].index, s.w[t].data)
    requires s'.calls[k] == s.calls[k] + [Item(s.w[t].index, s.w[t].data)]
    ensures CarryOk(s', k)
  {
    var nn, c := NonNull(s.outs[k - 1]), |s.calls[k]|;
    forall i | c < i < |nn| ensures CarriedBySome(s', k, nn[i]) {
      assert CarriedBySome(s, k, nn[i]);
      var u :| 0 <= u < |s.w| && Carrying(s.w[u], k) && Item(s.w[u].index, s.w[u].data) == nn[i];
      assert nn[c].index < nn[i].index;
      assert s'.w[u] == s.w[u];
    }
    forall u | 0 <= u < |s.w| && Carrying(s'.w[u], k) ensures WaitsIn(nn, c + 1, Item(s'.w[u].index, s'.w[u].data)) {
      assert WaitsIn(nn, c, Item(s.w[u].index, s.w[u].data));
      var i :| c <= i < |nn| && nn[i] == Item(s.w[u].index, s.w[u].data);
      assert s.w[u].index != s.w[t].index;
    }
  }

  lemma CarryBegin(s: State, t: int, k: int)
    requires Sync(s) && Enabled(s, t) && s.w[t].pc.Ready? && 1 <= k < s.nSteps && CarryOk(s, k) && OrderOk(s, k - 1)
    ensures WellFormed(Begin(s, t)) && CarryOk(Begin(s, t), k)
  {
    WellFormedStep(s, Go(t, NULL));
    if s.w[t].step == k {
      NonNullOrder(s.outs[k - 1], 0);
      assert GuardOk(s, t);
      NextInLine(s, t, k);
      CarryConsumed(s, Begin(s, t), t, k);
    } else {
      CarryStill(s, Begin(s, t), k);
    }
  }

  // -------- a call returns

  lemma OrderReturn(s: State, t: int, r: Ptr, k: int)
    requires Sync(s) && Enabled(s, t) && s.w[t].pc.Running? && 0 <= k < s.nSteps && OrderOk(s, k)
    ensures WellFormed(Return(s, t, r)) && OrderOk(Return(s, t, r), k)
  {
    WellFormedStep(s, Go(t, r));
    assert GuardOk(s, t);
    if k == s.w[t].step {
      forall u | 0 <= u < |s.w| && u != t && NotReturned(s.w[u], k) ensures s.w[t].index < s.w[u].index {
        assert !Blocks(s, t, u);
      }
    }
  }

  lemma PairReturn(s: State, t: int, r: Ptr, k: int)
    requires Sync(s) && Enabled(s, t) && s.w[t].pc.Running? && 0 <= k < s.nSteps && PairOk(s, k)
    ensures WellFormed(Return(s, t, r)) && PairOk(Return(s, t, r), k)
  {
    WellFormedStep(s, Go(t, r));
    NobodyElseBusy(s, t);
    assert k == s.w[t].step ==> BusyAt(s.w[t], k);
    assert forall u :: 0 <= u < |s.w| && u != t ==> Return(s, t, r).w[u] == s.w[u];
    assert k != s.w[t].step ==> forall u :: 0 <= u < |s.w| ==> BusyAt(Return(s, t, r).w[u], k) == BusyAt(s.w[u], k);
  }

  /** A non-NULL result joins the rest, and its worker carries it. */
  lemma CarryProduced(s: State, s': State, t: int, k: int, item: Item)
    requires WellFormed(s) && WellFormed(s') && |s'.w| == |s.w| && s'.nSteps == s.nSteps
    requires 1 <= k < s.nSteps && 0 <= t < |s.w| && s'.calls[k] == s.calls[k]
    requires forall u :: 0 <= u < |s.w| && u != t ==> s'.w[u] == s.w[u]
    requires !Carrying(s.w[t], k) && Carrying(s'.w[t], k) && Item(s'.w[t].index, s'.w[t].data) == item
    requires CarryOk(s, k)
    requires NonNull(s'.outs[k - 1]) == NonNull(s.outs[k - 1]) + [item]
    ensures CarryOk(s', k)
  {
    var nn, nn', c := NonNull(s.outs[k - 1]), NonNull(s'.outs[k - 1]), |s.calls[k]|;
    forall i | c <= i < |nn'| ensures CarriedBySome(s', k, nn'[i]) {
      if i < |nn| {
        assert CarriedBySome(s, k, nn[i]);
        var u :| 0 <= u < |s.w| && Carrying(s.w[u], k) && Item(s.w[u].index, s.w[u].data) == nn[i];
        assert s'.w[u] == s.w[u];
      }
    }
    forall u | 0 <= u < |s.w| && Carrying(s'.w[u], k) ensures WaitsIn(nn', c, Item(s'.w[u].index, s'.w[u].data)) {
      if u != t {
        assert WaitsIn(nn, c, Item(s.w[u].index, s.w[u].data));
        var i :| c <= i < |nn| && nn[i] == Item(s.w[u].index, s.w[u].data);
        assert nn'[i] == nn[i];
      } else {
        assert nn'[|nn|] == item;
      }
    }
  }

  lemma CarryReturn(s: State, t: int, r: Ptr, k: int)
    requires Sync(s) && Enabled(s, t) && s.w[t].pc.Running? && 1 <= k < s.nSteps && CarryOk(s, k)
    ensures WellFormed(Return(s, t, r)) && CarryOk(Return(s, t, r), k)
  {
    WellFormedStep(s, Go(t, r));
    var s' := Return(s, t, r);
    var item := Item(s.w[t].index, r);
    if s.w[t].step == k - 1 { NonNullAppend(s.outs[k - 1], item); }
    if s.w[t].step == k - 1 && r != NULL {
      CarryProduced(s, s', t, k, item);
    } else {
      CarryStill(s, s', k);
    }
  }

  lemma LogStep(s: State, a: Action, k: int)
    requires Inv(s) && Allowed(s, a) && 0 <= k < s.nSteps
    ensures WellFormed(Step(s, a)) && Step(s, a).nSteps == s.nSteps && LogOk(Step(s, a), k)
  {
    WellFormedStep(s, a);
    assert LogOk(s, k);
    assert 1 <= k ==> LogOk(s, k - 1);
    if a.Go? && s.w[a.t].pc.Ready? {
      OrderBegin(s, a.t, k);
      PairBegin(s, a.t, k);
      if 1 <= k { CarryBegin(s, a.t, k); }
    } else if a.Go? && s.w[a.t].pc.Running? {
      OrderReturn(s, a.t, a.result, k);
      PairReturn(s, a.t, a.result, k);
      if 1 <= k { CarryReturn(s, a.t, a.result, k); }
    } else {
      var s' := Step(s, a);
      forall t | 0 <= t < |s.w| ensures |s'.w| == |s.w| && Compatible(s, s.w[t], s'.w[t], k) {
        CompatibleStep(s, a, k, t);
      }
      LogKept(s, s', k);
    }
  }

  lemma InvStep(s: State, a: Action)
    requires Inv(s) && Allowed(s, a)
    ensures Inv(Step(s, a))
  {
    SyncStep(s, a);
    forall k | 0 <= k < Step(s, a).nSteps ensures LogOk(Step(s, a), k) {
      LogStep(s, a, k);
    }
  }

  // ---------------------------------------------------------------- runs

  ghost predicate Fits(s: State, run: seq<Action>)
    decreases |run|
  {
    WellFormed(s) && (run == [] || (Allowed(s, run[0]) && Fits(Step(s, run[0]), run[1..])))
  }

  ghost function After(s: State, run: seq<Action>): State
    requires Fits(s, run)
    decreases |run|
  {
    if run == [] then s else After(Step(s, run[0]), run[1..])
  }

  /** `s` is reached by some run of `nThreads` threads over `nSteps` steps. */
  ghost predicate Reachable(nThreads: int, nSteps: int, s: State) {
    1 <= nSteps && exists run :: Fits(Init(nThreads, nSteps), run) && After(Init(nThreads, nSteps), run) == s
  }

  lemma {:induction false} InvRun(s: State, run: seq<Action>)
    requires Inv(s) && Fits(s, run)
    ensures Inv(After(s, run)) && After(s, run).nSteps == s.nSteps && |After(s, run).w| == |s.w|
    decreases |run|
  {
    if run != [] {
      InvStep(s, run[0]);
      InvRun(Step(s, run[0]), run[1..]);
    }
  }

  lemma InvReachable(nThreads: int, nSteps: int, s: State)
    requires Reachable(nThreads, nSteps, s)
    ensures Inv(s) && s.nSteps == nSteps
    ensures |s.w| == if nThreads < 1 then 1 else nThreads
  {
    var run :| Fits(Init(nThreads, nSteps), run) && After(Init(nThreads, nSteps), run) == s;
    InvInit(nThreads, nSteps);
    InvRun(Init(nThreads, nSteps), run);
  }

  ghost predicate AllExited(s: State) {
    forall t :: 0 <= t < |s.w| ==> s.w[t].pc.Exited?
  }

  // ---------------------------------------------------------------- safety results

  /** No two workers run the same step at once. */
  lemma StepsNeverOverlap(nThreads: int, nSteps: int, s: State, a: int, b: int)
    requires Reachable(nThreads, nSteps, s) && 0 <= a < |s.w| && 0 <= b < |s.w| && a != b
    requires s.w[a].pc.Running? && s.w[b].pc.Running?
    ensures s.w[a].step != s.w[b].step
  {
    InvReachable(nThreads, nSteps, s);
    StepIsExclusive(s, a, b);
  }

  /** The calls of a step have strictly increasing item index, and so have its results, call by call. */
  lemma CallsInOrder(nThreads: int, nSteps: int, s: State, k: int)
    requires Reachable(nThreads, nSteps, s) && 0 <= k < nSteps
    ensures |s.calls| == |s.outs| == nSteps
    ensures Increasing(s.calls[k]) && Increasing(s.outs[k])
    ensures |s.outs[k]| <= |s.calls[k]|
        && forall i :: 0 <= i < |s.outs[k]| ==> s.calls[k][i].index == s.outs[k][i].index
  {
    InvReachable(nThreads, nSteps, s);
    assert LogOk(s, k);
  }

  /**
    What step `k > 0` has been given is always a prefix of the non-NULL results of step `k - 1`,
    in order; step 0 is only given NULL; and once all workers have exited nothing is left over.
   */
  lemma InputsArePrefixOfOutputs(nThreads: int, nSteps: int, s: State, k: int)
    requires Reachable(nThreads, nSteps, s) && 0 <= k < nSteps
    ensures |s.calls| == |s.outs| == nSteps
    ensures k == 0 ==> forall i :: 0 <= i < |s.calls[0]| ==> s.calls[0][i].ptr == NULL
    ensures 1 <= k ==> s.calls[k] <= NonNull(s.outs[k - 1])
    ensures 1 <= k && AllExited(s) ==> s.calls[k] == NonNull(s.outs[k - 1])
  {
    InvReachable(nThreads, nSteps, s);
    assert LogOk(s, k);
    if 1 <= k && AllExited(s) {
      var nn, c := NonNull(s.outs[k - 1]), |s.calls[k]|;
      if c < |nn| {
        NothingCarried(s, k, nn[c]);
        assert false;
      }
    }
  }

  lemma NothingCarried(s: State, k: int, item: Item)
    requires WellFormed(s) && AllExited(s) && 1 <= k < s.nSteps
    ensures !CarriedBySome(s, k, item)
  {
    assert forall t :: 0 <= t < |s.w| ==> WorkerOk(s.w[t], s.nSteps, |s.w|);
  }

  // ---------------------------------------------------------------- progress

  /** A worker that is not on its way out and has the lowest index of those is not blocked. */
  lemma LowestIsUnblocked(nThreads: int, nSteps: int, s: State, t: int)
    requires Reachable(nThreads, nSteps, s) && 0 <= t < |s.w| && s.w[t].step < nSteps
    requires forall j :: 0 <= j < |s.w| && s.w[j].step < nSteps ==> s.w[t].index <= s.w[j].index
    ensures Unblocked(s, t)
    ensures s.w[t].pc.Asleep? ==> Announced(s)
  {
    InvReachable(nThreads, nSteps, s);
    assert SleepOk(s, t);
  }

  /** A sleeping worker whose mutex is free is blocked by somebody older who is still at work. */
  lemma BlockerOf(s: State, t: int) returns (j: int)
    requires Sync(s) && 0 <= t < |s.w| && s.w[t].pc.Asleep? && s.mutex == -1
    ensures 0 <= j < |s.w| && s.w[j].index < s.w[t].index && !s.w[j].pc.Exited?
  {
    assert SleepOk(s, t);
    j :| 0 <= j < |s.w| && Blocks(s, t, j);
    assert WorkerOk(s.w[j], s.nSteps, |s.w|) && WorkerOk(s.w[t], s.nSteps, |s.w|);
  }

  lemma {:induction false} SomebodyEnabled(s: State, t: int) returns (u: int)
    requires Sync(s) && 0 <= t < |s.w| && !s.w[t].pc.Exited?
    ensures Enabled(s, u)
    decreases s.w[t].index
  {
    if s.mutex != -1 {
      u := s.mutex;
    } else if s.w[t].pc.Asleep? {
      var j := BlockerOf(s, t);
      u := SomebodyEnabled(s, j);
    } else {
      u := t;
    }
  }

  /** No deadlock: as long as some worker has not exited, some worker can move without a spurious wake-up. */
  lemma NoDeadlock(nThreads: int, nSteps: int, s: State)
    requires Reachable(nThreads, nSteps, s) && !AllExited(s)
    ensures exists u :: Enabled(s, u)
  {
    InvReachable(nThreads, nSteps, s);
    var t :| 0 <= t < |s.w| && !s.w[t].pc.Exited?;
    var u := SomebodyEnabled(s, t);
  }

  /**
    A worker past the guard is behind no older item, and one that sleeps waits for an older item that has not
    passed its step, unless a broadcast is about to wake it.
   */
  lemma WaitsForOlder(nThreads: int, nSteps: int, s: State, t: int)
    requires Reachable(nThreads, nSteps, s) && 0 <= t < |s.w|
    ensures s.w[t].pc.Running? ==>
              forall j :: 0 <= j < |s.w| && s.w[j].index < s.w[t].index ==> s.w[t].step < s.w[j].step
    ensures s.w[t].pc.Asleep? ==>
              || (0 <= s.mutex < |s.w| && s.w[s.mutex].pc.Broadcast?)
              || exists j :: 0 <= j < |s.w| && s.w[j].index < s.w[t].index && s.w[j].step <= s.w[t].step
  {
    InvReachable(nThreads, nSteps, s);
    assert GuardOk(s, t) && SleepOk(s, t);
    forall j | 0 <= j < |s.w| ensures Blocks(s, t, j) ==> s.w[j].index < s.w[t].index && s.w[j].step <= s.w[t].step {
    }
    if s.w[t].pc.Running? {
      forall j | 0 <= j < |s.w| && s.w[j].index < s.w[t].index ensures s.w[t].step < s.w[j].step {
        assert !Blocks(s, t, j);
      }
    }
  }

  // ---------------------------------------------------------------- how many calls

  /** A worker whose call of step 0 has not led, and may never lead, to a non-NULL result. */
  predicate Stops(w: Worker, nSteps: int) {
    || w.step == nSteps
    || (w.step == 0 && (PhaseOf(w.pc) == Busy || (PhaseOf(w.pc) == Done && w.data == NULL)))
  }

  function CountStops(w: seq<Worker>, nSteps: int): (c: nat)
    ensures c <= |w|
  {
    if w == [] then 0 else CountStops(w[1..], nSteps) + if Stops(w[0], nSteps) then 1 else 0
  }

  lemma {:induction false} CountUpdate(w: seq<Worker>, w': seq<Worker>, t: int, nSteps: int)
    requires |w'| == |w| && 0 <= t < |w|
    requires forall i :: 0 <= i < |w| && i != t ==> Stops(w'[i], nSteps) == Stops(w[i], nSteps)
    ensures CountStops(w', nSteps) == CountStops(w, nSteps)
              - (if Stops(w[t], nSteps) then 1 else 0) + (if Stops(w'[t], nSteps) then 1 else 0)
    decreases |w|
  {
    if t == 0 {
      CountSame(w[1..], w'[1..], nSteps);
    } else {
      CountUpdate(w[1..], w'[1..], t - 1, nSteps);
    }
  }

  lemma {:induction false} CountSame(w: seq<Worker>, w': seq<Worker>, nSteps: int)
    requires |w'| == |w| && forall i :: 0 <= i < |w| ==> Stops(w'[i], nSteps) == Stops(w[i], nSteps)
    ensures CountStops(w', nSteps) == CountStops(w, nSteps)
  {
    if w != [] { CountSame(w[1..], w'[1..], nSteps); }
  }

  ghost predicate Counted(s: State)
    requires WellFormed(s)
  {
    |s.calls[0]| <= |NonNull(s.outs[0])| + CountStops(s.w, s.nSteps)
  }

  /** A call of step 0 makes its worker a stopping one; only a non-NULL result undoes that. */
  lemma StopsStep(s: State, a: Action)
    requires WellFormed(s) && Allowed(s, a) && 2 <= s.nSteps
    ensures var s' := Step(s, a);
            && |s'.w| == |s.w| && |s'.calls| == |s'.outs| == s.nSteps
            && (forall i :: 0 <= i < |s.w| && i != a.t ==> Stops(s'.w[i], s.nSteps) == Stops(s.w[i], s.nSteps))
            && |s.calls[0]| <= |s'.calls[0]| <= |s.calls[0]| + 1
            && |NonNull(s.outs[0])| <= |NonNull(s'.outs[0])|
            && (|s'.calls[0]| == |s.calls[0]| + 1 ==> !Stops(s.w[a.t], s.nSteps) && Stops(s'.w[a.t], s.nSteps))
            && (Stops(s.w[a.t], s.nSteps) && !Stops(s'.w[a.t], s.nSteps) ==>
              |NonNull(s'.outs[0])| == |NonNull(s.outs[0])| + 1)
  {
    var s' := Step(s, a);
    assert WorkerOk(s.w[a.t], s.nSteps, |s.w|);
    forall i | 0 <= i < |s.w| && i != a.t ensures SameView(s.w[i], s'.w[i]) {
    }
    if a.Go? && s.w[a.t].pc.Running? && s.w[a.t].step == 0 {
      NonNullAppend(s.outs[0], Item(s.w[a.t].index, a.result));
    }
  }

  lemma CountedStep(s: State, a: Action)
    requires WellFormed(s) && Allowed(s, a) && 2 <= s.nSteps && Counted(s)
    ensures WellFormed(Step(s, a)) && Step(s, a).nSteps == s.nSteps && Counted(Step(s, a))
    ensures |NonNull(s.outs[0])| <= |NonNull(Step(s, a).outs[0])|
  {
    WellFormedStep(s, a);
    StopsStep(s, a);
    CountUpdate(s.w, Step(s, a).w, a.t, s.nSteps);
  }

  lemma {:induction false} CountedRun(s: State, run: seq<Action>)
    requires Fits(s, run) && 2 <= s.nSteps && Counted(s)
    ensures WellFormed(After(s, run)) && Counted(After(s, run))
    ensures |NonNull(s.outs[0])| <= |NonNull(After(s, run).outs[0])|
    decreases |run|
  {
    if run != [] {
      CountedStep(s, run[0]);
      CountedRun(Step(s, run[0]), run[1..]);
    }
  }

  function Total(calls: seq<seq<Item>>): nat {
    if calls == [] then 0 else Total(calls[..|calls| - 1]) + |calls[|calls| - 1]|
  }

  lemma {:induction false} TotalBound(calls: seq<seq<Item>>, K: nat, extra: nat)
    requires forall k :: 1 <= k < |calls| ==> |calls[k]| <= K
    requires calls != [] ==> |calls[0]| <= K + extra
    ensures Total(calls) <= Times(K, |calls|) + extra
  {
    if calls != [] { TotalBound(calls[..|calls| - 1], K, extra); }
  }

  /** Later steps are called at most as often as step 0 delivered. */
  lemma {:induction false} LaterCalls(s: State, k: int)
    requires Inv(s) && 1 <= k < s.nSteps
    ensures |s.calls[k]| <= |NonNull(s.outs[0])|
    decreases k
  {
    assert LogOk(s, k) && LogOk(s, k - 1);
    if 1 < k { LaterCalls(s, k - 1); }
  }

  lemma CallsBounded(s: State, K: nat)
    requires Inv(s) && 2 <= s.nSteps && Counted(s) && |NonNull(s.outs[0])| <= K
    ensures Total(s.calls) <= Times(K, s.nSteps) + |s.w|
  {
    forall k | 1 <= k < s.nSteps ensures |s.calls[k]| <= K {
      LaterCalls(s, k);
    }
    TotalBound(s.calls, K, |s.w|);
  }

  /**
    With two or more steps and at most `K` non-NULL results of step 0, at most `K * nSteps + nWorkers` calls
    are made.
   */
  lemma FewCalls(nThreads: int, nSteps: int, run: seq<Action>, K: nat)
    requires 2 <= nSteps && Fits(Init(nThreads, nSteps), run)
    requires After(Init(nThreads, nSteps), run).outs != [] && |NonNull(After(Init(nThreads, nSteps), run).outs[0])| <= K
    ensures var s := After(Init(nThreads, nSteps), run); Total(s.calls) <= K * nSteps + |s.w|
  {
    var s0 := Init(nThreads, nSteps);
    InvInit(nThreads, nSteps);
    InvRun(s0, run);
    CountedRun(s0, run);
    CallsBounded(After(s0, run), K);
    TimesIsProduct(K, nSteps);
  }

  // ---------------------------------------------------------------- termination

  /** Transitions a worker can still take before it sleeps or needs another call; `n` is the number of workers. */
  function Remaining(pc: Pc, n: nat): (r: int)
    ensures (pc.Test? ==> pc.i <= n) ==> 0 <= r
  {
    match pc
    case Exited => 0
    case Asleep => 0
    case Ready => 1
    case Unlock1 => 2
    case Test(i) => 3 + n - i
    case Lock1 => n + 4
    case Woken => n + 4
    case Top => n + 5
    case Unlock2 => n + 6
    case Broadcast => Times(n + 4, n) + n + 7
    case Update => Times(n + 4, n) + n + 8
    case Lock2 => Times(n + 4, n) + n + 9
    case Running => Times(n + 4, n) + n + 10
  }

  /** What one call costs. */
  function PerCall(n: nat): nat {
    Times(n + 4, n) + n + 10
  }

  function Sum(w: seq<Worker>, n: nat): int {
    if w == [] then 0 else Sum(w[1..], n) + Remaining(w[0].pc, n)
  }

  lemma {:induction false} SumUpdate(w: seq<Worker>, t: int, x: Worker, n: nat)
    requires 0 <= t < |w|
    ensures Sum(w[t := x], n) == Sum(w, n) - Remaining(w[t].pc, n) + Remaining(x.pc, n)
  {
    if t == 0 {
      assert w[t := x][1..] == w[1..];
    } else {
      assert w[t := x][1..] == w[1..][t - 1 := x];
      SumUpdate(w[1..], t - 1, x, n);
    }
  }

  lemma {:induction false} SumWake(w: seq<Worker>, w': seq<Worker>, n: nat)
    requires |w'| == |w|
    requires forall i :: 0 <= i < |w| ==> w'[i].pc == w[i].pc || (w[i].pc.Asleep? && w'[i].pc.Woken?)
    ensures Sum(w', n) <= Sum(w, n) + Times(n + 4, |w|)
  {
    if w != [] {
      SumWake(w[1..], w'[1..], n);
    }
  }

  lemma {:induction false} SumNonNegative(w: seq<Worker>, nSteps: int, n: nat)
    requires forall t :: 0 <= t < |w| ==> WorkerOk(w[t], nSteps, n)
    ensures 0 <= Sum(w, n)
  {
    if w != [] { SumNonNegative(w[1..], nSteps, n); }
  }

  lemma {:induction false} SumInit(w: seq<Worker>, n: nat)
    requires forall t :: 0 <= t < |w| ==> w[t].pc.Top?
    ensures Sum(w, n) == Times(n + 5, |w|)
  {
    if w != [] { SumInit(w[1..], n); }
  }

  lemma {:induction false} TotalAppend(calls: seq<seq<Item>>, k: int, x: Item)
    requires 0 <= k < |calls|
    ensures Total(calls[k := calls[k] + [x]]) == Total(calls) + 1
  {
    var calls' := calls[k := calls[k] + [x]];
    var l := |calls| - 1;
    if k == l {
      assert calls'[..l] == calls[..l];
    } else {
      assert calls'[..l] == calls[..l][k := calls[..l][k] + [x]];
      TotalAppend(calls[..l], k, x);
    }
  }

  /** A broadcast pays for everybody it wakes up. */
  lemma WakeCost(s: State, t: int)
    requires 0 <= t < |s.w| && s.w[t].pc.Broadcast?
    ensures Sum(WakeAll(s, t).w, |s.w|) < Sum(s.w, |s.w|)
  {
    var x := s.w[t].(pc := Unlock2);
    SumUpdate(s.w, t, x, |s.w|);
    SumWake(s.w[t := x], WakeAll(s, t).w, |s.w|);
  }

  /** Apart from a broadcast, a transition changes one worker, and records a call only when one starts. */
  lemma OneWorker(s: State, t: int, r: Ptr)
    requires WellFormed(s) && Enabled(s, t) && !s.w[t].pc.Broadcast?
    ensures var s' := Step(s, Go(t, r));
            && |s'.w| == |s.w| && s'.w == s.w[t := s'.w[t]]
            && (!s.w[t].pc.Ready? ==> s'.calls == s.calls && Remaining(s'.w[t].pc, |s.w|) < Remaining(s.w[t].pc, |s.w|))
  {
    assert WorkerOk(s.w[t], s.nSteps, |s.w|);
  }

  /** A transition other than a spurious wake-up uses up a unit, unless it starts a call. */
  lemma SumStep(s: State, t: int, r: Ptr)
    requires WellFormed(s) && Enabled(s, t)
    ensures var s' := Step(s, Go(t, r));
            && |s'.w| == |s.w| && |s'.calls| == |s.calls|
            && Total(s'.calls) == Total(s.calls) + (if s.w[t].pc.Ready? then 1 else 0)
            && Sum(s'.w, |s.w|) < Sum(s.w, |s.w|) + if s.w[t].pc.Ready? then PerCall(|s.w|) else 0
  {
    var s' := Step(s, Go(t, r));
    if s.w[t].pc.Broadcast? {
      WakeCost(s, t);
    } else {
      OneWorker(s, t, r);
      SumUpdate(s.w, t, s'.w[t], |s.w|);
      if s.w[t].pc.Ready? {
        var w := s.w[t];
        TotalAppend(s.calls, w.step, Item(w.index, if w.step != 0 then w.data else NULL));
      }
    }
  }

  /** `bound` is at least the number of calls of the whole run. */
  function Measure(s: State, bound: int): int {
    Times(PerCall(|s.w|), bound - Total(s.calls)) + Sum(s.w, |s.w|)
  }

  function SpuriousIn(run: seq<Action>): nat {
    if run == [] then 0 else SpuriousIn(run[1..]) + if run[0].Spurious? then 1 else 0
  }

  lemma MeasureStep(s: State, a: Action, bound: int)
    requires WellFormed(s) && Allowed(s, a) && Total(Step(s, a).calls) <= bound
    ensures Measure(Step(s, a), bound) < Measure(s, bound) + if a.Spurious? then |s.w| + 5 else 0
  {
    var s' := Step(s, a);
    match a
    case Spurious(t) =>
      SumUpdate(s.w, t, s'.w[t], |s.w|);
    case Go(t, r) =>
      SumStep(s, t, r);
      TimesMonotone(PerCall(|s.w|), bound - Total(s'.calls), bound - Total(s.calls));
  }

  lemma TotalMonotone(s: State, a: Action)
    requires WellFormed(s) && Allowed(s, a)
    ensures Total(s.calls) <= Total(Step(s, a).calls)
  {
    if a.Go? { SumStep(s, a.t, a.result); }
  }

  lemma {:induction false} TotalRun(s: State, run: seq<Action>)
    requires Fits(s, run)
    ensures Total(s.calls) <= Total(After(s, run).calls)
    decreases |run|
  {
    if run != [] {
      TotalMonotone(s, run[0]);
      TotalRun(Step(s, run[0]), run[1..]);
    }
  }

  lemma {:induction false} MeasureRun(s: State, run: seq<Action>, bound: int)
    requires Fits(s, run) && Total(After(s, run).calls) <= bound
    ensures |After(s, run).w| == |s.w|
    ensures |run| + Measure(After(s, run), bound) <= Measure(s, bound) + Times(|s.w| + 5, SpuriousIn(run))
    decreases |run|
  {
    if run != [] {
      var s1 := Step(s, run[0]);
      TotalRun(s1, run[1..]);
      MeasureStep(s, run[0], bound);
      assert |s1.w| == |s.w|;
      MeasureRun(s1, run[1..], bound);
    }
  }

  lemma {:induction false} TotalEmpty(calls: seq<seq<Item>>)
    requires forall k :: 0 <= k < |calls| ==> calls[k] == []
    ensures Total(calls) == 0
  {
    if calls != [] { TotalEmpty(calls[..|calls| - 1]); }
  }

  /**
    With two or more steps, at most `K` non-NULL results of step 0 and `spurious` spurious
    wake-ups, a run of `n` workers has at most
    `(n*(n+4) + n + 10) * (K*nSteps + n) + (n+5)*n + (n+5)*spurious` transitions.
   */
  lemma RunsTerminate(nThreads: int, nSteps: int, run: seq<Action>, K: nat)
    requires 2 <= nSteps && Fits(Init(nThreads, nSteps), run)
    requires After(Init(nThreads, nSteps), run).outs != [] && |NonNull(After(Init(nThreads, nSteps), run).outs[0])| <= K
    ensures var n := |Init(nThreads, nSteps).w|;
            |run| <= Times(PerCall(n), K * nSteps + n) + Times(n + 5, n) + Times(n + 5, SpuriousIn(run))
  {
    var s0 := Init(nThreads, nSteps);
    var s := After(s0, run);
    InvInit(nThreads, nSteps);
    InvRun(s0, run);
    FewCalls(nThreads, nSteps, run, K);
    var bound := K * nSteps + |s0.w|;
    MeasureRun(s0, run, bound);
    SumNonNegative(s.w, s.nSteps, |s.w|);
    SumInit(s0.w, |s0.w|);
    TotalEmpty(s0.calls);
  }

  /**
    A run that cannot be extended without a spurious wake-up has delivered every item through every
    step and ended all workers.
   */
  lemma MaximalRunCompletes(nThreads: int, nSteps: int, s: State)
    requires Reachable(nThreads, nSteps, s) && forall u :: !Enabled(s, u)
    ensures AllExited(s)
    ensures |s.calls| == |s.outs| == nSteps && forall k :: 1 <= k < nSteps ==> s.calls[k] == NonNull(s.outs[k - 1])
  {
    if !AllExited(s) {
      NoDeadlock(nThreads, nSteps, s);
      assert false;
    }
    InvReachable(nThreads, nSteps, s);
    forall k | 1 <= k < nSteps ensures s.calls[k] == NonNull(s.outs[k - 1]) {
      InputsArePrefixOfOutputs(nThreads, nSteps, s, k);
    }
  }

  // ---------------------------------------------------------------- what makes a worker leave

  /** The NULL results of the steps before the last one; the last entry of `outs` belongs to the last step. */
  function NullResults(outs: seq<seq<Item>>): nat {
    if |outs| <= 1 then 0 else |outs[0]| - |NonNull(outs[0])| + NullResults(outs[1..])
  }

  /** The worker has left, or holds a NULL result of a step before the last one. */
  predicate Leaving(w: Worker, nSteps: int) {
    w.step == nSteps || (w.step < nSteps - 1 && PhaseOf(w.pc) == Done && w.data == NULL)
  }

  function CountLeaving(w: seq<Worker>, nSteps: int): nat {
    if w == [] then 0 else CountLeaving(w[1..], nSteps) + if Leaving(w[0], nSteps) then 1 else 0
  }

  lemma {:induction false} LeavingSame(w: seq<Worker>, w': seq<Worker>, nSteps: int)
    requires |w'| == |w| && forall i :: 0 <= i < |w| ==> Leaving(w'[i], nSteps) == Leaving(w[i], nSteps)
    ensures CountLeaving(w', nSteps) == CountLeaving(w, nSteps)
  {
    if w != [] { LeavingSame(w[1..], w'[1..], nSteps); }
  }

  lemma {:induction false} LeavingUpdate(w: seq<Worker>, w': seq<Worker>, t: int, nSteps: int)
    requires |w'| == |w| && 0 <= t < |w|
    requires forall i :: 0 <= i < |w| && i != t ==> Leaving(w'[i], nSteps) == Leaving(w[i], nSteps)
    ensures CountLeaving(w', nSteps) == CountLeaving(w, nSteps)
              - (if Leaving(w[t], nSteps) then 1 else 0) + (if Leaving(w'[t], nSteps) then 1 else 0)
    decreases |w|
  {
    if t == 0 {
      LeavingSame(w[1..], w'[1..], nSteps);
    } else {
      LeavingUpdate(w[1..], w'[1..], t - 1, nSteps);
    }
  }

  lemma {:induction false} AllLeaving(w: seq<Worker>, nSteps: int)
    requires forall i :: 0 <= i < |w| ==> Leaving(w[i], nSteps)
    ensures CountLeaving(w, nSteps) == |w|
  {
    if w != [] { AllLeaving(w[1..], nSteps); }
  }

  lemma {:induction false} NoneLeaving(w: seq<Worker>, nSteps: int)
    requires forall i :: 0 <= i < |w| ==> !Leaving(w[i], nSteps)
    ensures CountLeaving(w, nSteps) == 0
  {
    if w != [] { NoneLeaving(w[1..], nSteps); }
  }

  /** One more result counts if it is NULL and not of the last step. */
  lemma {:induction false} NullResultsReturn(outs: seq<seq<Item>>, k: int, x: Item)
    requires 0 <= k < |outs|
    ensures NullResults(outs[k := outs[k] + [x]])
            == NullResults(outs) + if k < |outs| - 1 && x.ptr == NULL then 1 else 0
    decreases |outs|
  {
    var outs' := outs[k := outs[k] + [x]];
    if k == 0 {
      assert outs'[1..] == outs[1..];
      NonNullAppend(outs[0], x);
    } else {
      assert outs'[1..] == outs[1..][k - 1 := outs[1..][k - 1] + [x]];
      NullResultsReturn(outs[1..], k - 1, x);
    }
  }

  lemma {:induction false} NullResultsNone(outs: seq<seq<Item>>)
    requires forall k :: 0 <= k < |outs| ==> outs[k] == []
    ensures NullResults(outs) == 0
  {
    if |outs| > 1 { NullResultsNone(outs[1..]); }
  }

  /** Every NULL result of a step before the last one is one worker that leaves, and no other result is. */
  ghost predicate LeavesOnNull(s: State) {
    NullResults(s.outs) == CountLeaving(s.w, s.nSteps)
  }

  lemma LeavingStep(s: State, a: Action)
    requires WellFormed(s) && Allowed(s, a) && 2 <= s.nSteps
    ensures var s' := Step(s, a);
            && |s'.w| == |s.w| && s'.nSteps == s.nSteps
            && (forall i :: 0 <= i < |s.w| && i != a.t ==> Leaving(s'.w[i], s.nSteps) == Leaving(s.w[i], s.nSteps))
            && (if a.Go? && s.w[a.t].pc.Running? then
                  && !Leaving(s.w[a.t], s.nSteps)
                  && (Leaving(s'.w[a.t], s.nSteps) <==> s.w[a.t].step < s.nSteps - 1 && a.result == NULL)
                  && s'.outs == s.outs[s.w[a.t].step := s.outs[s.w[a.t].step] + [Item(s.w[a.t].index, a.result)]]
                else
                  s'.outs == s.outs && Leaving(s'.w[a.t], s.nSteps) == Leaving(s.w[a.t], s.nSteps))
  {
    var s' := Step(s, a);
    assert WorkerOk(s.w[a.t], s.nSteps, |s.w|);
    forall i | 0 <= i < |s.w| && i != a.t ensures SameView(s.w[i], s'.w[i]) {
    }
  }

  lemma LeavesStep(s: State, a: Action)
    requires WellFormed(s) && Allowed(s, a) && 2 <= s.nSteps && LeavesOnNull(s)
    ensures WellFormed(Step(s, a)) && Step(s, a).nSteps == s.nSteps && LeavesOnNull(Step(s, a))
  {
    WellFormedStep(s, a);
    LeavingStep(s, a);
    assert WorkerOk(s.w[a.t], s.nSteps, |s.w|);
    LeavingUpdate(s.w, Step(s, a).w, a.t, s.nSteps);
    if a.Go? && s.w[a.t].pc.Running? {
      NullResultsReturn(s.outs, s.w[a.t].step, Item(s.w[a.t].index, a.result));
    }
  }

  lemma {:induction false} LeavesRun(s: State, run: seq<Action>)
    requires Fits(s, run) && 2 <= s.nSteps && LeavesOnNull(s)
    ensures LeavesOnNull(After(s, run))
    decreases |run|
  {
    if run != [] {
      LeavesStep(s, run[0]);
      LeavesRun(Step(s, run[0]), run[1..]);
    }
  }

  lemma LeavesReachable(nThreads: int, nSteps: int, s: State)
    requires Reachable(nThreads, nSteps, s) && 2 <= nSteps
    ensures LeavesOnNull(s)
  {
    var s0 := Init(nThreads, nSteps);
    var run :| Fits(s0, run) && After(s0, run) == s;
    NullResultsNone(s0.outs);
    NoneLeaving(s0.w, nSteps);
    LeavesRun(s0, run);
  }

  /**
    With two or more steps a worker leaves on a NULL result of a step before the last one and on nothing
    else: once all have left, there were exactly as many such results as workers, whatever the last step returned.
   */
  lemma WorkersLeaveOnNull(nThreads: int, nSteps: int, s: State)
    requires Reachable(nThreads, nSteps, s) && 2 <= nSteps && AllExited(s)
    ensures NullResults(s.outs) == |s.w|
  {
    InvReachable(nThreads, nSteps, s);
    LeavesReachable(nThreads, nSteps, s);
    forall t | 0 <= t < |s.w| ensures Leaving(s.w[t], s.nSteps) {
      assert WorkerOk(s.w[t], s.nSteps, |s.w|);
    }
    AllLeaving(s.w, s.nSteps);
  }

  /** What enters the steps of `outs` either leaves the last one or ends in a NULL result before it. */
  lemma {:induction false} ItemsBalance(calls: seq<seq<Item>>, outs: seq<seq<Item>>)
    requires |calls| == |outs| && calls != []
    requires forall k :: 0 <= k < |calls| ==> |calls[k]| == |outs[k]|
    requires forall k :: 1 <= k < |calls| ==> calls[k] == NonNull(outs[k - 1])
    ensures |calls[0]| == |calls[|calls| - 1]| + NullResults(outs)
    decreases |calls|
  {
    if |calls| > 1 {
      assert calls[1..][|calls| - 2] == calls[|calls| - 1];
      forall k | 1 <= k < |calls| - 1 ensures calls[1..][k] == NonNull(outs[1..][k - 1]) {
        assert calls[k + 1] == NonNull(outs[k]);
      }
      ItemsBalance(calls[1..], outs[1..]);
    }
  }

  /**
    At the end every item that step 0 was called for has come through the last step, but for the one item
    per worker that ended in NULL before it: no input is left unread because of what the last step returned.
   */
  lemma ItemsComeThrough(nThreads: int, nSteps: int, s: State)
    requires Reachable(nThreads, nSteps, s) && 2 <= nSteps && AllExited(s)
    ensures |s.calls| == nSteps && |s.calls[0]| == |s.calls[nSteps - 1]| + |s.w|
  {
    InvReachable(nThreads, nSteps, s);
    WorkersLeaveOnNull(nThreads, nSteps, s);
    forall k | 0 <= k < nSteps ensures |s.calls[k]| == |s.outs[k]| {
      assert LogOk(s, k);
      assert forall t :: 0 <= t < |s.w| ==> !BusyAt(s.w[t], k);
    }
    forall k | 1 <= k < nSteps ensures s.calls[k] == NonNull(s.outs[k - 1]) {
      InputsArePrefixOfOutputs(nThreads, nSteps, s, k);
    }
    ItemsBalance(s.calls, s.outs);
  }

  // ---------------------------------------------------------------- a single step

  lemma {:induction false} SingleStepRun(s: State, run: seq<Action>)
    requires Fits(s, run) && s.nSteps == 1 && forall t :: 0 <= t < |s.w| ==> s.w[t].step == 0
    ensures |After(s, run).w| == |s.w| && forall t :: 0 <= t < |s.w| ==> After(s, run).w[t].step == 0
    ensures After(s, run).nSteps == 1
    decreases |run|
  {
    if run != [] { SingleStepRun(Step(s, run[0]), run[1..]); }
  }

  /**
    A pipeline of one step never stops: its only step is also the last one, so kthread.c:220 takes
    the worker back to step 0 even after a NULL result.  In every reachable state no worker has
    exited and some worker can move.
   */
  lemma SingleStepNeverStops(nThreads: int, s: State, t: int)
    requires Reachable(nThreads, 1, s) && 0 <= t < |s.w|
    ensures !s.w[t].pc.Exited?
    ensures exists u :: Enabled(s, u)
  {
    InvReachable(nThreads, 1, s);
    var run :| Fits(Init(nThreads, 1), run) && After(Init(nThreads, 1), run) == s;
    SingleStepRun(Init(nThreads, 1), run);
    assert WorkerOk(s.w[t], 1, |s.w|);
    NoDeadlock(nThreads, 1, s);
  }
}
