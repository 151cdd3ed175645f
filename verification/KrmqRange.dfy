/**
  Range minima: two search paths, the node where they part, and the subtrees between them.
  Source: liblinktool/klib/krmq.h, lines 110-150.
 */
module KrmqRange {
  import opened KrmqHeap
  import opened KrmqSearch
  import opened KrmqTree

  function Cmp(k: int, k': int): int {
    if k < k' then -1 else if k > k' then 1 else 0
  }

  /** The subtrees whose roots a search for `k` visits. */
  ghost function Trail(t: Tree, k: int): seq<Tree> {
    if t.Nil? then []
    else [t] + if k < t.a.key then Trail(t.l, k) else if k > t.a.key then Trail(t.r, k) else []
  }

  /** The node is within the closed interval. */
  predicate Within(q: Addr, lo: int, up: int) { lo <= q.key <= up }

  lemma SortedSides(t: Tree)
    requires Sorted(Seq(t)) && t.Node?
    ensures Sorted(Seq(t.l)) && Sorted(Seq(t.r))
    ensures forall b :: b in Foot(t.l) ==> b.key < t.a.key
    ensures forall b :: b in Foot(t.r) ==> t.a.key < b.key
  {
    InOrder(t, false);
    hide Seq, Foot, Sorted;
    SortedAround(Seq(t.l), t.a, Seq(t.r));
    SortedPieces(Seq(t.l), t.a, Seq(t.r));
    FootIsSeq(t.l);
    FootIsSeq(t.r);
  }

  lemma SortedPieces(l: seq<Addr>, a: Addr, r: seq<Addr>)
    requires Sorted(l + [a] + r)
    ensures Sorted(l) && Sorted(r)
  {
    var s := l + [a] + r;
    forall i, j | 0 <= i < j < |l| ensures l[i].key < l[j].key { assert s[i] == l[i] && s[j] == l[j]; }
    forall i, j | 0 <= i < j < |r| ensures r[i].key < r[j].key {
      assert s[|l| + 1 + i] == r[i] && s[|l| + 1 + j] == r[j];
    }
  }

  /** The two paths visit the same node at position `i`, and it is within the interval. */
  ghost predicate Meet(a: seq<Tree>, b: seq<Tree>, lo: int, up: int, i: int) {
    0 <= i < |a| && i < |b| && a[i].Node? && b[i].Node? && a[i].a == b[i].a && lo <= a[i].a.key && b[i].a.key <= up
  }

  /** As long as they have not met within the interval, all its nodes are in the subtree both paths have reached. */
  lemma {:induction false} NotYetMet(t: Tree, lo: int, up: int, j: nat, q: Addr)
    requires Sorted(Seq(t)) && q in Foot(t) && Within(q, lo, up)
    requires j <= |Trail(t, lo)| && j <= |Trail(t, up)|
    requires forall i :: 0 <= i < j ==> !Meet(Trail(t, lo), Trail(t, up), lo, up, i)
    ensures j < |Trail(t, lo)| && j < |Trail(t, up)| && Trail(t, lo)[j] == Trail(t, up)[j] && q in Foot(Trail(t, lo)[j])
  {
    if j > 0 {
      SortedSides(t);
      assert !Meet(Trail(t, lo), Trail(t, up), lo, up, 0);
      var u := if t.a.key < lo then t.r else t.l;
      assert Trail(t, lo) == [t] + Trail(u, lo) && Trail(t, up) == [t] + Trail(u, up);
      forall i | 0 <= i < j - 1 ensures !Meet(Trail(u, lo), Trail(u, up), lo, up, i) {
        assert !Meet(Trail(t, lo), Trail(t, up), lo, up, i + 1);
      }
      NotYetMet(u, lo, up, j - 1, q);
    }
  }

  /** A subtree on a path keeps what holds of the whole tree. */
  lemma {:induction false} OnTrail(m: Memory, t: Tree, k: int, i: nat)
    requires Heap(m, t) && Mins(t) && Sorted(Seq(t)) && i < |Trail(t, k)|
    ensures var u := Trail(t, k)[i];
            && u.Node? && Heap(m, u) && Mins(u) && Sorted(Seq(u)) && Foot(u) <= Foot(t)
            && Trail(t, k)[i..] == Trail(u, k)
  {
    if i > 0 {
      SortedSides(t);
      var u := if k < t.a.key then t.l else t.r;
      assert Trail(t, k)[i..] == Trail(u, k)[i - 1..];
      OnTrail(m, u, k, i - 1);
    }
  }

  // ---------------------------------------------------------------- one side of the interval

  /** On the side of `k` that counts: at least `k` if `d`, else at most. */
  predicate Counts(q: Addr, k: int, d: bool) {
    if d then k <= q.key else q.key <= k
  }

  /** What a sweep has found so far: nothing that counts outside `v` is below `min`. */
  ghost predicate Swept(u: Tree, v: Tree, k: int, d: bool, min0: Addr, min: Addr) {
    && (min == min0 || (min in Foot(u) && Counts(min, k, d))) && min.w <= min0.w
    && (forall b :: b in Foot(u) && Counts(b, k, d) ==> min.w <= b.w || b in Foot(v))
  }

  /** The smaller of two nodes. */
  function Less2(q: Addr, min: Addr): Addr { if q.w < min.w then q else min }

  /** One step of a sweep: a node that counts is looked at, and the least node of its subtree on that side. */
  lemma SweepStep(u: Tree, v: Tree, k: int, d: bool, min0: Addr, min: Addr)
    requires v.Node? && Sorted(Seq(v)) && Mins(v) && Foot(v) <= Foot(u) && Swept(u, v, k, d, min0, min)
    ensures Kid(v, d).Node? ==> Kid(v, d).s.Ref?
    ensures var v' := if k < v.a.key then v.l else if k > v.a.key then v.r else Nil;
            var min1 := if Counts(v.a, k, d) then Less2(v.a, min) else min;
            var min2 := if Counts(v.a, k, d) && Kid(v, d).Node? then Less2(Kid(v, d).s, min1) else min1;
            Foot(v') <= Foot(u) && Sorted(Seq(v')) && Swept(u, v', k, d, min0, min2)
  {
    SortedSides(v);
    MinsParts(v, d);
    var w := Kid(v, d);
    assert w.Node? ==> IsMin(w.s, Foot(w));
    assert Foot(w) <= Foot(v) && v.a in Foot(v);
  }

  // ---------------------------------------------------------------- the recorded paths

  ghost predicate Recorded(path: seq<Addr>, pcmp: seq<int>, ts: seq<Tree>, k: int) {
    && |ts| <= |path| && |ts| <= |pcmp|
    && forall i :: 0 <= i < |ts| ==> ts[i].Node? && path[i] == ts[i].a && pcmp[i] == Cmp(k, ts[i].a.key)
  }

  lemma RecordedMore(path: seq<Addr>, pcmp: seq<int>, ts: seq<Tree>, k: int, t: Tree)
    requires Recorded(path, pcmp, ts, k) && |ts| < |path| && |ts| < |pcmp| && t.Node?
    ensures Recorded(path[|ts| := t.a], pcmp[|ts| := Cmp(k, t.a.key)], ts + [t], k)
  {
  }

  /** The least node of the interval, given the node where the paths meet and both sweeps. */
  lemma RangeMinimum(tree: Tree, u: Tree, lo: int, up: int, min1: Addr, min2: Addr)
    requires u.Node? && Sorted(Seq(u)) && Foot(u) <= Foot(tree) && Within(u.a, lo, up)
    requires forall q :: q in Foot(tree) && Within(q, lo, up) ==> q in Foot(u)
    requires Swept(if lo < u.a.key then u.l else Nil, Nil, lo, true, u.a, min1)
    requires Swept(if u.a.key < up then u.r else Nil, Nil, up, false, min1, min2)
    ensures min2 in Foot(tree) && Within(min2, lo, up)
    ensures forall q :: q in Foot(tree) && Within(q, lo, up) ==> min2.w <= q.w
  {
    SortedSides(u);
    assert Foot(u) == {u.a} + Foot(u.l) + Foot(u.r) && Foot(Nil) == {};
  }

  lemma RecordedNone(path: seq<Addr>, pcmp: seq<int>, k: int)
    ensures Recorded(path, pcmp, [], k)
  {
  }

  lemma TrailNil(ts: seq<Tree>, t: Tree, k: int)
    ensures t.Nil? ==> ts + Trail(t, k) == ts
  {
  }

  lemma TrailStep(ts: seq<Tree>, t: Tree, k: int, all: seq<Tree>)
    requires t.Node? && ts + Trail(t, k) == all
    ensures var u := if k < t.a.key then t.l else if k > t.a.key then t.r else Nil; ts + [t] + Trail(u, k) == all
  {
  }

  /** Until the paths meet within the interval, all of it is below the node both have reached. */
  lemma NoneYet(t: Tree, lo: int, up: int, j: nat)
    requires Sorted(Seq(t)) && j <= |Trail(t, lo)| && j <= |Trail(t, up)|
    requires forall i :: 0 <= i < j ==> !Meet(Trail(t, lo), Trail(t, up), lo, up, i)
    ensures forall q :: q in Foot(t) && Within(q, lo, up) ==>
              j < |Trail(t, lo)| && j < |Trail(t, up)| && Trail(t, lo)[j] == Trail(t, up)[j]
                  && q in Foot(Trail(t, lo)[j])
  {
    forall q | q in Foot(t) && Within(q, lo, up)
      ensures j < |Trail(t, lo)| && j < |Trail(t, up)| && Trail(t, lo)[j] == Trail(t, up)[j]
          && q in Foot(Trail(t, lo)[j])
    {
      NotYetMet(t, lo, up, j, q);
    }
  }

  /** Where they meet, the rest of each path lies on its own side. */
  lemma Met(m: Memory, t: Tree, lo: int, up: int, j: nat)
    requires Heap(m, t) && Mins(t) && Sorted(Seq(t)) && Meet(Trail(t, lo), Trail(t, up), lo, up, j)
    requires forall q :: q in Foot(t) && Within(q, lo, up) ==> Trail(t, lo)[j] == Trail(t, up)[j]
    ensures var a, b := Trail(t, lo), Trail(t, up); var u := a[j];
            && u.Node? && Foot(u) <= Foot(t) && Sorted(Seq(u)) && Within(u.a, lo, up)
            && var x, y := if lo < u.a.key then u.l else Nil, if u.a.key < up then u.r else Nil;
            && Sorted(Seq(x)) && Sorted(Seq(y)) && Heap(m, x) && Heap(m, y) && Mins(x) && Mins(y)
            && a[j + 1..] == Trail(x, lo) && b[j + 1..] == Trail(y, up)
  {
    OnTrail(m, t, lo, j);
    RootInFoot(Trail(t, lo)[j]);
    TrailFrom(t, lo, j);
    TrailFrom(t, up, j);
    var a, b := Trail(t, lo), Trail(t, up);
    SortedSides(a[j]);
    assert a[j + 1..] == a[j..][1..] && b[j + 1..] == b[j..][1..];
  }

  lemma {:induction false} TrailFrom(t: Tree, k: int, j: nat)
    requires Sorted(Seq(t)) && j < |Trail(t, k)|
    ensures var u := Trail(t, k)[j]; Trail(t, k)[j..] == Trail(u, k) && Sorted(Seq(u)) && Foot(u) <= Foot(t)
  {
    if j > 0 {
      SortedSides(t);
      var u := if k < t.a.key then t.l else t.r;
      assert Trail(t, k)[j..] == Trail(u, k)[j - 1..];
      TrailFrom(u, k, j - 1);
    }
  }

  lemma RecordedAt(path: seq<Addr>, pcmp: seq<int>, ts: seq<Tree>, k: int, i: int)
    requires Recorded(path, pcmp, ts, k) && 0 <= i < |ts|
    ensures i < |path| && i < |pcmp| && ts[i].Node? && path[i] == ts[i].a && pcmp[i] == Cmp(k, ts[i].a.key)
  {
  }

  lemma SweptNone(u: Tree, k: int, d: bool, min0: Addr)
    ensures Swept(u, u, k, d, min0, min0)
  {
  }

  lemma TrailHead(ts: seq<Tree>, i: nat, v: Tree, k: int)
    requires i < |ts| && ts[i..] == Trail(v, k)
    ensures v.Node? && ts[i] == v && ts[i + 1..] ==
        Trail(if k < v.a.key then v.l else if k > v.a.key then v.r else Nil, k)
  {
    assert ts[i + 1..] == ts[i..][1..];
  }

  lemma TrailEnds(ts: seq<Tree>, i: nat, v: Tree, k: int)
    requires i == |ts| && ts[i..] == Trail(v, k)
    ensures v == Nil
  {
  }
}
