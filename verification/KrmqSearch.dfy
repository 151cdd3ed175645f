/**
  What is known on the way down a search path of a tree in memory.
  Source: liblinktool/klib/krmq.h, lines 81-108.
 */
module KrmqSearch {
  import opened KrmqHeap
  import opened KrmqTree

  /** The search for `k` has come down the path `c` to the subtree `t`. */
  ghost predicate Sought(m: Memory, tree: Tree, c: seq<Frame>, t: Tree, k: int) {
    Lies(m, c, t) && Plug(c, t) == tree && AllBelow(Pre(c), k) && AllAbove(Post(c), k)
  }

  /** The first `n` nodes, and no others, have keys up to `k`. */
  ghost predicate Rank(s: seq<Addr>, k: int, n: int) {
    && 0 <= n <= |s|
    && (forall i :: 0 <= i < n ==> s[i].key <= k)
    && (forall i :: n <= i < |s| ==> k < s[i].key)
  }

  lemma SoughtAll(m: Memory, tree: Tree, k: int)
    requires Heap(m, tree)
    ensures Sought(m, tree, [], tree, k)
    ensures Pre([]) == [] && Post([]) == []
  {
    LiesWhole(m, [], tree);
  }

  /** The node the search has reached, as it lies in memory. */
  lemma Here(m: Memory, tree: Tree, c: seq<Frame>, t: Tree, k: int)
    requires Sized(tree) && Sought(m, tree, c, t, k)
    ensures Heap(m, t)
    ensures t.Node? ==> t.a in m && m[t.a] == HeadOf(t) && Heap(m, t.l) && Heap(m, t.r) && Sz(t.l) == |Seq(t.l)|
  {
    SizedPlug(c, t);
    if t.Node? { SizeIsCount(t.l); }
  }

  lemma SortedAround(a: seq<Addr>, x: Addr, b: seq<Addr>)
    requires Sorted(a + [x] + b)
    ensures AllBelow(a, x.key) && AllAbove(b, x.key)
  {
    var s := a + [x] + b;
    assert s[|a|] == x;
    forall i | 0 <= i < |a| ensures a[i].key < x.key { assert s[i] == a[i]; }
    forall i | 0 <= i < |b| ensures x.key < b[i].key { assert s[|a| + 1 + i] == b[i]; }
  }

  lemma Regroup(p: seq<Addr>, l: seq<Addr>, a: Addr, r: seq<Addr>, q: seq<Addr>)
    ensures p + (l + [a] + r) + q == p + l + [a] + (r + q)
  {
  }

  /** What lies on either side of the root of the subtree reached. */
  lemma Sides(tree: Tree, c: seq<Frame>, t: Tree)
    requires Sorted(Seq(tree)) && Plug(c, t) == tree && t.Node?
    ensures Seq(tree) == Pre(c) + Seq(t.l) + [t.a] + (Seq(t.r) + Post(c))
    ensures AllBelow(Pre(c) + Seq(t.l), t.a.key) && AllAbove(Seq(t.r) + Post(c), t.a.key)
  {
    hide Seq, Plug, Pre, Post, Sorted, AllBelow, AllAbove;
    PlugSeq(c, t);
    InOrder(t, false);
    Regroup(Pre(c), Seq(t.l), t.a, Seq(t.r), Post(c));
    SortedAround(Pre(c) + Seq(t.l), t.a, Seq(t.r) + Post(c));
  }

  lemma AllBelowSplit(a: seq<Addr>, b: seq<Addr>, k: int)
    ensures AllBelow(a + b, k) <==> AllBelow(a, k) && AllBelow(b, k)
    ensures AllAbove(a + b, k) <==> AllAbove(a, k) && AllAbove(b, k)
  {
    if AllBelow(a + b, k) {
      forall i | 0 <= i < |a| ensures a[i].key < k { assert (a + b)[i] == a[i]; }
      forall i | 0 <= i < |b| ensures b[i].key < k { assert (a + b)[|a| + i] == b[i]; }
    }
    if AllAbove(a + b, k) {
      forall i | 0 <= i < |a| ensures k < a[i].key { assert (a + b)[i] == a[i]; }
      forall i | 0 <= i < |b| ensures k < b[i].key { assert (a + b)[|a| + i] == b[i]; }
    }
  }

  lemma PathEnds(c: seq<Frame>, f: Frame)
    ensures Pre(c + [f]) == Pre(c) + if f.right then Seq(f.sib) + [f.a] else []
    ensures Post(c + [f]) == (if f.right then [] else [f.a] + Seq(f.sib)) + Post(c)
  {
    assert Init(c + [f]) == c;
  }

  /** One step down, to the left. */
  lemma DownLeft(m: Memory, tree: Tree, c: seq<Frame>, t: Tree, k: int)
    requires Sorted(Seq(tree)) && Sought(m, tree, c, t, k) && t.Node? && k < t.a.key
    ensures Sought(m, tree, c + [FrameOf(t, false)], t.l, k)
    ensures Pre(c + [FrameOf(t, false)]) == Pre(c)
  {
    var f := FrameOf(t, false);
    hide Seq, Pre, Post, Plug, Lies, Sorted, AllBelow, AllAbove;
    LiesMore(m, c, f, t.l);
    PlugMore(c, f, t.l);
    PathEnds(c, f);
    Sides(tree, c, t);
    AllBelowSplit(Seq(t.r), Post(c), t.a.key);
    assert AllAbove([f.a], k) && AllAbove(Seq(t.r), k) by { AboveMore(Seq(t.r), t.a.key, k); OneKey(f.a, k); }
    AllBelowSplit([f.a], Seq(t.r), k);
    AllBelowSplit([f.a] + Seq(t.r), Post(c), k);
  }

  lemma OneKey(a: Addr, k: int)
    ensures a.key < k ==> AllBelow([a], k)
    ensures k < a.key ==> AllAbove([a], k)
  {
  }

  lemma AboveMore(s: seq<Addr>, k: int, k': int)
    requires AllAbove(s, k) && k' <= k
    ensures AllAbove(s, k')
  {
  }

  lemma BelowMore(s: seq<Addr>, k: int, k': int)
    requires AllBelow(s, k) && k <= k'
    ensures AllBelow(s, k')
  {
  }

  /** One step down, to the right. */
  lemma DownRight(m: Memory, tree: Tree, c: seq<Frame>, t: Tree, k: int)
    requires Sorted(Seq(tree)) && Sought(m, tree, c, t, k) && t.Node? && t.a.key < k
    ensures Sought(m, tree, c + [FrameOf(t, true)], t.r, k)
    ensures Pre(c + [FrameOf(t, true)]) == Pre(c) + Seq(t.l) + [t.a]
  {
    var f := FrameOf(t, true);
    hide Seq, Pre, Post, Plug, Lies, Sorted, AllBelow, AllAbove;
    LiesMore(m, c, f, t.r);
    PlugMore(c, f, t.r);
    PathEnds(c, f);
    Sides(tree, c, t);
    AllBelowSplit(Pre(c), Seq(t.l), t.a.key);
    assert AllBelow([f.a], k) && AllBelow(Seq(t.l), k) by { BelowMore(Seq(t.l), t.a.key, k); OneKey(f.a, k); }
    AllBelowSplit(Seq(t.l), [f.a], k);
    AllBelowSplit(Pre(c), Seq(t.l) + [f.a], k);
    assert Pre(c) + (Seq(t.l) + [t.a]) == Pre(c) + Seq(t.l) + [t.a];
    assert [] + Post(c) == Post(c);
  }

  /** The search ends at a node with the key. */
  lemma EndsFound(m: Memory, tree: Tree, c: seq<Frame>, t: Tree, k: int)
    requires Sorted(Seq(tree)) && Sought(m, tree, c, t, k) && t.Node? && t.a.key == k
    ensures var n := |Pre(c)| + |Seq(t.l)|; Rank(Seq(tree), k, n + 1) && Seq(tree)[n] == t.a && HasKey(Seq(tree), k)
  {
    hide Seq, Pre, Post, Plug, Lies, Sorted, HasKey, Rank;
    Sides(tree, c, t);
    RankAt(Pre(c) + Seq(t.l), t.a, Seq(t.r) + Post(c));
  }

  lemma RankAt(a: seq<Addr>, x: Addr, b: seq<Addr>)
    requires AllBelow(a, x.key) && AllAbove(b, x.key)
    ensures var s := a + [x] + b; Rank(s, x.key, |a| + 1) && s[|a|] == x && HasKey(s, x.key)
  {
    var s := a + [x] + b;
    assert s[|a|] == x;
    forall i | 0 <= i < |s| ensures (i <= |a| ==> s[i].key <= x.key) && (|a| < i ==> x.key < s[i].key) {
      if i > |a| { assert s[i] == b[i - |a| - 1]; } else if i < |a| { assert s[i] == a[i]; }
    }
  }

  /** The search ends between two nodes. */
  lemma EndsMissed(m: Memory, tree: Tree, c: seq<Frame>, k: int)
    requires Sought(m, tree, c, Nil, k)
    ensures Seq(tree) == Pre(c) + Post(c)
    ensures Rank(Seq(tree), k, |Pre(c)|) && !HasKey(Seq(tree), k)
  {
    PlugSeq(c, Nil);
    var s, n := Seq(tree), |Pre(c)|;
    forall i | 0 <= i < |s| ensures s[i].key != k && (i < n ==> s[i].key < k) && (n <= i ==> k < s[i].key) {
      if i < n { assert s[i] == Pre(c)[i]; } else { assert s[i] == Post(c)[i - n]; }
    }
  }

  /** The subtree reached keeps what holds of the whole tree. */
  lemma GoodBelow(tree: Tree, c: seq<Frame>, t: Tree)
    requires Sized(tree) && Balanced(tree) && Mins(tree) && Plug(c, t) == tree
    ensures Sized(t) && Balanced(t) && Mins(t)
    ensures SizesTo(c, Sz(t)) && HeightsTo(c, Ht(t)) && MinsTo(c, Foot(t))
    ensures |c| + Ht(t) <= Ht(tree)
  {
    SizedPlug(c, t);
    BalancedPlug(c, t);
    MinsPlug(c, t);
    PlugDeeper(c, t);
  }

  /** One step of the search, either way: what is read, where it leads, and how much is left to go. */
  lemma Down(m: Memory, tree: Tree, c: seq<Frame>, t: Tree, k: int)
    requires Good(tree) && Sought(m, tree, c, t, k) && t.Node?
    ensures t.a in m && m[t.a] == HeadOf(t) && Readable(m, Root(t.l)) && SizeAt(m, Root(t.l)) == |Seq(t.l)|
    ensures |c| + 1 <= |c| + Ht(t) <= Ht(tree)
    ensures t.a.key != k ==>
              var right := t.a.key < k; var c', t' := c + [FrameOf(t, right)], Kid(t, right);
              Sought(m, tree, c', t', k) && Ht(t') < Ht(t)
                  && |Pre(c')| == |Pre(c)| + if right then |Seq(t.l)| + 1 else 0
  {
    Here(m, tree, c, t, k);
    GoodBelow(tree, c, t);
    Shown(m, t.l);
    if t.a.key < k { DownRight(m, tree, c, t, k); }
    if k < t.a.key { DownLeft(m, tree, c, t, k); }
  }

  // ---------------------------------------------------------------- below a local node

  /** A frame above the whole tree, without another child. */
  lemma FakeAbove(m: Memory, f: Frame, tree: Tree)
    requires Lies(m, [f], tree)
    ensures Heap(m, tree) && f.a in m && m[f.a] == FrameHead(f, Root(tree)) && f.a !in Foot(tree)
  {
    FrameAt(m, [f], Root(tree), 0);
  }

  lemma SoughtBelow(m: Memory, tree: Tree, f: Frame, c: seq<Frame>, t: Tree, k: int)
    requires Lies(m, [f], tree) && Sought(m, tree, c, t, k)
    ensures Lies(m, [f] + c, t)
  {
    LiesPlug(m, [f], c, t);
  }

  /** One step to the left on the way to the first node. */
  lemma LeftMore(m: Memory, f: Frame, c: seq<Frame>, t: Tree)
    requires Lies(m, [f] + c, t) && t.Node? && Pre(c) == []
    ensures t.a in m && m[t.a] == HeadOf(t)
    ensures var g := FrameOf(t, false);
            && Lies(m, [f] + (c + [g]), t.l) && Plug(c + [g], t.l) == Plug(c, t) && Pre(c + [g]) == []
              && [f] + c + [g] == [f] + (c + [g])
    ensures Ht(t.l) < Ht(t)
  {
    var g := FrameOf(t, false);
    LiesMore(m, [f] + c, g, t.l);
    assert [f] + c + [g] == [f] + (c + [g]);
    PlugMore(c, g, t.l);
    PathEnds(c, g);
  }

  /** The local node, written outside the tree. */
  lemma FakeLies(m: Memory, f: Frame, tree: Tree)
    requires Heap(m, tree) && f.a !in m && !f.right && f.sib.Nil?
    ensures Lies(m[f.a := FrameHead(f, Root(tree))], [f], tree)
  {
    var m' := m[f.a := FrameHead(f, Root(tree))];
    FootInMemory(m, tree);
    HeapKept(m, m', tree);
    assert Along(m', [], Root(Fill(f, tree)));
    assert [] + [f] == [f];
    assert Heap(m', Nil);
    hide Along, Lies;
    FillLies(m', f, tree);
    LiesMore(m', [], f, tree);
  }

  lemma FillLies(m: Memory, f: Frame, tree: Tree)
    requires f.a in m && m[f.a] == FrameHead(f, Root(tree)) && f.a !in Foot(tree) && f.sib.Nil? && !f.right
        && Heap(m, tree)
    ensures Lies(m, [], Fill(f, tree))
  {
  }

  lemma EmptySeq(t: Tree)
    ensures t.Nil? <==> Seq(t) == []
  {
  }

  /** The nodes next to the end of a path. */
  ghost function Prev(c: seq<Frame>): Ptr { if Pre(c) == [] then Null else Pre(c)[|Pre(c)| - 1] }
  ghost function Next(c: seq<Frame>): Ptr { if Post(c) == [] then Null else Post(c)[0] }

  lemma NextTo(c: seq<Frame>, f: Frame)
    ensures Prev(c + [f]) == if f.right then f.a else Prev(c)
    ensures Next(c + [f]) == if f.right then Next(c) else f.a
  {
    hide Pre, Post, Seq;
    PathEnds(c, f);
  }
}
