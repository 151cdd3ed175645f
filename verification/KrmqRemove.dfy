/**
  What taking a node out of a tree leaves, and how balance is restored on the way up.
  Source: liblinktool/klib/krmq.h, lines 270-324.
 */
module KrmqRemove {
  import opened KrmqHeap
  import opened KrmqPath
  import opened KrmqSearch
  import opened KrmqTree

  // ---------------------------------------------------------------- taking a node out

  ghost predicate AllLeft(c: seq<Frame>) {
    forall i :: 0 <= i < |c| ==> !c[i].right
  }

  /** The frame in which the successor `r` stands for the removed node `p`. */
  function Successor(p: Tree, r: Tree): Frame
    requires p.Node? && r.Node?
  {
    Frame(r.a, r.s, p.balance, p.size - 1, true, p.l)
  }

  /** The same places and balances, one node fewer below each. */
  ghost predicate OneLess(c: seq<Frame>, c': seq<Frame>) {
    Resized(c, c', -1) && SameBalances(c, c')
  }

  /** The hole left: a tree with one child less, so the path's balances are as if it were one higher. */
  lemma HoleLeft(c: seq<Frame>, c': seq<Frame>, h: Tree, t: Tree)
    requires Sized(Plug(c, h)) && Balanced(Plug(c, h)) && OneLess(c, c')
    requires h.Node? && ((h.r.Nil? && t == h.l) || (h.l.Nil? && t == h.r))
    ensures SizesTo(c', Sz(t)) && Sized(t) && HeightsTo(c', Ht(t) + 1) && Balanced(t)
  {
    SizedPlug(c, h);
    BalancedPlug(c, h);
    SizesMoved(c, c', Sz(h), -1);
    HeightsKept(c, c', Ht(h));
  }

  lemma {:induction false} LeftOrder(c: seq<Frame>)
    requires AllLeft(c)
    ensures Pre(c) == []
    decreases |c|
  {
    if c != [] { LeftOrder(Init(c)); }
  }

  lemma {:induction false} EndsAppend(c: seq<Frame>, d: seq<Frame>)
    ensures Pre(c + d) == Pre(c) + Pre(d) && Post(c + d) == Post(d) + Post(c)
    decreases |d|
  {
    if d == [] {
      assert c + d == c;
    } else {
      assert c + d == c + Init(d) + [Last(d)] && d == Init(d) + [Last(d)];
      var f := Last(d);
      var x, y := if f.right then Seq(f.sib) + [f.a] else [], if f.right then [] else [f.a] + Seq(f.sib);
      hide Pre, Post, Seq;
      EndsAppend(c, Init(d));
      PathEnds(c + Init(d), f);
      PathEnds(Init(d), f);
      Regroup3(Pre(c), Pre(Init(d)), x);
      Regroup3(y, Post(Init(d)), Post(c));
    }
  }

  lemma Regroup3(a: seq<Addr>, b: seq<Addr>, c: seq<Addr>)
    ensures a + b + c == a + (b + c)
  {
  }

  ghost predicate Around(s: seq<Addr>, a: seq<Addr>, l: seq<Addr>, x: seq<Addr>, b: seq<Addr>) {
    s == a + l + x + b
  }

  ghost predicate Dropped(was: seq<Addr>, n: int, x: Addr, now: seq<Addr>) {
    0 <= n < |was| && was[n] == x && now == was[..n] + was[n + 1..]
  }

  /** A node without a right child is replaced by its left child. */
  lemma WithoutNode(c: seq<Frame>, c': seq<Frame>, p: Tree)
    requires p.Node? && p.r.Nil? && SamePlaces(c, c')
    ensures Around(Seq(Plug(c, p)), Pre(c), Seq(p.l), [p.a], Post(c))
    ensures Around(Seq(Plug(c', p.l)), Pre(c), Seq(p.l), [], Post(c))
  {
    PlugSeq(c, p);
    PlugSeq(c', p.l);
    OrderKept(c, c');
  }

  /** The nodes from the successor on. */
  ghost function FromSuccessor(c: seq<Frame>, d: seq<Frame>, r: Tree): seq<Addr>
    requires r.Node?
  {
    [r.a] + Seq(r.r) + Post(d) + Post(c)
  }

  /** Any other node is replaced by its successor, the leftmost node `r` on its right. */
  lemma BeforeSuccessor(c: seq<Frame>, p: Tree, d: seq<Frame>, r: Tree)
    requires p.Node? && r.Node? && r.l.Nil? && p.r == Plug(d, r) && AllLeft(d)
    ensures Around(Seq(Plug(c, p)), Pre(c), Seq(p.l), [p.a], FromSuccessor(c, d, r))
  {
    hide Seq, Plug, Pre, Post, AllLeft;
    PlugSeq(c, p);
    InOrder(p, false);
    PlugSeq(d, r);
    LeftOrder(d);
    InOrder(r, false);
    NoNodes();
    SuccessorFirst(Pre(c), Seq(p.l), p.a, r.a, Seq(r.r), Post(d), Post(c));
  }

  lemma WithSuccessor(c: seq<Frame>, p: Tree, d: seq<Frame>, r: Tree, c': seq<Frame>, d': seq<Frame>, f: Frame)
    requires p.Node? && r.Node? && AllLeft(d) && SamePlaces(c, c') && SamePlaces(d, d') && f.a == r.a && f.right
        && f.sib == p.l
    ensures Around(Seq(Plug(c' + [f] + d', r.r)), Pre(c), Seq(p.l), [], FromSuccessor(c, d, r))
  {
    hide Seq, Plug, Pre, Post, AllLeft, SamePlaces;
    LeftOrder(d);
    PlugSeq(c' + [f] + d', r.r);
    EndsAppend(c' + [f], d');
    PathEnds(c', f);
    OrderKept(c, c');
    OrderKept(d, d');
    SuccessorMoved(Pre(c), Seq(p.l), r.a, Seq(r.r), Post(d), Post(c));
  }

  lemma SuccessorFirst(b: seq<Addr>, l: seq<Addr>, p: Addr, r: Addr, s: seq<Addr>, q: seq<Addr>, e: seq<Addr>)
    ensures b + (l + [p] + ([] + ([] + [r] + s) + q)) + e == b + l + [p] + ([r] + s + q + e)
  {
  }

  lemma SuccessorMoved(b: seq<Addr>, l: seq<Addr>, r: Addr, s: seq<Addr>, q: seq<Addr>, e: seq<Addr>)
    ensures (b + (l + [r]) + []) + s + (q + ([] + e)) == b + l + ([r] + s + q + e)
  {
  }

  lemma NoNodes()
    ensures Seq(Nil) == []
  {
  }

  /** The path to the successor: the removed node's frame, then left all the way. */
  lemma SuccessorPath(c: seq<Frame>, p: Tree, d: seq<Frame>, r: Tree, c': seq<Frame>, d': seq<Frame>)
    requires p.Node? && r.Node? && p.r == Plug(d, r) && OneLess(c, c') && OneLess(d, d')
    ensures Plug(c + [FrameOf(p, true)] + d, r) == Plug(c, p)
    ensures OneLess(c + [FrameOf(p, true)] + d, c' + [Successor(p, r)] + d')
  {
    PlugAppend(c + [FrameOf(p, true)], d, r);
    PlugMore(c, FrameOf(p, true), Plug(d, r));
    assert OneLess([FrameOf(p, true)], [Successor(p, r)]);
    OneLessAppend(c, c', [FrameOf(p, true)], [Successor(p, r)]);
    OneLessAppend(c + [FrameOf(p, true)], c' + [Successor(p, r)], d, d');
  }

  lemma OneLessAppend(c: seq<Frame>, c': seq<Frame>, d: seq<Frame>, d': seq<Frame>)
    requires OneLess(c, c') && OneLess(d, d')
    ensures OneLess(c + d, c' + d')
  {
  }

  ghost predicate SidesMins(c: seq<Frame>) {
    forall i :: 0 <= i < |c| ==> Mins(c[i].sib)
  }

  lemma {:induction false} MinsSides(c: seq<Frame>, f: set<Addr>)
    requires MinsTo(c, f)
    ensures SidesMins(c)
    decreases |c|
  {
    if c != [] { MinsSides(Init(c), f + {Last(c).a} + Foot(Last(c).sib)); }
  }

  ghost predicate Well(t: Tree) {
    Sized(t) && Balanced(t) && Mins(t)
  }

  /** Sizes are right along a path to `h`, heights are one less than expected. */
  ghost predicate Short(c: seq<Frame>, h: Tree) {
    SizesTo(c, Sz(h)) && HeightsTo(c, Ht(h) + 1) && Well(h) && SidesMins(c)
  }

  /** The tree without its `n`th node `x`, before the way up. */
  ghost predicate Detached(was: seq<Addr>, n: int, x: Addr, c: seq<Frame>, h: Tree) {
    Short(c, h) && Dropped(was, n, x, Seq(Plug(c, h)))
  }

  lemma WellParts(c: seq<Frame>, t: Tree)
    requires Well(Plug(c, t))
    ensures Well(t) && SidesMins(c)
    ensures t.Node? ==> Mins(t.l) && Mins(t.r)
  {
    SizedPlug(c, t);
    BalancedPlug(c, t);
    MinsPlug(c, t);
    MinsSides(c, Foot(t));
  }

  lemma OneOut(a: seq<Addr>, x: Addr, b: seq<Addr>)
    ensures var s := a + [x] + b; s[|a|] == x && s[..|a|] + s[|a| + 1..] == a + b
  {
    var s := a + [x] + b;
    assert s[..|a|] == a && s[|a| + 1..] == b;
  }

  lemma DetachedAlone(c: seq<Frame>, c': seq<Frame>, t: Tree)
    requires Well(Plug(c, t)) && t.Node? && t.r.Nil? && OneLess(c, c') && SamePlaces(c, c')
    ensures Detached(Seq(Plug(c, t)), |Pre(c)| + |Seq(t.l)|, t.a, c', t.l)
  {
    hide Seq, Plug, Pre, Post, Short, Well, OneLess, SamePlaces, Around, Dropped;
    AloneShape(c, c', t);
    WithoutNode(c, c', t);
    OutOf(Seq(Plug(c, t)), Seq(Plug(c', t.l)), Pre(c), Seq(t.l), t.a, Post(c));
  }

  lemma AloneShape(c: seq<Frame>, c': seq<Frame>, t: Tree)
    requires Well(Plug(c, t)) && t.Node? && t.r.Nil? && OneLess(c, c')
    ensures Short(c', t.l)
  {
    hide Plug, SizesTo, HeightsTo, SidesMins, OneLess, Sized, Balanced, Mins, Ht;
    WellParts(c, t);
    HoleLeft(c, c', t, t.l);
    SidesSuccessor(c, c');
  }

  lemma DetachedWithSuccessor(c: seq<Frame>, c': seq<Frame>, t: Tree, s: seq<Frame>, u: Tree, s': seq<Frame>)
    requires Well(Plug(c, t)) && t.Node? && u.Node? && u.l.Nil? && t.r == Plug(s, u) && AllLeft(s)
    requires OneLess(c, c') && SamePlaces(c, c') && OneLess(s, s') && SamePlaces(s, s')
    ensures Detached(Seq(Plug(c, t)), |Pre(c)| + |Seq(t.l)|, t.a, c' + [Successor(t, u)] + s', u.r)
  {
    hide Seq, Plug, Pre, Post, Short, Well, OneLess, SamePlaces, FromSuccessor, Around, Dropped, AllLeft;
    SuccessorShape(c, c', t, s, u, s');
    BeforeSuccessor(c, t, s, u);
    WithSuccessor(c, t, s, u, c', s', Successor(t, u));
    OutOf(Seq(Plug(c, t)), Seq(Plug(c' + [Successor(t, u)] + s', u.r)), Pre(c), Seq(t.l), t.a, FromSuccessor(c, s, u));
  }

  lemma OutOf(was: seq<Addr>, now: seq<Addr>, a: seq<Addr>, l: seq<Addr>, x: Addr, b: seq<Addr>)
    requires Around(was, a, l, [x], b) && Around(now, a, l, [], b)
    ensures Dropped(was, |a| + |l|, x, now)
  {
    OneOut(a + l, x, b);
    assert a + l + [] == a + l;
  }

  lemma SuccessorShape(c: seq<Frame>, c': seq<Frame>, t: Tree, s: seq<Frame>, u: Tree, s': seq<Frame>)
    requires Well(Plug(c, t)) && t.Node? && u.Node? && u.l.Nil? && t.r == Plug(s, u)
    requires OneLess(c, c') && OneLess(s, s')
    ensures Short(c' + [Successor(t, u)] + s', u.r)
  {
    hide Plug, SizesTo, HeightsTo, SidesMins, OneLess, Sized, Balanced, Mins, Ht;
    var w, d := c + [FrameOf(t, true)] + s, c' + [Successor(t, u)] + s';
    SuccessorPath(c, t, s, u, c', s');
    WellParts(w, u);
    HoleLeft(w, d, u, u.r);
    SidesSuccessor(w, d);
  }

  lemma SidesSuccessor(w: seq<Frame>, d: seq<Frame>)
    requires SidesMins(w) && OneLess(w, d)
    ensures SidesMins(d)
  {
    forall i | 0 <= i < |d| ensures Mins(d[i].sib) { assert Mins(w[i].sib); }
  }

  // ---------------------------------------------------------------- the least nodes of the whole path

  /** One step up of the pass that recomputes all least nodes. */
  lemma MinsStepUp(c: seq<Frame>, t: Tree, i: int)
    requires 0 <= i < |c| && SidesMins(c) && Mins(Plug(c[i + 1..], t))
    ensures var u := Plug(c[i + 1..], t); Mins(Fill(c[i], u).l) && Mins(Fill(c[i], u).r)
    ensures var c' := c[i := c[i].(s := NewMin(c[i], Plug(c[i + 1..], t)))];
            Mins(Plug(c'[i..], t)) && SidesMins(c')
  {
    var u := Plug(c[i + 1..], t);
    var c' := c[i := c[i].(s := NewMin(c[i], u))];
    assert c'[i + 1..] == c[i + 1..];
    PlugAt(c', i, t);
    assert Mins(c[i].sib);
    NewMinIsMin(c[i], u);
  }

  lemma NewMinsStep(c: seq<Frame>, c': seq<Frame>, i: int, s: Ptr)
    requires NewMins(c, c') && 0 <= i < |c|
    ensures NewMins(c, c'[i := c'[i].(s := s)]) && c'[i].a == c[i].a
  {
  }

  // ---------------------------------------------------------------- the way up

  /** A node one of whose sides has become one lower, its balance corrected. */
  function Lowered(f: Frame, t: Tree): Tree {
    Fill(f.(balance := f.balance + if f.right then -1 else 1), t)
  }

  /** What the removal makes of such a node. */
  ghost function Settled(v: Tree, d: bool): Tree {
    var b1 := if d then -1 else 1;
    if v.Nil? || v.balance != 2 * b1 || Kid(v, !d).Nil? then v
    else if Kid(v, !d).balance == b1 then Rotated1(v, d, 0, 0)
    else if Kid(v, !d).balance == 0 then Rotated1(v, d, b1, -b1)
    else if Kid(Kid(v, !d), d).Nil? then v
    else Rotated2(v, d)
  }

  /** Whether the height is what it was before the removal, so that nothing further up changes. */
  ghost predicate SameHeight(v: Tree, d: bool) {
    var b1 := if d then -1 else 1;
    v.Node? && (v.balance == b1 || (v.balance == 2 * b1 && Kid(v, !d).Node? && Kid(v, !d).balance == 0))
  }

  lemma LoweredParts(f: Frame, t: Tree, h: nat)
    requires Balanced(t) && Balanced(f.sib) && -1 <= f.balance <= 1 && h == Ht(t) + 1
    requires f.balance == (if f.right then h - Ht(f.sib) else Ht(f.sib) - h)
    ensures var v, b1 := Lowered(f, t), if f.right then -1 else 1;
            && v.Node? && Kid(v, f.right) == t && Kid(v, !f.right) == f.sib
            && v.balance == Ht(v.r) - Ht(v.l) && (v.balance == 0 || v.balance == b1 || v.balance == 2 * b1)
            && (v.balance == 0 ==> Ht(v) == Max(h, Ht(f.sib)))
            && (v.balance == b1 ==> Ht(v) == 1 + Max(h, Ht(f.sib)))
            && (v.balance == 2 * b1 ==> Ht(f.sib) == Ht(t) + 2)
  {
  }

  /** A node that leans by 2 is rotated; only if the heavy child was even does the height stay. */
  lemma SettledLeaning(v: Tree, d: bool)
    requires Leans(v, d)
    ensures var q, u := Kid(v, !d), Settled(v, d);
            && q.Node? && (q.balance == (if d then 1 else -1) ==> Kid(q, d).Node?)
            && Sized(u) && Mins(u) && Balanced(u) && Sz(u) == Sz(v) && Seq(u) == Seq(v)
            && Ht(u) == Ht(Kid(v, d)) + if q.balance == 0 then 3 else 2
  {
    HeavyChild(v, d);
    BalancedParts(v, d);
    BalancedParts(Kid(v, !d), d);
    var q, b1 := Kid(v, !d), if d then -1 else 1;
    if q.balance == -b1 {
      RotatedGood2(v, d);
      RotatedOrder2(v, d);
    } else {
      var x := if q.balance == b1 then 0 else b1;
      RotatedGood1(v, d, x, -x);
      RotatedOrder1(v, d, x, -x);
    }
  }

  lemma LoweredLeans(f: Frame, t: Tree)
    requires Balanced(t) && Balanced(f.sib) && Sized(Lowered(f, t)) && Mins(Lowered(f, t))
    requires var v := Lowered(f, t); v.balance == Ht(v.r) - Ht(v.l) && v.balance == if f.right then -2 else 2
    ensures Leans(Lowered(f, t), f.right)
  {
  }

  lemma LoweredBalanced(f: Frame, t: Tree)
    requires Balanced(t) && Balanced(f.sib)
    requires var v := Lowered(f, t); v.balance == Ht(v.r) - Ht(v.l) && -1 <= v.balance <= 1
    ensures Balanced(Lowered(f, t))
  {
  }

  lemma HeightsEnd(c: seq<Frame>, f: Frame, h: int)
    requires HeightsTo(c + [f], h)
    ensures f.balance == (if f.right then h - Ht(f.sib) else Ht(f.sib) - h) && -1 <= f.balance <= 1
    ensures Balanced(f.sib) && HeightsTo(c, 1 + Max(h, Ht(f.sib)))
  {
    assert Init(c + [f]) == c && Last(c + [f]) == f;
  }

  /** The cases of the way up, with the height the path above expects. */
  lemma LoweredCases(c: seq<Frame>, f: Frame, t: Tree)
    requires HeightsTo(c + [f], Ht(t) + 1) && Balanced(t) && Sized(Lowered(f, t)) && Mins(Lowered(f, t))
    ensures var v, b1 := Lowered(f, t), if f.right then -1 else 1;
            && v.Node? && Kid(v, f.right) == t
            && (v.balance == 0 || v.balance == b1 || v.balance == 2 * b1)
            && (if v.balance == 2 * b1 then Leans(v, f.right) && HeightsTo(c, Ht(t) + 3)
                else Balanced(v) && HeightsTo(c, if v.balance == 0 then Ht(v) + 1 else Ht(v)))
  {
    hide Ht, Balanced, Sized, Mins, Seq, HeightsTo;
    var v, b1 := Lowered(f, t), if f.right then -1 else 1;
    HeightsEnd(c, f, Ht(t) + 1);
    LoweredParts(f, t, Ht(t) + 1);
    if v.balance == 2 * b1 {
      LoweredLeans(f, t);
    } else {
      LoweredBalanced(f, t);
    }
  }

  /**
    One step of the way up: the subtree is well again, and so is the path above, at the height expected or
    one less.
   */
  lemma SettledGood(c: seq<Frame>, f: Frame, t: Tree)
    requires HeightsTo(c + [f], Ht(t) + 1) && Balanced(t) && Sized(Lowered(f, t)) && Mins(Lowered(f, t))
    ensures var v := Lowered(f, t); var u := Settled(v, f.right);
            && Sized(u) && Mins(u) && Balanced(u) && Sz(u) == Sz(v) && Seq(u) == Seq(v)
            && HeightsTo(c, if SameHeight(v, f.right) then Ht(u) else Ht(u) + 1)
  {
    hide Ht, Balanced, Sized, Mins, Seq, HeightsTo, Lowered, Leans;
    LoweredCases(c, f, t);
    var v := Lowered(f, t);
    if v.balance == (if f.right then -2 else 2) { SettledLeaning(v, f.right); }
  }

  /** Writing the balance of the last frame. */
  lemma LoweredLies(m: Memory, c: seq<Frame>, g: Frame, u: Tree)
    requires Lies(m, c + [g], u)
    ensures var m' := m[g.a := m[g.a].(balance := m[g.a].balance + if g.right then -1 else 1)];
            && g.a in m && m[g.a].balance == g.balance
            && Lies(m', c, Lowered(g, u))
            && g.a in Foot(Lowered(g, u)) && PathFoot(c + [g]) + Foot(u) == PathFoot(c) + Foot(Lowered(g, u))
  {
    var g' := g.(balance := g.balance + if g.right then -1 else 1);
    var m' := m[g.a := m[g.a].(balance := m[g.a].balance + if g.right then -1 else 1)];
    SetFrame(m, c + [g], u, |c|, g');
    assert (c + [g])[|c| := g'] == c + [g'];
    LiesMore(m', c, g', u);
    LiesMore(m, c, g, u);
    assert Foot(Lowered(g, u)) == FrameFoot(g) + Foot(u);
  }

  /** On the way up: sizes and least nodes are right everywhere, heights are one less than expected along `c`. */
  ghost predicate Climbing(s: seq<Addr>, c: seq<Frame>, u: Tree) {
    Sized(Plug(c, u)) && Mins(Plug(c, u)) && Balanced(u) && HeightsTo(c, Ht(u) + 1) && Seq(Plug(c, u)) == s
  }

  lemma ClimbStart(c: seq<Frame>, c': seq<Frame>, h: Tree)
    requires Short(c, h) && NewMins(c, c') && Mins(Plug(c', h))
    ensures Climbing(Seq(Plug(c, h)), c', h)
  {
    assert Resized(c, c', 0) && SameBalances(c, c') && SamePlaces(c, c');
    SizesMoved(c, c', Sz(h), 0);
    SizedPlug(c', h);
    HeightsKept(c, c', Ht(h) + 1);
    OrderKept(c, c');
    PlugSeq(c, h);
    PlugSeq(c', h);
  }

  lemma ClimbEnd(s: seq<Addr>, u: Tree)
    requires Climbing(s, [], u)
    ensures Well(u) && Seq(u) == s
  {
  }

  /** The node above, its balance corrected. */
  lemma ClimbHere(s: seq<Addr>, c: seq<Frame>, g: Frame, u: Tree)
    requires Climbing(s, c + [g], u)
    ensures var v := Lowered(g, u);
            Sized(v) && Mins(v) && Sized(Plug(c, v)) && Mins(Plug(c, v)) && Seq(Plug(c, v)) == s
  {
    var v, w := Lowered(g, u), Fill(g, u);
    PlugMore(c, g, u);
    SizedPlug(c, w);
    SizedPlug(c, v);
    MinsPlug(c, w);
    MinsPlug(c, v);
    PlugSeq(c, w);
    PlugSeq(c, v);
    SameNode(g, u);
  }

  lemma SameNode(g: Frame, u: Tree)
    ensures var v, w := Lowered(g, u), Fill(g, u);
            Foot(v) == Foot(w) && Seq(v) == Seq(w) && Sz(v) == Sz(w) && (Sized(v) <==> Sized(w))
                && (Mins(v) <==> Mins(w))
  {
  }

  /** One step up: either the height is restored and all is well, or the climb goes on. */
  lemma ClimbStep(s: seq<Addr>, c: seq<Frame>, g: Frame, u: Tree)
    requires Climbing(s, c + [g], u)
    ensures var v, b1 := Lowered(g, u), if g.right then -1 else 1;
            Mins(v) && (v.balance == 0 || v.balance == b1 || v.balance == 2 * b1)
                && (v.balance == 2 * b1 ==> Leans(v, g.right))
    ensures var v := Lowered(g, u); var u' := Settled(v, g.right);
            && Seq(u') == Seq(v)
            && if SameHeight(v, g.right) then Well(Plug(c, u')) && Seq(Plug(c, u')) == s else Climbing(s, c, u')
  {
    var v := Lowered(g, u);
    var u' := Settled(v, g.right);
    hide Seq, Plug, Sized, Mins, Balanced, HeightsTo, Ht, Foot, Leans, Settled, SameHeight, Lowered;
    ClimbHere(s, c, g, u);
    LoweredCases(c, g, u);
    SettledGood(c, g, u);
    SameFoot(v, u');
    PlugSeq(c, v);
    PlugSeq(c, u');
    SizedPlug(c, v);
    SizedPlug(c, u');
    MinsPlug(c, v);
    MinsPlug(c, u');
    BalancedPlug(c, u');
  }

  /** The nodes below a path before and after a step up. */
  lemma LoweredFoot(m: Memory, c: seq<Frame>, g: Frame, u: Tree)
    requires Lies(m, c + [g], u)
    requires Seq(Settled(Lowered(g, u), g.right)) == Seq(Lowered(g, u))
    ensures PathFoot(c) + Foot(Settled(Lowered(g, u), g.right)) == PathFoot(c + [g]) + Foot(u)
  {
    LoweredLies(m, c, g, u);
    SameFoot(Lowered(g, u), Settled(Lowered(g, u), g.right));
  }

  // ---------------------------------------------------------------- below the local node

  lemma FootBelow(f: Frame, c: seq<Frame>, t: Tree)
    ensures PathFoot([f] + c) + Foot(t) == FrameFoot(f) + Foot(Plug(c, t))
  {
    PlugFoot([f] + c, t);
    PlugFirst([f] + c, t);
    assert ([f] + c)[1..] == c;
    MinsParts(Fill(f, Plug(c, t)), f.right);
  }

  lemma DroppedFoot(a: Tree, n: int, x: Addr, b: Tree)
    requires Dropped(Seq(a), n, x, Seq(b))
    ensures Foot(b) <= Foot(a)
  {
    FootIsSeq(a);
    FootIsSeq(b);
  }

  lemma ShortMins(f: Frame, c: seq<Frame>, h: Tree)
    requires Short(c, h) && f.sib.Nil?
    ensures SidesMins([f] + c) && Mins(h)
  {
    assert forall i :: 0 <= i < |c| ==> ([f] + c)[i + 1] == c[i];
  }

  /** The pass over all least nodes, the local node's included, prepares the way up. */
  lemma MinsBelow(f: Frame, c: seq<Frame>, e: seq<Frame>, h: Tree)
    requires Short(c, h) && NewMins([f] + c, e) && Mins(Plug(e, h))
    ensures |e| == |c| + 1 && e == [e[0]] + e[1..] && e[0] == f.(s := e[0].s) && Climbing(Seq(Plug(c, h)), e[1..], h)
  {
    FirstBelow(f, c, e);
    hide Mins, Plug, Short, Climbing, Foot, NewMins;
    PlugFirst(e, h);
    MinsParts(Fill(e[0], Plug(e[1..], h)), e[0].right);
    ClimbStart(c, e[1..], h);
  }

  lemma FirstBelow(f: Frame, c: seq<Frame>, e: seq<Frame>)
    requires NewMins([f] + c, e)
    ensures |e| == |c| + 1 && e == [e[0]] + e[1..] && e[0] == f.(s := e[0].s) && NewMins(c, e[1..])
  {
    forall j | 0 <= j < |c| ensures e[1..][j] == c[j].(s := e[1..][j].s) {
      assert e[1..][j] == e[j + 1] && ([f] + c)[j + 1] == c[j];
    }
  }

  lemma DroppedNodes(s: seq<Addr>, n: int, x: Addr, s': seq<Addr>)
    requires Dropped(s, n, x, s') && Sorted(s)
    ensures 0 <= n < |s| && s[n] == x && s' == s[..n] + s[n + 1..] && Sorted(s') && |s'| < |s|
    ensures n == 0 ==> s' == s[1..]
  {
    forall i, j | 0 <= i < j < |s'| ensures s'[i].key < s'[j].key {
      var i', j' := if i < n then i else i + 1, if j < n then j else j + 1;
      assert s'[i] == s[i'] && s'[j] == s[j'];
    }
  }

  /** After a removal the local node goes: the tree does not reach it, and nothing else was written. */
  lemma FakeGone(was: Memory, m: Memory, fake: Addr, h: Head, tree: Tree, u: Tree, n: int, x: Addr)
    requires Heap(was, tree) && fake !in was && Only(was[fake := h], m, {fake} + Foot(tree))
    requires Heap(m, u) && fake !in Foot(u) && Dropped(Seq(tree), n, x, Seq(u))
    ensures Heap(m - {fake}, u) && (m - {fake}).Keys == was.Keys
    ensures forall a :: a in was && a !in Seq(tree) ==> (m - {fake})[a] == was[a]
  {
    FootIsSeq(tree);
    HeapKept(m, m - {fake}, u);
  }
}
