/**
  What the passes over a search path amount to: a new leaf, a node taken out, and the heights,
  sizes, minima and order of the tree around the path.
  Source: liblinktool/klib/krmq.h, lines 194-327.
 */
module KrmqPath {
  import opened KrmqTree

  // ---------------------------------------------------------------- order

  ghost predicate SamePlaces(c: seq<Frame>, c': seq<Frame>) {
    |c'| == |c| && forall i :: 0 <= i < |c| ==> c'[i].a == c[i].a && c'[i].right == c[i].right && c'[i].sib == c[i].sib
  }

  lemma {:induction false} OrderKept(c: seq<Frame>, c': seq<Frame>)
    requires SamePlaces(c, c')
    ensures Pre(c') == Pre(c) && Post(c') == Post(c)
    decreases |c|
  {
    if c != [] { OrderKept(Init(c), Init(c')); }
  }

  lemma SortedWith(a: seq<Addr>, x: Addr, b: seq<Addr>)
    requires Sorted(a + b) && AllBelow(a, x.key) && AllAbove(b, x.key)
    ensures Sorted(a + [x] + b)
  {
    var s := a + [x] + b;
    forall i, j | 0 <= i < j < |s| ensures s[i].key < s[j].key {
      if i < |a| {
        assert a[i] == (a + b)[i];
        if j > |a| { assert b[j - |a| - 1] == (a + b)[j - 1]; } else if j < |a| { assert a[j] == (a + b)[j]; }
      } else if i > |a| {
        assert b[i - |a| - 1] == (a + b)[i - 1] && b[j - |a| - 1] == (a + b)[j - 1];
      }
    }
  }

  // ---------------------------------------------------------------- a new leaf

  function Leaf(x: Addr): Tree { Node(x, x, 0, 1, Nil, Nil) }

  /** From position `b` on, every frame leans one more to the side of the path. */
  ghost predicate Tilted(c: seq<Frame>, c': seq<Frame>, b: int) {
    |c'| == |c| && forall i :: 0 <= i < |c| ==>
      c'[i].right == c[i].right && c'[i].sib == c[i].sib && c'[i].balance == c[i].balance + Tilt(c, b, i)
  }

  function Tilt(c: seq<Frame>, b: int, i: int): int
    requires 0 <= i < |c|
  {
    if i < b then 0 else if c[i].right then 1 else -1
  }

  ghost predicate Level(c: seq<Frame>, b: int) {
    forall i :: 0 <= i < |c| && b < i ==> c[i].balance == 0
  }

  /** Below the last leaning node everything grows by one level. */
  lemma {:induction false} Grown(c: seq<Frame>, c': seq<Frame>, x: Addr)
    requires Balanced(Plug(c, Nil)) && Level(c, -1) && Tilted(c, c', 0)
    ensures var u := Plug(c', Leaf(x));
            Balanced(u) && Ht(u) == Ht(Plug(c, Nil)) + 1 && (c != [] ==> u.Node? && (u.balance == 1 || u.balance == -1))
    decreases |c|
  {
    if c != [] {
      PlugFirst(c, Nil);
      PlugFirst(c', Leaf(x));
      BalancedParts(Plug(c, Nil), c[0].right);
      Grown(c[1..], c'[1..], x);
      BalancedParts(Plug(c', Leaf(x)), c[0].right);
    }
  }

  lemma GrownBelow(c: seq<Frame>, c': seq<Frame>, b: int, x: Addr)
    requires 0 <= b < |c| && Level(c, b) && Tilted(c, c', b) && Balanced(Plug(c[b + 1..], Nil))
    ensures var u := Plug(c'[b + 1..], Leaf(x));
            && Balanced(u) && u.Node? && Ht(u) == Ht(Plug(c[b + 1..], Nil)) + 1
            && (u.balance == 1 || u.balance == -1 || Ht(u) == 1)
  {
    var d, d' := c[b + 1..], c'[b + 1..];
    forall i | 0 <= i < |d| ensures d[i].balance == 0 && d'[i].balance == Tilt(d, 0, i)
        && d'[i].right == d[i].right && d'[i].sib == d[i].sib {
      assert d[i] == c[b + 1 + i] && d'[i] == c'[b + 1 + i];
    }
    Grown(d, d', x);
  }

  ghost predicate RaisedTo(u: Tree, was: int, h: nat) {
    && u.Node? && u.balance == Ht(u.r) - Ht(u.l) && -2 <= u.balance <= 2 && Balanced(u.l) && Balanced(u.r)
    && (-2 < u.balance < 2 && was != 0 ==> Ht(u) == h)
    && (u.balance == -2 || u.balance == 2 ==>
          var d := u.balance < 0; var q := Kid(u, !d);
          q.Node? && (q.balance == 1 || q.balance == -1) && h == Ht(Kid(u, d)) + 2)
  }

  lemma RaisedNode(f: Frame, f': Frame, v: Tree, v': Tree)
    requires Balanced(Fill(f, v)) && Balanced(v') && v'.Node? && Ht(v') == Ht(v) + 1
    requires v'.balance == 1 || v'.balance == -1 || Ht(v') == 1
    requires f'.right == f.right && f'.sib == f.sib && f'.balance == f.balance + if f.right then 1 else -1
    ensures RaisedTo(Fill(f', v'), f.balance, Ht(Fill(f, v)))
  {
    BalancedParts(Fill(f, v), f.right);
  }

  /** At the last leaning node the height is restored, or it leans by 2 with a heavy child that leans too. */
  lemma Raised(c: seq<Frame>, c': seq<Frame>, b: int, x: Addr)
    requires Balanced(Plug(c, Nil)) && 0 <= b < |c| && Level(c, b) && Tilted(c, c', b)
    ensures var u, h := Plug(c'[b..], Leaf(x)), Ht(Plug(c[b..], Nil));
            HeightsTo(c'[..b], h) && RaisedTo(u, c[b].balance, h) && u.balance == c'[b].balance
  {
    hide Plug, Balanced, RaisedTo;
    PlugAt(c, b, Nil);
    PlugAt(c', b, Leaf(x));
    BalancedPlug(c[..b], Plug(c[b..], Nil));
    HeightsKept(c[..b], c'[..b], Ht(Plug(c[b..], Nil)));
    BalancedParts(Plug(c[b..], Nil), c[b].right);
    GrownBelow(c, c', b, x);
    RaisedNode(c[b], c'[b], Plug(c[b + 1..], Nil), Plug(c'[b + 1..], Leaf(x)));
  }

  // ---------------------------------------------------------------- the tree around a path

  /** Another subtree at the end of a path, as high, as large and with the same nodes. */
  lemma Reshaped(c: seq<Frame>, t: Tree, t': Tree, h: nat)
    requires Sized(Plug(c, t)) && Mins(Plug(c, t)) && HeightsTo(c, h)
    requires Sized(t') && Mins(t') && Balanced(t') && Sz(t') == Sz(t) && Foot(t') == Foot(t) && (c == [] || Ht(t') == h)
    ensures Sized(Plug(c, t')) && Mins(Plug(c, t')) && Balanced(Plug(c, t'))
  {
    SizedPlug(c, t);
    SizedPlug(c, t');
    MinsPlug(c, t);
    MinsPlug(c, t');
    BalancedPlug(c, t');
  }

  /** The least node of a frame, recomputed from what is below. */
  function NewMin(f: Frame, u: Tree): Ptr {
    var v := Fill(f, u);
    MinOf(f.a, Sp(v.l), Sp(v.r))
  }

  lemma NewMinIsMin(f: Frame, u: Tree)
    requires Mins(u) && Mins(f.sib)
    ensures Mins(Fill(f.(s := NewMin(f, u)), u))
    ensures Foot(Fill(f, u)) == {f.a} + Foot(f.sib) + Foot(u)
  {
    var v := Fill(f, u);
    MinOfIsMin(f.a, v.l, v.r);
  }

  lemma MinsOnly(c: seq<Frame>, c': seq<Frame>, t: Tree)
    requires SameMins(c, c') && Mins(Plug(c, t))
    ensures Mins(Plug(c', t))
  {
    MinsPlug(c, t);
    MinsKept(c, c', Foot(t));
    MinsPlug(c', t);
  }

  lemma SizesOnly(c: seq<Frame>, c': seq<Frame>, t: Tree, t': Tree, k: int)
    requires Resized(c, c', k) && Sized(Plug(c, t)) && Sized(t') && Sz(t') == Sz(t) + k
    ensures Sized(Plug(c', t'))
  {
    SizedPlug(c, t);
    SizesMoved(c, c', Sz(t), k);
    SizedPlug(c', t');
  }

  /** From position `i` on the least nodes are right again, and up to there the new leaf `x` is the least. */
  ghost predicate LeastSoFar(c: seq<Frame>, c': seq<Frame>, x: Addr, i: int) {
    0 <= i <= |c| == |c'| &&
    var u := Plug(c'[i..], Leaf(x));
    Mins(u) && u.Node? && u.s == x && Foot(u) == Foot(Plug(c[i..], Nil)) + {x}
  }

  lemma LeastAtLeaf(c: seq<Frame>, x: Addr)
    ensures LeastSoFar(c, c, x, |c|)
  {
    assert c[|c|..] == [];
    assert Foot(Leaf(x)) == {x} && Foot(Nil) == {};
  }

  lemma LeastIsMins(c: seq<Frame>, c': seq<Frame>, x: Addr)
    requires LeastSoFar(c, c', x, 0)
    ensures Mins(Plug(c', Leaf(x)))
  {
    assert c'[0..] == c';
  }

  lemma LeastHere(f: Frame, u: Tree, u': Tree, x: Addr)
    requires Mins(Fill(f, u)) && Mins(u') && u'.Node? && u'.s == x && Foot(u') == Foot(u) + {x}
    ensures Mins(Fill(f, u').l) && Mins(Fill(f, u').r)
    ensures var f' := f.(s := NewMin(f, u'));
            && Mins(Fill(f', u')) && Foot(Fill(f', u')) == Foot(Fill(f, u)) + {x}
            && (f'.s != x ==> f'.s in Foot(Fill(f, u)) && f'.s.w <= x.w)
  {
    var f' := f.(s := NewMin(f, u'));
    var v := Fill(f', u');
    hide Mins, Foot;
    MinsParts(Fill(f, u), f.right);
    NewMinIsMin(f, u');
    MinsParts(v, f.right);
    assert f'.s in Foot(v) && x in Foot(v);
  }

  /** One step up: either `x` is the least node here too, or nothing changes further up. */
  lemma LeastStep(c: seq<Frame>, c': seq<Frame>, x: Addr, i: int)
    requires 0 <= i < |c| && Mins(Plug(c, Nil)) && LeastSoFar(c, c', x, i + 1) && c'[..i] == c[..i] && c'[i] == c[i]
    ensures var u := Plug(c'[i + 1..], Leaf(x)); Mins(Fill(c[i], u).l) && Mins(Fill(c[i], u).r)
    ensures var f := c'[i].(s := NewMin(c'[i], Plug(c'[i + 1..], Leaf(x)))); var c'' := c'[i := f];
            if f.s == x then LeastSoFar(c, c'', x, i) else Mins(Plug(c'', Leaf(x)))
  {
    var u := Plug(c'[i + 1..], Leaf(x));
    var f := c'[i].(s := NewMin(c'[i], u));
    var c'' := c'[i := f];
    var v0 := Plug(c[i..], Nil);
    assert c''[i + 1..] == c'[i + 1..] && c''[..i] == c[..i];
    hide Plug, Mins, Foot, NewMin;
    PlugAt(c, i, Nil);
    PlugAt(c'', i, Leaf(x));
    MinsPlug(c[..i], v0);
    LeastHere(c[i], Plug(c[i + 1..], Nil), u, x);
    if f.s != x {
      MinsStillMin(c[..i], Foot(v0), x, f.s);
      MinsPlug(c[..i], Fill(f, u));
    }
  }

  /** The subtree at a node that leans by 2, as the rotations expect it. */
  lemma RaisedLeans(c: seq<Frame>, u: Tree, was: int, h: nat)
    requires Sized(Plug(c, u)) && Mins(Plug(c, u)) && RaisedTo(u, was, h) && (u.balance == -2 || u.balance == 2)
    ensures Leans(u, u.balance < 0)
  {
    SizedPlug(c, u);
    MinsPlug(c, u);
  }

  lemma RaisedBalanced(c: seq<Frame>, u: Tree, was: int, h: nat)
    requires HeightsTo(c, h) && RaisedTo(u, was, h) && -2 < u.balance < 2 && (was == 0 ==> c == [])
    ensures Balanced(Plug(c, u))
  {
    BalancedPlug(c, u);
  }

  /** A rotated subtree in place of the one that leaned. */
  lemma Rotated(c: seq<Frame>, u: Tree, u': Tree, h: nat)
    requires Sized(Plug(c, u)) && Mins(Plug(c, u)) && HeightsTo(c, h)
    requires Sized(u') && Mins(u') && Balanced(u') && Sz(u') == Sz(u) && Seq(u') == Seq(u) && (c == [] || Ht(u') == h)
    ensures Sized(Plug(c, u')) && Mins(Plug(c, u')) && Balanced(Plug(c, u')) && Seq(Plug(c, u')) == Seq(Plug(c, u))
    ensures Foot(u') == Foot(u)
  {
    SameFoot(u, u');
    Reshaped(c, u, u', h);
    PlugSeq(c, u);
    PlugSeq(c, u');
  }

  /** The rotation that an insertion does at a node leaning by 2 away from side `d`. */
  ghost function Turned(u: Tree, d: bool): Tree {
    if u.Nil? || Kid(u, !d).Nil? then u
    else if Kid(u, !d).balance == (if d then -1 else 1) then Rotated1(u, d, 0, 0)
    else if Kid(Kid(u, !d), d).Nil? then u
    else Rotated2(u, d)
  }

  lemma TurnedGood(u: Tree, d: bool, was: int, h: nat)
    requires Leans(u, d) && RaisedTo(u, was, h)
    ensures var q := Kid(u, !d);
            q.Node? && (q.balance == (if d then -1 else 1) || Kid(q, d).Node?)
    ensures var u' := Turned(u, d);
            Sized(u') && Mins(u') && Balanced(u') && Sz(u') == Sz(u) && Seq(u') == Seq(u) && Ht(u') == h
  {
    HeavyChild(u, d);
    if Kid(u, !d).balance == (if d then -1 else 1) {
      RotatedGood1(u, d, 0, 0);
      RotatedOrder1(u, d, 0, 0);
    } else {
      RotatedGood2(u, d);
      RotatedOrder2(u, d);
    }
  }

  ghost predicate Sizes1(c: seq<Frame>, c': seq<Frame>) {
    |c'| == |c| && forall j :: 0 <= j < |c| ==> c'[j] == c[j].(size := c[j].size + 1)
  }

  ghost predicate NewMins(c: seq<Frame>, c': seq<Frame>) {
    |c'| == |c| && forall j :: 0 <= j < |c| ==> c'[j] == c[j].(s := c'[j].s)
  }

  ghost predicate NewBalances(c: seq<Frame>, c': seq<Frame>, b: int) {
    |c'| == |c| && forall j :: 0 <= j < |c| ==> c'[j] == c[j].(balance := c[j].balance + Tilt(c, b, j))
  }

  lemma MinsAfterSizes(c: seq<Frame>, c1: seq<Frame>)
    requires Mins(Plug(c, Nil)) && Sizes1(c, c1)
    ensures Mins(Plug(c1, Nil))
  {
    MinsOnly(c, c1, Nil);
  }

  /** The three passes of an insertion: all is well but the leaning node. */
  lemma InsertPasses(c: seq<Frame>, c1: seq<Frame>, c2: seq<Frame>, c3: seq<Frame>, b: int, x: Addr)
    requires Sized(Plug(c, Nil)) && Balanced(Plug(c, Nil)) && 0 <= b < |c| && Level(c, b)
    requires Sizes1(c, c1) && NewMins(c1, c2) && NewBalances(c2, c3, b) && Mins(Plug(c2, Leaf(x)))
    ensures Sized(Plug(c3, Leaf(x))) && Mins(Plug(c3, Leaf(x)))
    ensures var u, h := Plug(c3[b..], Leaf(x)), Ht(Plug(c[b..], Nil));
            HeightsTo(c3[..b], h) && RaisedTo(u, c[b].balance, h) && u.Node? && u.a == c[b].a
                && Plug(c3, Leaf(x)) == Plug(c3[..b], u)
    ensures Seq(Plug(c3, Leaf(x))) == Pre(c) + [x] + Post(c)
  {
    hide Plug, Sized, Balanced, Mins, Level, RaisedTo, Seq, Pre, Post;
    LeafSeq(x);
    SizesOnly(c, c3, Nil, Leaf(x), 1);
    MinsOnly(c2, c3, Leaf(x));
    Raised(c, c3, b, x);
    PlugAt(c3, b, Leaf(x));
    OrderKept(c, c3);
    PlugSeq(c3, Leaf(x));
  }

  lemma LeafSeq(x: Addr)
    ensures Seq(Leaf(x)) == [x] && Foot(Leaf(x)) == {x} && Sized(Leaf(x)) && Mins(Leaf(x)) && Balanced(Leaf(x))
  {
  }
}
