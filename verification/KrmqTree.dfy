/**
  AVL trees that also know a least element of every subtree: the trees themselves, paths into them,
  and what inserting, removing and rotating do to order, heights, sizes and minima.
  Source: liblinktool/klib/krmq.h, lines 69-79, 152-192; liblinktool/klib/kavl.h has the same trees
  without minima.
 */
module KrmqTree {

  /**
    A pointer to a node, together with what the user's part of the node holds and the library only
    reads: the key compared by `__cmp` and the weight compared by `__lt2`.
   */
  datatype Ptr = Null | Ref(id: int, key: int, w: int)
  type Addr = p: Ptr | p.Ref? witness Ref(0, 0, 0)

  /** A tree with the fields its nodes store: a least node `s`, the balance, and the size. */
  datatype Tree = Nil | Node(a: Addr, s: Ptr, balance: int, size: int, l: Tree, r: Tree)

  function Root(t: Tree): Ptr { if t.Nil? then Null else t.a }
  function Sz(t: Tree): int { if t.Nil? then 0 else t.size }
  function Sp(t: Tree): Ptr { if t.Nil? then Null else t.s }

  function Kid(t: Tree, right: bool): Tree
    requires t.Node?
  {
    if right then t.r else t.l
  }

  /** The node with `kd` on side `d` and `ko` on the other. */
  function Make(a: Addr, s: Ptr, balance: int, size: int, d: bool, kd: Tree, ko: Tree): Tree {
    if d then Node(a, s, balance, size, ko, kd) else Node(a, s, balance, size, kd, ko)
  }

  function Max(a: int, b: int): int { if a < b then b else a }

  ghost function Ht(t: Tree): nat {
    if t.Nil? then 0 else 1 + Max(Ht(t.l), Ht(t.r))
  }

  /** The nodes in order. */
  ghost function Seq(t: Tree): seq<Addr> {
    if t.Nil? then [] else Seq(t.l) + [t.a] + Seq(t.r)
  }

  ghost function Foot(t: Tree): set<Addr> {
    if t.Nil? then {} else {t.a} + Foot(t.l) + Foot(t.r)
  }

  ghost predicate Sorted(s: seq<Addr>) {
    forall i, j :: 0 <= i < j < |s| ==> s[i].key < s[j].key
  }

  ghost predicate AllBelow(s: seq<Addr>, k: int) {
    forall i :: 0 <= i < |s| ==> s[i].key < k
  }

  ghost predicate AllAbove(s: seq<Addr>, k: int) {
    forall i :: 0 <= i < |s| ==> k < s[i].key
  }

  ghost predicate HasKey(s: seq<Addr>, k: int) {
    exists i :: 0 <= i < |s| && s[i].key == k
  }

  ghost predicate IsMin(s: Ptr, f: set<Addr>) {
    s in f && forall b :: b in f ==> s.w <= b.w
  }

  ghost predicate Sized(t: Tree) {
    t.Node? ==> t.size == 1 + Sz(t.l) + Sz(t.r) && Sized(t.l) && Sized(t.r)
  }

  ghost predicate Balanced(t: Tree) {
    t.Node? ==> t.balance == Ht(t.r) - Ht(t.l) && -1 <= t.balance <= 1 && Balanced(t.l) && Balanced(t.r)
  }

  ghost predicate Mins(t: Tree) {
    t.Node? ==> IsMin(t.s, Foot(t)) && Mins(t.l) && Mins(t.r)
  }

  /** What every operation keeps: order, balance, sizes and minima. */
  ghost predicate Good(t: Tree) {
    Sorted(Seq(t)) && Sized(t) && Balanced(t) && Mins(t)
  }

  lemma {:induction false} FootIsSeq(t: Tree)
    ensures forall p :: p in Foot(t) <==> p in Seq(t)
  {
    if t.Node? {
      FootIsSeq(t.l);
      FootIsSeq(t.r);
    }
  }

  lemma {:induction false} SizeIsCount(t: Tree)
    requires Sized(t)
    ensures Sz(t) == |Seq(t)|
  {
    if t.Node? {
      SizeIsCount(t.l);
      SizeIsCount(t.r);
    }
  }

  // ---------------------------------------------------------------- a node and its sides

  lemma InOrder(t: Tree, d: bool)
    requires t.Node?
    ensures Seq(t) == if d then Seq(Kid(t, !d)) + [t.a] + Seq(Kid(t, d)) else Seq(Kid(t, d)) + [t.a] + Seq(Kid(t, !d))
  {
  }

  lemma SizedParts(t: Tree, d: bool)
    requires t.Node?
    ensures var x, y := Kid(t, d), Kid(t, !d);
            Sized(t) <==> t.size == 1 + Sz(x) + Sz(y) && Sized(x) && Sized(y)
  {
  }

  lemma MinsParts(t: Tree, d: bool)
    requires t.Node?
    ensures var x, y := Kid(t, d), Kid(t, !d);
            && Foot(t) == {t.a} + Foot(x) + Foot(y)
            && (Mins(t) <==> IsMin(t.s, {t.a} + Foot(x) + Foot(y)) && Mins(x) && Mins(y))
  {
    assert Foot(t) == {t.a} + Foot(t.l) + Foot(t.r) == {t.a} + Foot(t.r) + Foot(t.l);
  }

  lemma BalancedParts(t: Tree, d: bool)
    requires t.Node?
    ensures var x, y := Kid(t, d), Kid(t, !d);
            && Ht(t) == 1 + Max(Ht(x), Ht(y))
            && (Balanced(t) <==> t.balance == (if d then Ht(x) - Ht(y) else Ht(y) - Ht(x)) && -1 <= t.balance <= 1
                                 && Balanced(x) && Balanced(y))
  {
  }

  // ---------------------------------------------------------------- depth

  /** The least number of nodes of a balanced tree of height `h`. */
  function Fewest(h: nat): nat {
    if h < 2 then h else 1 + Fewest(h - 1) + Fewest(h - 2)
  }

  lemma {:induction false} FewestGrows(h: nat, g: nat)
    requires h <= g
    ensures Fewest(h) <= Fewest(g)
    decreases g - h
  {
    if h < g { FewestGrows(h + 1, g); }
  }

  lemma {:induction false} CountAtLeast(t: Tree)
    requires Balanced(t)
    ensures Fewest(Ht(t)) <= |Seq(t)|
  {
    if t.Node? {
      CountAtLeast(t.l);
      CountAtLeast(t.r);
      var h := Ht(t);
      if h >= 2 { FewestGrows(h - 2, Ht(t.l)); FewestGrows(h - 2, Ht(t.r)); }
    }
  }

  /** A balanced tree whose size fits the 32-bit field is at most 45 levels deep. */
  lemma DepthBound(t: Tree)
    requires Balanced(t) && |Seq(t)| < 0x1_0000_0000
    ensures Ht(t) <= 45
  {
    CountAtLeast(t);
    if Ht(t) > 45 {
      FewestGrows(46, Ht(t));
      FewestTable();
    }
  }

  lemma FewestTable()
    ensures Fewest(46) == 4807526975
  {
    assert Fewest(10) == 143;
    assert Fewest(11) == 232;
    assert Fewest(20) == 17710 && Fewest(21) == 28656 by { assert Fewest(15) == 1596 && Fewest(16) == 2583; }
    assert Fewest(30) == 2178308 && Fewest(31) == 3524577 by { assert Fewest(25) == 196417 && Fewest(26) == 317810; }
    assert Fewest(40) == 267914295 && Fewest(41) == 433494436 by { assert Fewest(35) == 24157816
        && Fewest(36) == 39088168; }
    assert Fewest(45) == 2971215072;
  }

  lemma HtPositive(t: Tree)
    ensures t.Node? ==> Ht(t) >= 1 && Ht(t.l) < Ht(t) && Ht(t.r) < Ht(t)
  {
  }

  // ---------------------------------------------------------------- paths

  /** A node on a path: its fields, the side the path goes on, and the subtree on the other side. */
  datatype Frame = Frame(a: Addr, s: Ptr, balance: int, size: int, right: bool, sib: Tree)

  function Fill(f: Frame, t: Tree): (r: Tree) {
    Make(f.a, f.s, f.balance, f.size, f.right, t, f.sib)
  }

  function FrameOf(t: Tree, right: bool): Frame
    requires t.Node?
  {
    Frame(t.a, t.s, t.balance, t.size, right, Kid(t, !right))
  }

  function Last(c: seq<Frame>): Frame
    requires c != []
  {
    c[|c| - 1]
  }

  function Init(c: seq<Frame>): seq<Frame>
    requires c != []
  {
    c[..|c| - 1]
  }

  /** The tree with `t` at the end of the path, whose last frame is the parent of `t`. */
  ghost function Plug(c: seq<Frame>, t: Tree): Tree
    decreases |c|
  {
    if c == [] then t else Plug(Init(c), Fill(Last(c), t))
  }

  /** The nodes before, and after, the end of the path. */
  ghost function Pre(c: seq<Frame>): seq<Addr>
    decreases |c|
  {
    if c == [] then [] else Pre(Init(c)) + if Last(c).right then Seq(Last(c).sib) + [Last(c).a] else []
  }

  ghost function Post(c: seq<Frame>): seq<Addr>
    decreases |c|
  {
    if c == [] then [] else (if Last(c).right then [] else [Last(c).a] + Seq(Last(c).sib)) + Post(Init(c))
  }

  lemma {:induction false} PlugSeq(c: seq<Frame>, t: Tree)
    ensures Seq(Plug(c, t)) == Pre(c) + Seq(t) + Post(c)
    decreases |c|
  {
    if c != [] {
      PlugSeq(Init(c), Fill(Last(c), t));
    }
  }

  lemma {:induction false} PlugAppend(c: seq<Frame>, d: seq<Frame>, t: Tree)
    ensures Plug(c + d, t) == Plug(c, Plug(d, t))
    decreases |d|
  {
    if d == [] {
      assert c + d == c;
    } else {
      assert Init(c + d) == c + Init(d) && Last(c + d) == Last(d);
      PlugAppend(c, Init(d), Fill(Last(d), t));
    }
  }

  lemma PlugMore(c: seq<Frame>, f: Frame, t: Tree)
    ensures Plug(c + [f], t) == Plug(c, Fill(f, t))
  {
    assert Init(c + [f]) == c;
  }

  lemma PlugFirst(c: seq<Frame>, t: Tree)
    requires c != []
    ensures Plug(c, t) == Fill(c[0], Plug(c[1..], t))
  {
    assert c == [c[0]] + c[1..];
    PlugAppend([c[0]], c[1..], t);
    PlugMore([], c[0], Plug(c[1..], t));
    assert [c[0]] == [] + [c[0]];
  }

  lemma PlugAt(c: seq<Frame>, i: int, t: Tree)
    requires 0 <= i <= |c|
    ensures Plug(c, t) == Plug(c[..i], Plug(c[i..], t))
    ensures i < |c| ==> Plug(c[i..], t) == Fill(c[i], Plug(c[i + 1..], t))
  {
    assert c == c[..i] + c[i..];
    PlugAppend(c[..i], c[i..], t);
    if i < |c| {
      PlugFirst(c[i..], t);
      assert c[i..][1..] == c[i + 1..];
    }
  }

  lemma {:induction false} PlugDeeper(c: seq<Frame>, t: Tree)
    ensures |c| + Ht(t) <= Ht(Plug(c, t))
    decreases |c|
  {
    if c != [] { PlugDeeper(Init(c), Fill(Last(c), t)); }
  }

  // ---------------------------------------------------------------- sizes along a path

  ghost predicate SizesTo(c: seq<Frame>, n: int)
    decreases |c|
  {
    c == [] || (Last(c).size == 1 + n + Sz(Last(c).sib) && Sized(Last(c).sib) && SizesTo(Init(c), Last(c).size))
  }

  lemma {:induction false} SizedPlug(c: seq<Frame>, t: Tree)
    ensures Sized(Plug(c, t)) <==> SizesTo(c, Sz(t)) && Sized(t)
    decreases |c|
  {
    if c != [] { SizedPlug(Init(c), Fill(Last(c), t)); }
  }

  /** The same path, all its sizes moved by `k`. */
  ghost predicate Resized(c: seq<Frame>, c': seq<Frame>, k: int) {
    |c'| == |c| && forall i :: 0 <= i < |c| ==>
      c'[i].right == c[i].right && c'[i].sib == c[i].sib && c'[i].size == c[i].size + k
  }

  lemma {:induction false} SizesMoved(c: seq<Frame>, c': seq<Frame>, n: int, k: int)
    requires SizesTo(c, n) && Resized(c, c', k)
    ensures SizesTo(c', n + k)
    decreases |c|
  {
    if c != [] { SizesMoved(Init(c), Init(c'), Last(c).size, k); }
  }

  // ---------------------------------------------------------------- heights along a path

  ghost predicate HeightsTo(c: seq<Frame>, h: int)
    decreases |c|
  {
    c == [] || var f := Last(c);
               f.balance == (if f.right then h - Ht(f.sib) else Ht(f.sib) - h) && -1 <= f.balance <= 1
               && Balanced(f.sib) && HeightsTo(Init(c), 1 + Max(h, Ht(f.sib)))
  }

  lemma {:induction false} BalancedPlug(c: seq<Frame>, t: Tree)
    ensures Balanced(Plug(c, t)) <==> HeightsTo(c, Ht(t)) && Balanced(t)
    decreases |c|
  {
    if c != [] {
      hide Balanced, Ht;
      BalancedParts(Fill(Last(c), t), Last(c).right);
      BalancedPlug(Init(c), Fill(Last(c), t));
    }
  }

  ghost predicate SameBalances(c: seq<Frame>, c': seq<Frame>) {
    |c'| == |c| && forall i :: 0 <= i < |c| ==>
      c'[i].right == c[i].right && c'[i].sib == c[i].sib && c'[i].balance == c[i].balance
  }

  lemma {:induction false} HeightsKept(c: seq<Frame>, c': seq<Frame>, h: int)
    requires HeightsTo(c, h) && SameBalances(c, c')
    ensures HeightsTo(c', h)
    decreases |c|
  {
    if c != [] { HeightsKept(Init(c), Init(c'), 1 + Max(h, Ht(Last(c).sib))); }
  }

  // ---------------------------------------------------------------- minima along a path

  ghost predicate MinsTo(c: seq<Frame>, f: set<Addr>)
    decreases |c|
  {
    c == [] || var g := f + {Last(c).a} + Foot(Last(c).sib);
               IsMin(Last(c).s, g) && Mins(Last(c).sib) && MinsTo(Init(c), g)
  }

  lemma {:induction false} MinsPlug(c: seq<Frame>, t: Tree)
    ensures Mins(Plug(c, t)) <==> MinsTo(c, Foot(t)) && Mins(t)
    decreases |c|
  {
    if c != [] {
      assert Foot(Fill(Last(c), t)) == Foot(t) + {Last(c).a} + Foot(Last(c).sib);
      MinsPlug(Init(c), Fill(Last(c), t));
    }
  }

  ghost predicate SameMins(c: seq<Frame>, c': seq<Frame>) {
    |c'| == |c| && forall i :: 0 <= i < |c| ==> c'[i].a == c[i].a && c'[i].sib == c[i].sib && c'[i].s == c[i].s
  }

  lemma {:induction false} MinsKept(c: seq<Frame>, c': seq<Frame>, f: set<Addr>)
    requires MinsTo(c, f) && SameMins(c, c')
    ensures MinsTo(c', f)
    decreases |c|
  {
    if c != [] { MinsKept(Init(c), Init(c'), f + {Last(c).a} + Foot(Last(c).sib)); }
  }

  /** A new node that does not weigh less than one already there leaves the minima above valid. */
  lemma {:induction false} MinsStillMin(c: seq<Frame>, f: set<Addr>, x: Addr, y: Addr)
    requires MinsTo(c, f) && y in f && y.w <= x.w
    ensures MinsTo(c, f + {x})
    decreases |c|
  {
    if c != [] {
      var g := f + {Last(c).a} + Foot(Last(c).sib);
      MinsStillMin(Init(c), g, x, y);
      assert f + {x} + {Last(c).a} + Foot(Last(c).sib) == g + {x};
    }
  }

  /** The value `krmq_update_min` stores at `a`, from the least nodes below: a child wins a tie. */
  function MinOf(a: Addr, q: Ptr, r: Ptr): Ptr {
    var s := if q.Null? || a.w < q.w then a else q;
    if r.Null? || s.w < r.w then s else r
  }

  lemma MinsAre(t: Tree)
    requires Mins(t)
    ensures t.Nil? <==> Sp(t).Null?
    ensures t.Node? ==> IsMin(Sp(t), Foot(t))
  {
  }

  lemma MinOfIsMin(a: Addr, x: Tree, y: Tree)
    requires Mins(x) && Mins(y)
    ensures IsMin(MinOf(a, Sp(x), Sp(y)), {a} + Foot(x) + Foot(y))
  {
    MinsAre(x);
    MinsAre(y);
    LeastOf(a, Sp(x), Sp(y), Foot(x), Foot(y));
  }

  lemma LeastOf(a: Addr, q: Ptr, r: Ptr, f: set<Addr>, g: set<Addr>)
    requires if q.Null? then f == {} else IsMin(q, f)
    requires if r.Null? then g == {} else IsMin(r, g)
    ensures IsMin(MinOf(a, q, r), {a} + f + g)
  {
    var s := MinOf(a, q, r);
    forall b | b in {a} + f + g ensures s.w <= b.w {
      if b in f { assert q.w <= b.w; } else if b in g { assert r.w <= b.w; }
    }
  }

  // ---------------------------------------------------------------- rotations

  /** `(a,(b,c)q)p => ((a,b)p,c)q` for `d` left, and its mirror image; `x` and `y` are the new balances of p and q. */
  function Rotated1(t: Tree, d: bool, x: int, y: int): Tree
    requires t.Node? && Kid(t, !d).Node?
  {
    var q := Kid(t, !d);
    var p' := Make(t.a, MinOf(t.a, Sp(Kid(t, d)), Sp(Kid(q, d))), x,
                   t.size - (q.size - Sz(Kid(q, d))), d, Kid(t, d), Kid(q, d));
    Make(q.a, t.s, y, t.size, d, p', Kid(q, !d))
  }

  /** `(a,((b,c)r,d)q)p => ((a,b)p,(c,d)q)r`, and its mirror image. */
  function Rotated2(t: Tree, d: bool): Tree
    requires t.Node? && Kid(t, !d).Node? && Kid(Kid(t, !d), d).Node?
  {
    var q := Kid(t, !d);
    var r := Kid(q, d);
    var b1 := if d then -1 else 1;
    var n := Sz(Kid(r, d));
    var p' := Make(t.a, MinOf(t.a, Sp(Kid(t, d)), Sp(Kid(r, d))), if r.balance == b1 then -b1 else 0,
                   t.size - (q.size - n), d, Kid(t, d), Kid(r, d));
    var q' := Make(q.a, MinOf(q.a, Sp(Kid(q, !d)), Sp(Kid(r, !d))), if r.balance == b1 || r.balance == 0 then 0 else b1,
                   q.size - (n + 1), d, Kid(r, !d), Kid(q, !d));
    Make(r.a, t.s, 0, t.size, d, p', q')
  }

  /** All is well but the root leans by 2 away from side `d`. */
  ghost predicate Leans(t: Tree, d: bool) {
    && t.Node? && Sized(t) && Mins(t) && Balanced(t.l) && Balanced(t.r)
    && t.balance == Ht(t.r) - Ht(t.l) && t.balance == (if d then -2 else 2)
  }

  lemma SameFoot(t: Tree, t': Tree)
    requires Seq(t) == Seq(t')
    ensures Foot(t) == Foot(t')
  {
    FootIsSeq(t);
    FootIsSeq(t');
  }

  /** Both sides of a double rotation, and of its mirror image. */
  lemma Regrouped(a: seq<Addr>, p: Addr, b: seq<Addr>, r: Addr, c: seq<Addr>, q: Addr, e: seq<Addr>)
    ensures a + [p] + ((b + [r] + c) + [q] + e) == (a + [p] + b) + [r] + (c + [q] + e)
    ensures (a + [p] + (b + [r] + c)) + [q] + e == (a + [p] + b) + [r] + (c + [q] + e)
  {
  }

  lemma RotatedOrder1(t: Tree, d: bool, x: int, y: int)
    requires t.Node? && Kid(t, !d).Node?
    ensures Seq(Rotated1(t, d, x, y)) == Seq(t) && Foot(Rotated1(t, d, x, y)) == Foot(t)
  {
    hide Seq, Foot;
    var t' := Rotated1(t, d, x, y);
    InOrder(t, d);
    InOrder(Kid(t, !d), d);
    InOrder(t', d);
    InOrder(Kid(t', d), d);
    SameFoot(t, t');
  }

  lemma RotatedOrder2(t: Tree, d: bool)
    requires t.Node? && Kid(t, !d).Node? && Kid(Kid(t, !d), d).Node?
    ensures Seq(Rotated2(t, d)) == Seq(t) && Foot(Rotated2(t, d)) == Foot(t)
  {
    hide Seq, Foot;
    var q, t' := Kid(t, !d), Rotated2(t, d);
    var r := Kid(q, d);
    InOrder(t, d);
    InOrder(q, d);
    InOrder(r, d);
    InOrder(t', d);
    InOrder(Kid(t', d), d);
    InOrder(Kid(t', !d), d);
    if d {
      Regrouped(Seq(Kid(q, !d)), q.a, Seq(Kid(r, !d)), r.a, Seq(Kid(r, d)), t.a, Seq(Kid(t, d)));
    } else {
      Regrouped(Seq(Kid(t, d)), t.a, Seq(Kid(r, d)), r.a, Seq(Kid(r, !d)), q.a, Seq(Kid(q, !d)));
    }
    SameFoot(t, t');
  }

  /** A single rotation, when the heavy child does not lean back. */
  lemma RotatedGood1(t: Tree, d: bool, x: int, y: int)
    requires Leans(t, d)
    requires var q, b1 := Kid(t, !d), if d then -1 else 1;
             q.Node? && ((q.balance == b1 && x == y == 0) || (q.balance == 0 && x == b1 && y == -b1))
    ensures var t' := Rotated1(t, d, x, y);
            && Sized(t') && Mins(t') && Balanced(t')
            && Ht(t') == Ht(Kid(t, d)) + (if x == 0 then 2 else 3)
  {
    hide Seq, Foot, Sized, Mins, Balanced, Ht;
    var q, t' := Kid(t, !d), Rotated1(t, d, x, y);
    assert Sized(t') by {
      SizedParts(t, d);
      SizedParts(q, d);
      SizedParts(t', d);
      SizedParts(Kid(t', d), d);
    }
    assert Mins(t') by {
      MinsParts(t, d);
      MinsParts(q, d);
      MinsParts(t', d);
      MinsParts(Kid(t', d), d);
      MinOfIsMin(t.a, Kid(t, d), Kid(q, d));
      RotatedOrder1(t, d, x, y);
    }
    BalancedParts(t, d);
    BalancedParts(q, d);
    BalancedParts(t', d);
    BalancedParts(Kid(t', d), d);
  }

  lemma HeavyChild(t: Tree, d: bool)
    requires Leans(t, d)
    ensures var q := Kid(t, !d);
            && q.Node? && Ht(q) == Ht(Kid(t, d)) + 2
            && (q.balance == (if d then 1 else -1) ==> Kid(q, d).Node?)
  {
  }

  lemma RotatedMins2(t: Tree, d: bool)
    requires t.Node? && Mins(t) && Kid(t, !d).Node? && Kid(Kid(t, !d), d).Node?
    ensures Mins(Rotated2(t, d))
  {
    hide Seq, Foot, Mins;
    var q, t' := Kid(t, !d), Rotated2(t, d);
    var r := Kid(q, d);
    MinsParts(t, d);
    MinsParts(q, d);
    MinsParts(r, d);
    MinOfIsMin(t.a, Kid(t, d), Kid(r, d));
    MinOfIsMin(q.a, Kid(q, !d), Kid(r, !d));
    MinsParts(Kid(t', d), d);
    MinsParts(Kid(t', !d), !d);
    MinsParts(t', d);
    RotatedOrder2(t, d);
  }

  lemma RotatedSizes2(t: Tree, d: bool)
    requires t.Node? && Sized(t) && Kid(t, !d).Node? && Kid(Kid(t, !d), d).Node?
    ensures Sized(Rotated2(t, d))
  {
    hide Sized;
    var q, t' := Kid(t, !d), Rotated2(t, d);
    SizedParts(t, d);
    SizedParts(q, d);
    SizedParts(Kid(q, d), d);
    SizedParts(Kid(t', d), d);
    SizedParts(Kid(t', !d), d);
    SizedParts(t', d);
  }

  /** A double rotation, when it does. */
  lemma RotatedGood2(t: Tree, d: bool)
    requires Leans(t, d)
    requires Kid(t, !d).Node? && Kid(t, !d).balance == (if d then 1 else -1)
    ensures Kid(Kid(t, !d), d).Node?
    ensures var t' := Rotated2(t, d);
            Sized(t') && Mins(t') && Balanced(t') && Ht(t') == Ht(Kid(t, d)) + 2
  {
    HeavyChild(t, d);
    hide Seq, Foot, Sized, Mins, Balanced, Ht;
    var q, t' := Kid(t, !d), Rotated2(t, d);
    RotatedSizes2(t, d);
    RotatedMins2(t, d);
    BalancedParts(t, d);
    BalancedParts(q, d);
    BalancedParts(Kid(q, d), d);
    BalancedParts(t', d);
    BalancedParts(Kid(t', d), d);
    BalancedParts(Kid(t', !d), d);
  }
}
