/**
  How the trees of KrmqTree lie in memory, whole or taken apart along a path, and what writing to one
  node changes.
  Source: liblinktool/klib/krmq.h, lines 74-79.
 */
module KrmqHeap {
  import opened KrmqTree

  /** The library's part of a node. */
  datatype Head = Head(l: Ptr, r: Ptr, s: Ptr, balance: int, size: int)

  type Memory = map<Addr, Head>

  function Child(h: Head, right: bool): Ptr { if right then h.r else h.l }

  function WithChild(h: Head, right: bool, p: Ptr): Head { if right then h.(r := p) else h.(l := p) }

  function HeadOf(t: Tree): Head
    requires t.Node?
  {
    Head(Root(t.l), Root(t.r), t.s, t.balance, t.size)
  }

  /** The tree lies in memory, no two of its nodes at one address. */
  ghost predicate Heap(m: Memory, t: Tree) {
    t.Node? ==>
      && t.a in m && m[t.a] == HeadOf(t)
      && t.a !in Foot(t.l) + Foot(t.r) && Foot(t.l) !! Foot(t.r)
      && Heap(m, t.l) && Heap(m, t.r)
  }

  ghost predicate Same(m: Memory, m': Memory, s: set<Addr>) {
    forall a :: a in s && a in m ==> a in m' && m'[a] == m[a]
  }

  lemma {:induction false} HeapKept(m: Memory, m': Memory, t: Tree)
    requires Heap(m, t) && Same(m, m', Foot(t))
    ensures Heap(m', t)
  {
    if t.Node? {
      HeapKept(m, m', t.l);
      HeapKept(m, m', t.r);
    }
  }

  lemma {:induction false} FootInMemory(m: Memory, t: Tree)
    requires Heap(m, t)
    ensures Foot(t) <= m.Keys
  {
    if t.Node? {
      FootInMemory(m, t.l);
      FootInMemory(m, t.r);
    }
  }

  // ---------------------------------------------------------------- paths in memory

  function FrameHead(f: Frame, below: Ptr): Head {
    if f.right then Head(Root(f.sib), below, f.s, f.balance, f.size)
    else Head(below, Root(f.sib), f.s, f.balance, f.size)
  }

  ghost function PathFoot(c: seq<Frame>): set<Addr>
    decreases |c|
  {
    if c == [] then {} else {Last(c).a} + Foot(Last(c).sib) + PathFoot(Init(c))
  }

  /** The frames of a path lie in memory, the last one pointing to `below`. */
  ghost predicate Along(m: Memory, c: seq<Frame>, below: Ptr)
    decreases |c|
  {
    c == [] || (FrameLies(m, Last(c), below) && FrameFoot(Last(c)) !! PathFoot(Init(c)) && Along(m, Init(c), Last(c).a))
  }

  ghost function FrameFoot(f: Frame): set<Addr> { {f.a} + Foot(f.sib) }

  ghost predicate FrameLies(m: Memory, f: Frame, below: Ptr) {
    f.a in m && m[f.a] == FrameHead(f, below) && f.a !in Foot(f.sib) && Heap(m, f.sib)
  }

  /** Memory holds the tree `Plug(c, t)`. */
  ghost predicate Lies(m: Memory, c: seq<Frame>, t: Tree) {
    Heap(m, t) && Along(m, c, Root(t)) && Foot(t) !! PathFoot(c)
  }

  lemma LiesMore(m: Memory, c: seq<Frame>, f: Frame, t: Tree)
    ensures Lies(m, c + [f], t) <==> Lies(m, c, Fill(f, t))
    ensures PathFoot(c + [f]) == PathFoot(c) + FrameFoot(f)
  {
    assert Init(c + [f]) == c && Last(c + [f]) == f;
    var u := Fill(f, t);
    assert Foot(u) == {f.a} + Foot(t) + Foot(f.sib);
    assert Heap(m, u) <==> FrameLies(m, f, Root(t)) && Heap(m, t) && f.a !in Foot(t) && Foot(t) !! Foot(f.sib);
  }

  lemma {:induction false} LiesPlug(m: Memory, c: seq<Frame>, d: seq<Frame>, t: Tree)
    ensures Lies(m, c + d, t) <==> Lies(m, c, Plug(d, t))
    decreases |d|
  {
    if d == [] {
      assert c + d == c;
    } else {
      assert c + d == (c + Init(d)) + [Last(d)];
      LiesMore(m, c + Init(d), Last(d), t);
      LiesPlug(m, c, Init(d), Fill(Last(d), t));
    }
  }

  lemma LiesWhole(m: Memory, c: seq<Frame>, t: Tree)
    ensures Lies(m, c, t) <==> Heap(m, Plug(c, t))
  {
    LiesPlug(m, [], c, t);
    assert [] + c == c;
  }

  lemma {:induction false} AlongKept(m: Memory, m': Memory, c: seq<Frame>, below: Ptr)
    requires Along(m, c, below) && Same(m, m', PathFoot(c))
    ensures Along(m', c, below)
    decreases |c|
  {
    if c != [] {
      HeapKept(m, m', Last(c).sib);
      AlongKept(m, m', Init(c), Last(c).a);
    }
  }

  /** What the frame at position `i` points to along the path. */
  function Under(c: seq<Frame>, i: int, below: Ptr): Ptr
    requires 0 <= i < |c|
  {
    if i + 1 < |c| then c[i + 1].a else below
  }

  lemma {:induction false} FrameAt(m: Memory, c: seq<Frame>, below: Ptr, i: int)
    requires Along(m, c, below) && 0 <= i < |c|
    ensures c[i].a in PathFoot(c) && Foot(c[i].sib) <= PathFoot(c)
    ensures FrameLies(m, c[i], Under(c, i, below))
    decreases |c|
  {
    if i < |c| - 1 { FrameAt(m, Init(c), Last(c).a, i); }
  }

  lemma Distinct(m: Memory, c: seq<Frame>, below: Ptr, i: int, j: int)
    requires Along(m, c, below) && 0 <= i < j < |c|
    ensures c[i].a != c[j].a
    decreases |c|
  {
    if j < |c| - 1 {
      Distinct(m, Init(c), Last(c).a, i, j);
    } else {
      FrameAt(m, Init(c), Last(c).a, i);
    }
  }

  ghost predicate SamePlace(f: Frame, f': Frame) {
    f'.a == f.a && f'.right == f.right && f'.sib == f.sib
  }

  lemma {:induction false} AlongSet(m: Memory, c: seq<Frame>, below: Ptr, i: int, f: Frame)
    requires Along(m, c, below) && 0 <= i < |c| && SamePlace(c[i], f)
    ensures Along(m[f.a := FrameHead(f, Under(c, i, below))], c[i := f], below)
    ensures PathFoot(c[i := f]) == PathFoot(c)
    decreases |c|
  {
    var m' := m[f.a := FrameHead(f, Under(c, i, below))];
    var c' := c[i := f];
    FrameAt(m, c, below, i);
    if i == |c| - 1 {
      assert Init(c') == Init(c);
      HeapKept(m, m', f.sib);
      AlongKept(m, m', Init(c), f.a);
    } else {
      assert Init(c') == Init(c)[i := f];
      AlongSet(m, Init(c), Last(c).a, i, f);
      FrameAt(m, Init(c), Last(c).a, i);
      HeapKept(m, m', Last(c).sib);
    }
  }

  /** Writing the fields of one frame. */
  lemma SetFrame(m: Memory, c: seq<Frame>, t: Tree, i: int, f: Frame)
    requires Lies(m, c, t) && 0 <= i < |c| && SamePlace(c[i], f)
    ensures f.a in m && m[f.a] == FrameHead(c[i], Under(c, i, Root(t))) && f.a in PathFoot(c) && f.a !in Foot(t)
    ensures Lies(m[f.a := FrameHead(f, Under(c, i, Root(t)))], c[i := f], t)
    ensures PathFoot(c[i := f]) == PathFoot(c)
  {
    FrameAt(m, c, Root(t), i);
    AlongSet(m, c, Root(t), i, f);
    HeapKept(m, m[f.a := FrameHead(f, Under(c, i, Root(t)))], t);
  }

  /** Another tree at the end of a path: all that changes on the path is the last frame's pointer. */
  lemma Rehang(m: Memory, m': Memory, c: seq<Frame>, t: Tree, t': Tree)
    requires Lies(m, c, t) && Heap(m', t') && Foot(t') !! PathFoot(c)
    requires c != [] ==> Last(c).a in m' && m'[Last(c).a] == FrameHead(Last(c), Root(t'))
    requires c != [] ==> Same(m, m', PathFoot(c) - {Last(c).a})
    ensures Lies(m', c, t')
  {
    if c != [] {
      HeapKept(m, m', Last(c).sib);
      AlongKept(m, m', Init(c), Last(c).a);
    }
  }

  /** The node at position `i` of a path, with all that hangs below it. */
  lemma NodeAt(m: Memory, c: seq<Frame>, t: Tree, i: int)
    requires Lies(m, c, t) && 0 <= i < |c|
    ensures var u := Plug(c[i + 1..], t); var v := Fill(c[i], u);
            && Root(u) == Under(c, i, Root(t))
            && v.a in m && m[v.a] == HeadOf(v) && Heap(m, v.l) && Heap(m, v.r) && Lies(m, c[..i], v)
            && v.a !in Foot(v.l) + Foot(v.r)
  {
    assert c == c[..i] + c[i..];
    LiesPlug(m, c[..i], c[i..], t);
    PlugAt(c, i, t);
    FrameAt(m, c, Root(t), i);
  }

  /** Nothing outside `s` is written, added or dropped. */
  ghost predicate Only(m: Memory, m': Memory, s: set<Addr>) {
    m'.Keys == m.Keys && forall a :: a in m && a !in s ==> m'[a] == m[a]
  }

  lemma OnlySelf(m: Memory, s: set<Addr>)
    ensures Only(m, m, s)
  {
  }

  lemma OnlyMore(m: Memory, m': Memory, s: set<Addr>, s': set<Addr>)
    requires Only(m, m', s) && s <= s'
    ensures Only(m, m', s')
  {
  }

  lemma OnlyTrans(m: Memory, m': Memory, m'': Memory, s: set<Addr>)
    requires Only(m, m', s) && Only(m', m'', s)
    ensures Only(m, m'', s)
  {
  }

  // ---------------------------------------------------------------- rotations in memory

  lemma HeapParts(m: Memory, t: Tree, d: bool)
    requires t.Node?
    ensures var x, y := Kid(t, d), Kid(t, !d);
            && (Heap(m, t) <==>
                  && t.a in m && m[t.a] == HeadOf(t) && t.a !in Foot(x) + Foot(y) && Foot(x) !! Foot(y)
                  && Heap(m, x) && Heap(m, y))
            && Child(HeadOf(t), d) == Root(x) && Child(HeadOf(t), !d) == Root(y)
            && Foot(t) == {t.a} + Foot(x) + Foot(y)
  {
    MinsParts(t, d);
  }

  ghost predicate Holds(m: Memory, a: Addr, h: Head) { a in m && m[a] == h }

  /** The result of a single rotation lies in memory as soon as its two nodes do. */
  lemma Rotation1Lies(m: Memory, m': Memory, t: Tree, d: bool, x: int, y: int)
    requires Heap(m, t) && t.Node? && Kid(t, !d).Node?
    requires Only(m, m', {t.a, Kid(t, !d).a})
    requires var t' := Rotated1(t, d, x, y); Holds(m', t.a, HeadOf(Kid(t', d))) && Holds(m', Kid(t, !d).a, HeadOf(t'))
    ensures Heap(m', Rotated1(t, d, x, y))
  {
    var q, t' := Kid(t, !d), Rotated1(t, d, x, y);
    hide Heap, Foot;
    HeapParts(m, t, d);
    HeapParts(m, q, d);
    HeapKept(m, m', Kid(t, d));
    HeapKept(m, m', Kid(q, d));
    HeapKept(m, m', Kid(q, !d));
    HeapParts(m', Kid(t', d), d);
    HeapParts(m', t', d);
  }

  lemma Rotation2Lies(m: Memory, m': Memory, t: Tree, d: bool)
    requires Heap(m, t) && t.Node? && Kid(t, !d).Node? && Kid(Kid(t, !d), d).Node?
    requires Only(m, m', {t.a, Kid(t, !d).a, Kid(Kid(t, !d), d).a})
    requires var t' := Rotated2(t, d);
             && Holds(m', t.a, HeadOf(Kid(t', d))) && Holds(m', Kid(t, !d).a, HeadOf(Kid(t', !d)))
             && Holds(m', Kid(Kid(t, !d), d).a, HeadOf(t'))
    ensures Heap(m', Rotated2(t, d))
  {
    var q, t' := Kid(t, !d), Rotated2(t, d);
    var r := Kid(q, d);
    hide Heap, Foot, MinOf;
    HeapParts(m, t, d);
    HeapParts(m, q, d);
    HeapParts(m, r, d);
    assert Heap(m', Kid(t', d)) by {
      HeapKept(m, m', Kid(t, d));
      HeapKept(m, m', Kid(r, d));
      HeapParts(m', Kid(t', d), d);
    }
    assert Heap(m', Kid(t', !d)) by {
      HeapKept(m, m', Kid(q, !d));
      HeapKept(m, m', Kid(r, !d));
      HeapParts(m', Kid(t', !d), !d);
    }
    MinsParts(Kid(t', d), d);
    MinsParts(Kid(t', !d), !d);
    HeapParts(m', t', d);
  }

  /** Writing the balances of the two nodes of a single rotation. */
  lemma BalancesSet(m: Memory, t: Tree, d: bool, x: int, y: int, x': int, y': int)
    requires t.Node? && Kid(t, !d).Node? && Heap(m, Rotated1(t, d, x, y))
    ensures var p, q := t.a, Kid(t, !d).a;
            && p in m && q in m && p != q
            && Heap(m[p := m[p].(balance := x')][q := m[q].(balance := y')], Rotated1(t, d, x', y'))
  {
    var t', t'' := Rotated1(t, d, x, y), Rotated1(t, d, x', y');
    var p, q := t.a, Kid(t, !d).a;
    hide Heap, Foot;
    HeapParts(m, t', d);
    HeapParts(m, Kid(t', d), d);
    var m' := m[p := m[p].(balance := x')][q := m[q].(balance := y')];
    HeapKept(m, m', Kid(Kid(t', d), d));
    HeapKept(m, m', Kid(Kid(t', d), !d));
    HeapKept(m, m', Kid(t', !d));
    HeapParts(m', Kid(t'', d), d);
    HeapParts(m', t'', d);
  }

  /** Hanging a rotated subtree where the old one was: the parent's pointer to the old root tells the side. */
  lemma Hung(m: Memory, m': Memory, c: seq<Frame>, t: Tree, t': Tree)
    requires c != [] && Lies(m, c, t) && t.Node? && Heap(m', t') && Foot(t') == Foot(t) && Only(m, m', Foot(t))
    ensures var a := Last(c).a;
            && a in m' && a in PathFoot(c) && (t.a != m'[a].l <==> Last(c).right)
            && Lies(m'[a := WithChild(m'[a], Last(c).right, Root(t'))], c, t')
  {
    var f := Last(c);
    FrameAt(m, c, t.a, |c| - 1);
    RootInFoot(f.sib);
    var m'' := m'[f.a := WithChild(m'[f.a], f.right, Root(t'))];
    HeapKept(m', m'', t');
    Rehang(m, m'', c, t, t');
  }

  lemma RootInFoot(t: Tree)
    ensures t.Node? ==> Root(t) in Foot(t)
  {
  }

  lemma RootOfPlug(c: seq<Frame>, t: Tree)
    ensures Root(Plug(c, t)) == if c == [] then Root(t) else c[0].a
  {
    if c != [] { PlugFirst(c, t); }
  }

  lemma LeafApart(m: Memory, c: seq<Frame>, t: Tree, i: int)
    requires Lies(m, c, t) && 0 <= i < |c|
    ensures c[i].a !in Foot(t)
  {
    FrameAt(m, c, Root(t), i);
  }

  /** What a node's parent reads of it. */
  function SizeAt(m: Memory, q: Ptr): int { if q.Ref? && q in m then m[q].size else 0 }
  function MinAt(m: Memory, q: Ptr): Ptr { if q.Ref? && q in m then m[q].s else Null }

  ghost predicate Readable(m: Memory, q: Ptr) {
    q.Ref? ==> q in m && m[q].s.Ref?
  }

  lemma Shown(m: Memory, t: Tree)
    requires Heap(m, t) && Mins(t)
    ensures Readable(m, Root(t)) && SizeAt(m, Root(t)) == Sz(t) && MinAt(m, Root(t)) == Sp(t)
  {
  }

  /** A child that is none of the nodes being rotated. */
  ghost predicate Aside(m: Memory, u: Ptr, s: set<Addr>) {
    Readable(m, u) && u !in s
  }

  lemma IsAside(m: Memory, u: Tree, s: set<Addr>)
    requires Heap(m, u) && Mins(u) && s !! Foot(u)
    ensures Aside(m, Root(u), s) && SizeAt(m, Root(u)) == Sz(u) && MinAt(m, Root(u)) == Sp(u)
  {
    Shown(m, u);
    RootInFoot(u);
  }

  /** The nodes and subtrees that a single rotation rearranges. */
  lemma Pieces1(m: Memory, t: Tree, d: bool)
    requires Heap(m, t) && Mins(t) && t.Node? && Kid(t, !d).Node?
    ensures var q := Kid(t, !d); var s := {t.a, q.a};
            && Holds(m, t.a, HeadOf(t)) && Holds(m, q.a, HeadOf(q)) && t.a != q.a && s <= Foot(t)
            && AsideAs(m, Kid(t, d), s) && AsideAs(m, Kid(q, d), s)
  {
    var q := Kid(t, !d);
    hide Heap, Foot, Mins;
    HeapParts(m, t, d);
    HeapParts(m, q, d);
    MinsParts(t, d);
    MinsParts(q, d);
    IsAside(m, Kid(t, d), {t.a, q.a});
    IsAside(m, Kid(q, d), {t.a, q.a});
  }

  ghost predicate AsideAs(m: Memory, u: Tree, s: set<Addr>) {
    Aside(m, Root(u), s) && SizeAt(m, Root(u)) == Sz(u) && MinAt(m, Root(u)) == Sp(u)
  }

  /** The nodes and subtrees that a double rotation rearranges. */
  lemma Pieces2(m: Memory, t: Tree, d: bool)
    requires Heap(m, t) && Mins(t) && t.Node? && Kid(t, !d).Node? && Kid(Kid(t, !d), d).Node?
    ensures var q := Kid(t, !d); var r := Kid(q, d); var s := {t.a, q.a, r.a};
            && Holds(m, t.a, HeadOf(t)) && Holds(m, q.a, HeadOf(q)) && Holds(m, r.a, HeadOf(r))
            && t.a != q.a && t.a != r.a && q.a != r.a && s <= Foot(t)
            && AsideAs(m, Kid(t, d), s) && AsideAs(m, Kid(q, !d), s) && AsideAs(m, Kid(r, d), s)
              && AsideAs(m, Kid(r, !d), s)
  {
    var q := Kid(t, !d);
    var r := Kid(q, d);
    hide Heap, Foot, Mins;
    HeapParts(m, t, d);
    HeapParts(m, q, d);
    HeapParts(m, r, d);
    MinsParts(t, d);
    MinsParts(q, d);
    MinsParts(r, d);
    var s := {t.a, q.a, r.a};
    IsAside(m, Kid(t, d), s);
    IsAside(m, Kid(q, !d), s);
    IsAside(m, Kid(r, d), s);
    IsAside(m, Kid(r, !d), s);
  }

  lemma RotationFoot(t: Tree, d: bool)
    requires t.Node? && Kid(t, !d).Node?
    ensures t.a in Foot(t) && Kid(t, !d).a in Foot(t)
  {
  }

  lemma {:induction false} PlugFoot(c: seq<Frame>, t: Tree)
    ensures Foot(Plug(c, t)) == PathFoot(c) + Foot(t)
    decreases |c|
  {
    if c != [] {
      PlugFoot(Init(c), Fill(Last(c), t));
      assert Foot(Fill(Last(c), t)) == {Last(c).a} + Foot(Last(c).sib) + Foot(t);
    }
  }

  /** A node whose key is not in the tree is none of its nodes. */
  lemma Absent(tree: Tree, c: seq<Frame>, x: Addr)
    requires Plug(c, Nil) == tree && !HasKey(Seq(tree), x.key)
    ensures x !in PathFoot(c) && (forall a :: a in PathFoot(c) ==> a in Seq(tree))
  {
    PlugFoot(c, Nil);
    FootIsSeq(tree);
  }

  /** A path with a subtree at its end, seen from position `b`. */
  lemma FromPosition(m: Memory, c: seq<Frame>, b: int, t: Tree)
    requires Lies(m, c, t) && 0 <= b < |c|
    ensures Lies(m, c[..b], Plug(c[b..], t)) && Foot(Plug(c[b..], t)) + PathFoot(c[..b]) == PathFoot(c) + Foot(t)
    ensures Root(Plug(c, t)) == c[0].a
  {
    assert c == c[..b] + c[b..];
    PlugAppend(c[..b], c[b..], t);
    LiesPlug(m, c[..b], c[b..], t);
    RootOfPlug(c, t);
    PlugFoot(c, t);
    PlugFoot(c[..b], Plug(c[b..], t));
  }

  // ---------------------------------------------------------------- removal in memory

  /** A child of the subtree's root takes its place. */
  lemma Unlinked(m: Memory, c: seq<Frame>, t: Tree, right: bool)
    requires Lies(m, c, t) && c != [] && t.Node?
    ensures var a := Last(c).a;
            && a in m && a in PathFoot(c)
            && Lies(m[a := WithChild(m[a], Last(c).right, Root(Kid(t, right)))], c, Kid(t, right))
  {
    var a := Last(c).a;
    FrameAt(m, c, t.a, |c| - 1);
    var m' := m[a := WithChild(m[a], Last(c).right, Root(Kid(t, right)))];
    HeapKept(m, m', Kid(t, right));
    Rehang(m, m', c, t, Kid(t, right));
  }

  /** What the writes of a removal leave in the successor `r`, its old parent, and the parent of the removed node. */
  ghost predicate Moved(m: Memory, m': Memory, c: seq<Frame>, p: Tree, d: seq<Frame>, r: Tree, f: Frame)
    requires c != [] && p.Node? && r.Node?
  {
    && Only(m, m', {r.a, Last(c).a} + if d == [] then {} else {Last(d).a})
    && r.a in m' && m'[r.a] == FrameHead(f, if d == [] then Root(r.r) else Root(p.r))
    && (d != [] ==> Last(d).a in m' && m'[Last(d).a] == FrameHead(Last(d), Root(r.r)))
    && Last(c).a in m && Last(c).a in m' && m'[Last(c).a] == WithChild(m[Last(c).a], Last(c).right, r.a)
  }

  lemma SuccessorTree(m: Memory, m': Memory, c: seq<Frame>, p: Tree, d: seq<Frame>, r: Tree, f: Frame)
    requires Lies(m, c, p) && c != [] && p.Node? && r.Node? && p.r == Plug(d, r)
    requires f.a == r.a && f.right && f.sib == p.l && Moved(m, m', c, p, d, r, f)
    ensures Heap(m', Fill(f, Plug(d, r.r))) && Foot(Fill(f, Plug(d, r.r))) <= Foot(p)
  {
    FrameAt(m, c, p.a, |c| - 1);
    LiesWhole(m, d, r);
    if d != [] { FrameAt(m, d, r.a, |d| - 1); }
    PlugFoot(d, r);
    PlugFoot(d, r.r);
    HeapKept(m, m', r.r);
    Rehang(m, m', d, r, r.r);
    LiesWhole(m', d, r.r);
    RootOfPlug(d, r);
    RootOfPlug(d, r.r);
    HeapKept(m, m', p.l);
  }

  /** A subtree at the end of a path, with its own path and end. */
  lemma FurtherDown(m: Memory, c: seq<Frame>, f: Frame, d: seq<Frame>, t: Tree)
    ensures Lies(m, c + [f] + d, t) <==> Lies(m, c, Fill(f, Plug(d, t)))
    ensures PathFoot(c + [f] + d) + Foot(t) == PathFoot(c) + Foot(Fill(f, Plug(d, t)))
  {
    var u := Plug(d, t);
    hide Plug, PathFoot, Foot, Heap, Lies;
    LiesMore(m, c, f, u);
    LiesPlug(m, c + [f], d, t);
    PlugFoot(c, Fill(f, u));
    PlugAppend(c + [f], d, t);
    PlugMore(c, f, u);
    PlugFoot(c + [f] + d, t);
  }

  /** The successor stands where the removed node was. */
  lemma SuccessorLies(m: Memory, m': Memory, c: seq<Frame>, p: Tree, d: seq<Frame>, r: Tree, f: Frame)
    requires Lies(m, c, p) && c != [] && p.Node? && r.Node? && p.r == Plug(d, r)
    requires f.a == r.a && f.right && f.sib == p.l && Moved(m, m', c, p, d, r, f)
    ensures Lies(m', c + [f] + d, r.r) && PathFoot(c + [f] + d) + Foot(r.r) <= PathFoot(c) + Foot(p) - {p.a}
  {
    SuccessorHung(m, m', c, p, d, r, f);
    FurtherDown(m', c, f, d, r.r);
    SuccessorFoot(m, p, d, r, f);
  }

  lemma SuccessorHung(m: Memory, m': Memory, c: seq<Frame>, p: Tree, d: seq<Frame>, r: Tree, f: Frame)
    requires Lies(m, c, p) && c != [] && p.Node? && r.Node? && p.r == Plug(d, r)
    requires f.a == r.a && f.right && f.sib == p.l && Moved(m, m', c, p, d, r, f)
    ensures Lies(m', c, Fill(f, Plug(d, r.r)))
  {
    hide Plug, PathFoot, Foot, Heap;
    SuccessorTree(m, m', c, p, d, r, f);
    FrameAt(m, c, p.a, |c| - 1);
    SuccessorFoot(m, p, d, r, f);
    SuccessorOld(p, d, r);
    Rehang(m, m', c, p, Fill(f, Plug(d, r.r)));
  }

  /** The successor and its parent are nodes of the subtree. */
  lemma SuccessorOld(p: Tree, d: seq<Frame>, r: Tree)
    requires p.Node? && r.Node? && p.r == Plug(d, r)
    ensures r.a in Foot(p) && (d != [] ==> Last(d).a in Foot(p))
  {
    PlugFoot(d, r);
  }

  lemma SuccessorFoot(m: Memory, p: Tree, d: seq<Frame>, r: Tree, f: Frame)
    requires Heap(m, p) && p.Node? && r.Node? && p.r == Plug(d, r) && f.a == r.a && f.right && f.sib == p.l
    ensures Foot(Fill(f, Plug(d, r.r))) <= Foot(p) - {p.a}
    ensures p.a in Foot(p)
  {
    PlugFoot(d, r);
    PlugFoot(d, r.r);
  }

  /** Where the nodes that a removal writes to are, and that they are different nodes. */
  lemma SpineParts(m: Memory, c: seq<Frame>, p: Tree, d: seq<Frame>, r: Tree)
    requires Lies(m, c, p) && c != [] && p.Node? && r.Node? && p.r == Plug(d, r) && d != []
    ensures Holds(m, p.a, HeadOf(p)) && Holds(m, r.a, HeadOf(r)) && Last(d).a in m
        && m[Last(d).a] == FrameHead(Last(d), r.a) && Last(c).a in m
    ensures p.a != r.a && p.a != Last(d).a && p.a != Last(c).a && r.a != Last(d).a && r.a != Last(c).a
        && Last(d).a != Last(c).a
    ensures {r.a, Last(d).a, Last(c).a} <= PathFoot(c) + Foot(p) - {p.a}
  {
    LiesWhole(m, d, r);
    hide Plug, PathFoot, Foot, Heap, Along;
    FrameAt(m, c, p.a, |c| - 1);
    HeapParts(m, p, true);
    HeapParts(m, r, true);
    FrameAt(m, d, r.a, |d| - 1);
    PlugFoot(d, r);
  }

  lemma LiesHeap(m: Memory, c: seq<Frame>, t: Tree)
    requires Lies(m, c, t)
    ensures Heap(m, t)
  {
  }

  lemma HeadAt(m: Memory, c: seq<Frame>, t: Tree)
    requires Lies(m, c, t) && t.Node?
    ensures t.a in m && m[t.a] == HeadOf(t)
    ensures t.r.Node? ==> t.r.a in m && m[t.r.a] == HeadOf(t.r)
  {
    assert Heap(m, t) && Heap(m, t.r);
  }

  /** The balances after a single rotation, written when the rotated subtree is already hung on its path. */
  lemma BalancesSetBelow(m: Memory, c: seq<Frame>, t: Tree, d: bool, x: int, y: int, x': int, y': int)
    requires t.Node? && Kid(t, !d).Node? && Lies(m, c, Rotated1(t, d, x, y))
    ensures var p, q := t.a, Kid(t, !d).a;
            && p in m && q in m && p != q && p in Foot(t) && q in Foot(t)
            && Lies(m[p := m[p].(balance := x')][q := m[q].(balance := y')], c, Rotated1(t, d, x', y'))
  {
    var p, q := t.a, Kid(t, !d).a;
    BalancesSet(m, t, d, x, y, x', y');
    RotatedOrder1(t, d, x, y);
    RotatedOrder1(t, d, x', y');
    RotationFoot(t, d);
    hide Plug, PathFoot, Foot, Heap, Along;
    if c != [] { FrameAt(m, c, Root(Rotated1(t, d, x, y)), |c| - 1); }
    Rehang(m, m[p := m[p].(balance := x')][q := m[q].(balance := y')], c, Rotated1(t, d, x, y), Rotated1(t, d, x', y'));
  }

  /** A rotated subtree hung where the old one was, on a known side. */
  lemma HungBelow(m: Memory, m': Memory, c: seq<Frame>, t: Tree, t': Tree)
    requires c != [] && Lies(m, c, t) && t.Node? && Heap(m', t') && Foot(t') == Foot(t) && Only(m, m', Foot(t))
    ensures var a := Last(c).a;
            a in m' && a in PathFoot(c) && Lies(m'[a := WithChild(m'[a], Last(c).right, Root(t'))], c, t')
  {
    Hung(m, m', c, t, t');
  }

  lemma RotatedHead(m: Memory, t: Tree, d: bool, y: int)
    requires t.Node? && Kid(t, !d).Node? && Heap(m, Rotated1(t, d, t.balance, y))
    ensures Kid(t, !d).a in m && m[Kid(t, !d).a].balance == y
  {
  }

  /** What the rotation of a leaning node reads. */
  lemma BackParts(m: Memory, c: seq<Frame>, v: Tree, d: bool)
    requires Lies(m, c, v) && Leans(v, d)
    ensures var q := Kid(v, !d);
            && v.a in m && Child(m[v.a], !d) == Root(q) && q.Node? && q.a in m && m[q.a].balance == q.balance
              && -1 <= q.balance <= 1
            && (q.balance == (if d then 1 else -1) ==> Kid(q, d).Node?)
            && Mins(v)
  {
    HeavyChild(v, d);
    BalancedParts(Kid(v, !d), d);
    HeapParts(m, v, d);
    HeapParts(m, Kid(v, !d), d);
  }
}
