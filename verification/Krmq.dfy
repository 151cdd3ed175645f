/**
  Trees with range minima: search, insertion, removal and range-minimum queries over nodes in memory.
  Source: liblinktool/klib/krmq.h, lines 81-327.
 */
module Krmq {
  import opened KrmqHeap
  import opened KrmqPath
  import opened KrmqRange
  import opened KrmqRemove
  import opened KrmqSearch
  import opened KrmqTree
  import opened Wrappers

  const MAX_DEPTH := 64
  const MAX_SIZE := 0xffff_ffff

  class KRmq {
    var m: Memory
    var root: Ptr
    ghost var tree: Tree

    ghost predicate Valid()
      reads this
    {
      Heap(m, tree) && root == Root(tree) && Good(tree) && |Seq(tree)| <= MAX_SIZE
    }

    /** The nodes in the tree, in the order of their keys. */
    ghost function Nodes(): seq<Addr>
      reads this
    {
      Seq(tree)
    }

    /** The empty tree. */
    constructor ()
      ensures Valid() && Nodes() == [] && m == map[]
    {
      m, root, tree := map[], Null, Nil;
    }

    /** The number of nodes with keys up to `k`, and the one whose key is `k`, if any. */
    method Find(k: int) returns (p: Ptr, cnt: int)
      requires Valid()
      ensures Rank(Nodes(), k, cnt)
      ensures p.Null? <==> !HasKey(Nodes(), k)
      ensures p.Ref? ==> cnt > 0 && Nodes()[cnt - 1] == p && p.key == k
    {
      hide Seq, Plug, Pre, Post, Heap, Sorted, Sized, Balanced, Mins, Sought, Ht;
      p, cnt := root, 0;
      ghost var c, t := [], tree;
      SoughtAll(m, tree, k);
      while p != Null
        invariant Sought(m, tree, c, t, k) && p == Root(t) && cnt == |Pre(c)|
        decreases Ht(t)
      {
        Down(m, tree, c, t, k);
        if p.key <= k { cnt := cnt + SizeAt(m, m[p].l) + 1; }
        if k < p.key {
          p := m[p].l;
          c, t := c + [FrameOf(t, false)], t.l;
        } else if p.key < k {
          p := m[p].r;
          c, t := c + [FrameOf(t, true)], t.r;
        } else {
          EndsFound(m, tree, c, t, k);
          return;
        }
      }
      EndsMissed(m, tree, c, k);
    }

    /** The last node before `k` and the first one after it; both are the node with key `k` if there is one. */
    method Interval(k: int) returns (p: Ptr, lower: Ptr, upper: Ptr)
      requires Valid()
      ensures p.Null? <==> !HasKey(Nodes(), k)
      ensures p.Ref? ==> p in Nodes() && p.key == k && lower == upper == p
      ensures p.Null? ==> exists n :: Between(Nodes(), k, n, lower, upper)
    {
      p := root;
      var l, u := Null, Null;
      ghost var c, t := [], tree;
      SoughtAll(m, tree, k);
      hide Seq, Plug, Heap, Sorted, Sized, Balanced, Mins, Rank, HasKey, Ht, Pre, Post, Sought, Prev, Next, Between;
      NextToNone();
      while p != Null
        invariant Sought(m, tree, c, t, k) && p == Root(t) && l == Prev(c) && u == Next(c)
        decreases Ht(t)
      {
        Down(m, tree, c, t, k);
        NextTo(c, FrameOf(t, p.key < k));
        if k < p.key {
          u := p;
          p := m[p].l;
          c, t := c + [FrameOf(t, false)], t.l;
        } else if p.key < k {
          l := p;
          p := m[p].r;
          c, t := c + [FrameOf(t, true)], t.r;
        } else {
          EndsFound(m, tree, c, t, k);
          return p, p, p;
        }
      }
      EndsBetween(m, tree, c, k);
      return Null, l, u;
    }

    // -------------------------------------------------------------- passes over a search path

    /** Records one step of a search. */
    static method Push(path: array<Addr>, stack: array<bool>, n: nat, top: nat, p: Addr, which: bool,
                       ghost c: seq<Frame>, ghost b: int, ghost f: Frame)
      requires n == |c| < path.Length && top == n - b < stack.Length && p == f.a && which == f.right
      requires OnPath(path[..], c) && (b == n || Turns(stack[..], c, b))
      modifies path, stack
      ensures OnPath(path[..], c + [f]) && Turns(stack[..], c + [f], b)
    {
      ghost var paths, turns := path[..], stack[..];
      stack[top] := which;
      path[n] := p;
      assert path[..] == paths[n := p] && stack[..] == turns[top := which];
      OnPathMore(paths, c, f);
      if top == 0 { TurnsNew(turns, c, f); } else { TurnsMore(turns, c, b, f); }
    }

    /** The search for the place of `x`; `bp` is the last node on the path that leans, or the root. */
    method Descend(x: Addr, path: array<Addr>, stack: array<bool>)
      returns (p: Ptr, q: Ptr, which: bool, bp: Ptr, bq: Ptr, n: nat, cnt: int, ghost c: seq<Frame>, ghost t: Tree,
          ghost b: int)
      requires Valid() && path.Length == MAX_DEPTH && stack.Length == MAX_DEPTH
      modifies path, stack
      ensures Sought(m, tree, c, t, x.key) && p == Root(t) && (t.Node? ==> t.a.key == x.key)
      ensures cnt == |Pre(c)| + if t.Node? then |Seq(t.l)| + 1 else 0
      ensures n == |c| && OnPath(path[..], c) && HangsAt(c, q, which) && LeansAt(c, t, b, bp, bq)
          && Turns(stack[..], c, b)
    {
      p, q, bp, bq := root, Null, root, Null;
      which, n, cnt := false, 0, 0;
      var top := 0;
      c, t, b := [], tree, 0;
      SoughtAll(m, tree, x.key);
      DepthBound(tree);
      assert OnPath(path[..], c) && LeansAt(c, t, b, bp, bq) && Turns(stack[..], c, b);
      hide Seq, Plug, Pre, Post, Heap, Lies, Sorted, Sized, Balanced, Mins, OnPath, Turns, LeansAt, Sought, Ht;
      while p != Null
        invariant Sought(m, tree, c, t, x.key) && p == Root(t) && cnt == |Pre(c)|
        invariant n == |c| && top == n - b && 0 <= b <= n && OnPath(path[..], c) && HangsAt(c, q, which)
        invariant LeansAt(c, t, b, bp, bq) && Turns(stack[..], c, b)
        decreases Ht(t)
      {
        Down(m, tree, c, t, x.key);
        if p.key <= x.key { cnt := cnt + SizeAt(m, m[p].l) + 1; }
        if x.key == p.key { return; }
        LeansMore(c, t, b, bp, bq, q, which);
        if m[p].balance != 0 { bq, bp, top, b := q, p, 0, n; }
        which := p.key < x.key;
        Push(path, stack, n, top, p, which, c, b, FrameOf(t, which));
        n, top := n + 1, top + 1;
        c, t := c + [FrameOf(t, which)], Kid(t, which);
        q := p;
        p := Child(m[p], which);
      }
    }

    /** Adds `k` to the sizes of the nodes from position `from` on. */
    method Resize(path: array<Addr>, from: nat, n: nat, k: int, ghost c: seq<Frame>, ghost t: Tree)
        returns (ghost c': seq<Frame>)
      requires Lies(m, c, t) && OnPath(path[..], c) && from <= n == |c|
      modifies this`m
      ensures Lies(m, c', t) && PathFoot(c') == PathFoot(c) && Only(old(m), m, PathFoot(c))
      ensures |c'| == |c| && forall j :: 0 <= j < n ==> c'[j] == if j < from then c[j] else c[j].(size := c[j].size + k)
    {
      c' := c;
      var i := from;
      hide Lies, PathFoot;
      while i < n
        invariant from <= i <= n
        invariant Lies(m, c', t) && PathFoot(c') == PathFoot(c) && Only(old(m), m, PathFoot(c))
        invariant |c'| == |c| && forall j :: 0 <= j < n ==>
            c'[j] == if from <= j < i then c[j].(size := c[j].size + k) else c[j]
      {
        ghost var f := c'[i].(size := c'[i].size + k);
        SetFrame(m, c', t, i, f);
        var p := path[i];
        m := m[p := m[p].(size := m[p].size + k)];
        c' := c'[i := f];
        i := i + 1;
      }
    }

    /** `p`'s least node, from those of its children `q` and `r`. */
    method UpdateMin(p: Ptr, q: Ptr, r: Ptr)
      requires p.Ref? && p in m && Readable(m, q) && Readable(m, r) && p != r
      modifies this`m
      ensures m == old(m)[p := old(m)[p].(s := MinOf(p, MinAt(old(m), q), MinAt(old(m), r)))]
    {
      m := m[p := m[p].(s := if q.Null? || p.w < m[q].s.w then p else m[q].s)];
      m := m[p := m[p].(s := if r.Null? || m[p].s.w < m[r].s.w then m[p].s else m[r].s)];
    }

    /** The least node of the frame at position `i`. */
    method UpdateMinAt(p: Addr, ghost i: int, ghost c: seq<Frame>, ghost t: Tree) returns (ghost c': seq<Frame>)
      requires Lies(m, c, t) && 0 <= i < |c| && p == c[i].a
      requires var v := Fill(c[i], Plug(c[i + 1..], t)); Mins(v.l) && Mins(v.r)
      modifies this`m
      ensures c' == c[i := c[i].(s := NewMin(c[i], Plug(c[i + 1..], t)))]
      ensures Lies(m, c', t) && PathFoot(c') == PathFoot(c) && Only(old(m), m, PathFoot(c))
      ensures p in m && m[p].s == NewMin(c[i], Plug(c[i + 1..], t))
    {
      ghost var u, was := Plug(c[i + 1..], t), m;
      ghost var v, f := Fill(c[i], u), c[i].(s := NewMin(c[i], u));
      NodeAt(m, c, t, i);
      hide Lies, PathFoot, Mins;
      Shown(m, v.l);
      Shown(m, v.r);
      UpdateMin(p, m[p].l, m[p].r);
      SetFrame(was, c, t, i, f);
      c' := c[i := f];
    }

    /** The least nodes on the path to the new leaf `x`, up to the first node where it is not `x`. */
    method MinsUp(path: array<Addr>, n: nat, x: Addr, ghost c: seq<Frame>) returns (ghost c': seq<Frame>)
      requires Lies(m, c, Leaf(x)) && OnPath(path[..], c) && n == |c| && Mins(Plug(c, Nil))
      modifies this`m
      ensures Lies(m, c', Leaf(x)) && PathFoot(c') == PathFoot(c) && Only(old(m), m, PathFoot(c))
      ensures Mins(Plug(c', Leaf(x)))
      ensures |c'| == |c| && forall j :: 0 <= j < n ==> c'[j] == c[j].(s := c'[j].s)
    {
      c' := c;
      var i := n - 1;
      ghost var t := Leaf(x);
      LeastAtLeaf(c, x);
      hide Lies, PathFoot, Plug, Mins, MinsTo, LeastSoFar;
      while i >= 0
        invariant -1 <= i < n
        invariant Lies(m, c', t) && PathFoot(c') == PathFoot(c) && Only(old(m), m, PathFoot(c))
        invariant |c'| == |c| && forall j :: 0 <= j < n ==> c'[j] == if j <= i then c[j] else c[j].(s := c'[j].s)
        invariant LeastSoFar(c, c', x, i + 1)
      {
        assert c'[..i] == c[..i];
        LeastStep(c, c', x, i);
        var p := path[i];
        c' := UpdateMinAt(p, i, c', t);
        if m[p].s != x { return; }
        i := i - 1;
      }
      LeastIsMins(c, c', x);
    }

    /** The balances on the path from `bp` to the new leaf `x`, following the stack. */
    method TiltPath(bp: Ptr, x: Addr, stack: array<bool>, ghost c: seq<Frame>, ghost b: int)
        returns (ghost c': seq<Frame>)
      requires Lies(m, c, Leaf(x)) && Turns(stack[..], c, b) && b < |c| && bp == c[b].a
      modifies this`m
      ensures Lies(m, c', Leaf(x)) && PathFoot(c') == PathFoot(c) && Only(old(m), m, PathFoot(c))
      ensures |c'| == |c| && forall j :: 0 <= j < |c| ==> c'[j] == c[j].(balance := c[j].balance + Tilt(c, b, j))
    {
      c' := c;
      var p, top := bp, 0;
      hide Lies, PathFoot;
      while p != x
        invariant 0 <= top <= |c| - b && p == if b + top < |c| then c[b + top].a else x
        invariant Lies(m, c', Leaf(x)) && PathFoot(c') == PathFoot(c) && Only(old(m), m, PathFoot(c))
        invariant |c'| == |c| && forall j :: 0 <= j < |c| ==>
                    c'[j] == if j < b + top then c[j].(balance := c[j].balance + Tilt(c, b, j)) else c[j]
        decreases |c| - b - top
      {
        ghost var i := b + top;
        assert stack[..][top] == c[i].right;
        ghost var f := c[i].(balance := c[i].balance + Tilt(c, b, i));
        SetFrame(m, c', Leaf(x), i, f);
        if !stack[top] {
          m := m[p := m[p].(balance := m[p].balance - 1)];
        } else {
          m := m[p := m[p].(balance := m[p].balance + 1)];
        }
        c' := c'[i := f];
        p, top := Child(m[p], stack[top]), top + 1;
      }
      if b + top < |c| { LeafApart(m, c', Leaf(x), b + top); }
    }

    /** `(a,(b,c)q)p => ((a,b)p,c)q` or its mirror image; balances are left to the caller. */
    method Rotate1(p: Addr, d: bool, ghost t: Tree) returns (q: Ptr)
      requires Heap(m, t) && t.Node? && t.a == p && Kid(t, !d).Node? && Mins(t)
      modifies this`m
      ensures q == Kid(t, !d).a
      ensures Heap(m, Rotated1(t, d, t.balance, Kid(t, !d).balance)) && Only(old(m), m, Foot(t))
    {
      hide Heap, Foot, Mins, MinOf;
      Pieces1(m, t, d);
      q := Child(m[p], !d);
      var s, size := m[p].s, m[p].size;
      m := m[p := m[p].(size := m[p].size - (m[q].size - SizeAt(m, Child(m[q], d))))];
      m := m[q := m[q].(size := size)];
      UpdateMin(p, Child(m[p], d), Child(m[q], d));
      m := m[q := m[q].(s := s)];
      m := m[p := WithChild(m[p], !d, Child(m[q], d))];
      m := m[q := WithChild(m[q], d, p)];
      Rotation1Lies(old(m), m, t, d, t.balance, Kid(t, !d).balance);
    }

    /** `(a,((b,c)r,d)q)p => ((a,b)p,(c,d)q)r` or its mirror image, balances included. */
    method Rotate2(p: Addr, d: bool, ghost t: Tree) returns (r: Ptr)
      requires Heap(m, t) && t.Node? && t.a == p && Kid(t, !d).Node? && Kid(Kid(t, !d), d).Node? && Mins(t)
      modifies this`m
      ensures r == Kid(Kid(t, !d), d).a
      ensures Heap(m, Rotated2(t, d)) && Only(old(m), m, Foot(t))
    {
      hide Heap, Foot, Mins, MinOf;
      Pieces2(m, t, d);
      var q := Child(m[p], !d);
      r := Child(m[q], d);
      Recount2(p, q, r, d);
      Relink2(p, q, r, d);
      Rebalance2(p, q, r, d);
      Rotation2Lies(old(m), m, t, d);
    }

    /** The sizes of a double rotation; `n` is the size of the lower node's child on side `d`. */
    method Resize2(p: Addr, q: Addr, r: Addr, n: int)
      requires p in m && q in m && r in m && p != q && p != r && q != r
      modifies this`m
      ensures Only(old(m), m, {p, q, r})
      ensures m[p] == old(m[p]).(size := old(m[p].size - (m[q].size - n)))
      ensures m[q] == old(m[q]).(size := old(m[q].size - (n + 1)))
      ensures m[r] == old(m[r]).(size := old(m[p].size))
    {
      m := m[r := m[r].(size := m[p].size)];
      m := m[p := m[p].(size := m[p].size - (m[q].size - n))];
      m := m[q := m[q].(size := m[q].size - (n + 1))];
    }

    /** The sizes and least nodes of a double rotation. */
    method Recount2(p: Addr, q: Addr, r: Addr, d: bool)
      requires p in m && q in m && r in m && p != q && p != r && q != r
      requires var s := {p, q, r};
               && Aside(m, Child(m[p], d), s) && Aside(m, Child(m[q], !d), s) && Aside(m, Child(m[r], d), s)
                 && Aside(m, Child(m[r], !d), s)
      modifies this`m
      ensures Only(old(m), m, {p, q, r})
      ensures var a, b, c, e := MinAt(old(m), old(Child(m[p], d))), MinAt(old(m), old(Child(m[r], d))),
                                MinAt(old(m), old(Child(m[r], !d))), MinAt(old(m), old(Child(m[q], !d)));
              var n := SizeAt(old(m), old(Child(m[r], d)));
              && m[p] == old(m[p]).(size := old(m[p].size - (m[q].size - n)), s := MinOf(p, a, b))
              && m[q] == old(m[q]).(size := old(m[q].size - (n + 1)), s := MinOf(q, e, c))
              && m[r] == old(m[r]).(size := old(m[p].size), s := old(m[p].s))
    {
      hide MinOf, Child;
      var s := m[p].s;
      var a, b, c, e := Child(m[p], d), Child(m[r], d), Child(m[r], !d), Child(m[q], !d);
      var n := SizeAt(m, b);
      Resize2(p, q, r, n);
      UpdateMin(p, a, b);
      UpdateMin(q, e, c);
      m := m[r := m[r].(s := s)];
    }

    /** The links of a double rotation. */
    method Relink2(p: Addr, q: Addr, r: Addr, d: bool)
      requires p in m && q in m && r in m && p != q && p != r && q != r
      modifies this`m
      ensures Only(old(m), m, {p, q, r})
      ensures m[p] == WithChild(old(m[p]), !d, Child(old(m[r]), d))
      ensures m[q] == WithChild(old(m[q]), d, Child(old(m[r]), !d))
      ensures m[r] == WithChild(WithChild(old(m[r]), d, p), !d, q)
    {
      m := m[p := WithChild(m[p], !d, Child(m[r], d))];
      m := m[r := WithChild(m[r], d, p)];
      m := m[q := WithChild(m[q], d, Child(m[r], !d))];
      m := m[r := WithChild(m[r], !d, q)];
    }

    /** The balances of a double rotation: what the lower node leaned to is now on one side only. */
    method Rebalance2(p: Addr, q: Addr, r: Addr, d: bool)
      requires p in m && q in m && r in m && p != q && p != r && q != r
      modifies this`m
      ensures Only(old(m), m, {p, q, r})
      ensures var b1, b := if d then -1 else 1, old(m[r].balance);
              && m[p] == old(m[p]).(balance := if b == b1 then -b1 else 0)
              && m[q] == old(m[q]).(balance := if b == b1 || b == 0 then 0 else b1)
              && m[r] == old(m[r]).(balance := 0)
    {
      var b1 := if !d then 1 else -1;
      if m[r].balance == b1 {
        m := m[q := m[q].(balance := 0)];
        m := m[p := m[p].(balance := -b1)];
      } else if m[r].balance == 0 {
        m := m[q := m[q].(balance := 0)];
        m := m[p := m[p].(balance := 0)];
      } else {
        m := m[q := m[q].(balance := b1)];
        m := m[p := m[p].(balance := 0)];
      }
      m := m[r := m[r].(balance := 0)];
    }

    /** Rotates at the last leaning node if it leans by 2 now, and hangs the result on its parent `bq`. */
    method Rebalance(bp: Ptr, bq: Ptr, ghost c: seq<Frame>, ghost u: Tree, ghost was: int, ghost h: nat)
        returns (ghost t: Tree)
      requires Lies(m, c, u) && Sized(Plug(c, u)) && Mins(Plug(c, u))
      requires HeightsTo(c, h) && RaisedTo(u, was, h) && (was == 0 ==> c == [])
      requires bp == Root(u) && bq == (if c == [] then Null else Last(c).a) && root == Root(Plug(c, u))
      modifies this`m, this`root
      ensures Heap(m, t) && root == Root(t) && Sized(t) && Balanced(t) && Mins(t) && Seq(t) == Seq(Plug(c, u))
      ensures Only(old(m), m, Foot(u) + PathFoot(c))
    {
      assert u.Node? && u.a in m && m[u.a] == HeadOf(u) && -2 <= u.balance <= 2;
      hide Plug, PathFoot, Foot, Seq, HeightsTo, Sized, Mins, Balanced, RaisedTo, Turned;
      if m[bp].balance > -2 && m[bp].balance < 2 {
        RaisedBalanced(c, u, was, h);
        LiesWhole(m, c, u);
        return Plug(c, u);
      }
      ghost var u' := Turned(u, u.balance < 0);
      RaisedLeans(c, u, was, h);
      TurnedGood(u, u.balance < 0, was, h);
      Rotated(c, u, u', h);
      var r := RotateAt(bp, u);
      Hang(bq, bp, r, old(m), c, u, u');
      LiesWhole(m, c, u');
      t := Plug(c, u');
    }

    /** The rotation of a subtree that leans by 2 to where a leaf was added. */
    method RotateAt(bp: Addr, ghost u: Tree) returns (r: Ptr)
      requires Heap(m, u) && u.Node? && bp == u.a && Mins(u)
      requires var d := u.balance < 0;
               Kid(u, !d).Node? && (Kid(u, !d).balance == (if d then -1 else 1) || Kid(Kid(u, !d), d).Node?)
      modifies this`m
      ensures var u' := Turned(u, u.balance < 0);
              r == Root(u') && Heap(m, u') && Only(old(m), m, Foot(u))
    {
      var which := m[bp].balance < 0;
      var b1 := if !which then 1 else -1;
      var q := Child(m[bp], !which);
      HeapParts(m, u, which);
      hide Heap, Foot, Mins, MinOf;
      if m[q].balance == b1 {
        r := Rotate1(bp, which, u);
        BalancesSet(m, u, which, u.balance, Kid(u, !which).balance, 0, 0);
        m := m[bp := m[bp].(balance := 0)];
        m := m[q := m[q].(balance := 0)];
        RotationFoot(u, which);
      } else {
        r := Rotate2(bp, which, u);
      }
    }

    /** Hangs `r`, the new root of a subtree whose root was `bp`, on its parent `bq`. */
    method Hang(bq: Ptr, bp: Ptr, r: Ptr, ghost was: Memory, ghost c: seq<Frame>, ghost u: Tree, ghost u': Tree)
      requires Lies(was, c, u) && u.Node? && Heap(m, u') && Foot(u') == Foot(u) && Only(was, m, Foot(u))
      requires bp == Root(u) && r == Root(u') && bq == (if c == [] then Null else Last(c).a) && root == Root(Plug(c, u))
      modifies this`m, this`root
      ensures Lies(m, c, u') && root == Root(Plug(c, u')) && Only(old(m), m, PathFoot(c))
    {
      RootOfPlug(c, u);
      RootOfPlug(c, u');
      if bq == Null {
        root := r;
      } else {
        Hung(was, m, c, u, u');
        m := m[bq := WithChild(m[bq], bp != m[bq].l, r)];
      }
    }

    /** Writes the new node `x` and hangs it on side `which` of `q`, or makes it the root. */
    method Link(x: Addr, q: Ptr, which: bool, ghost c: seq<Frame>)
      requires Lies(m, c, Nil) && x !in PathFoot(c) && HangsAt(c, q, which) && root == Root(Plug(c, Nil))
      modifies this`m, this`root
      ensures Lies(m, c, Leaf(x)) && root == Root(Plug(c, Leaf(x)))
      ensures m.Keys == old(m).Keys + {x} && forall a :: a in old(m) && a !in PathFoot(c) + {x} ==> m[a] == old(m)[a]
    {
      RootOfPlug(c, Nil);
      RootOfPlug(c, Leaf(x));
      m := m[x := Head(Null, Null, x, 0, 1)];
      if q == Null {
        root := x;
      } else {
        FrameAt(old(m), c, Null, |c| - 1);
        m := m[q := WithChild(m[q], which, x)];
      }
      Rehang(old(m), m, c, Nil, Leaf(x));
    }

    /** The three passes over the path and the rotation, after the new leaf is linked. */
    method Restore(path: array<Addr>, stack: array<bool>, n: nat, x: Addr, bp: Ptr, bq: Ptr, ghost c: seq<Frame>,
                   ghost b: int) returns (ghost t: Tree)
      requires c != [] && Lies(m, c, Leaf(x)) && root == Root(Plug(c, Leaf(x)))
      requires Sized(Plug(c, Nil)) && Balanced(Plug(c, Nil)) && Mins(Plug(c, Nil))
      requires n == |c| && OnPath(path[..], c) && Turns(stack[..], c, b) && LeansAt(c, Nil, b, bp, bq)
      modifies this`m, this`root
      ensures Heap(m, t) && root == Root(t) && Sized(t) && Balanced(t) && Mins(t) && Seq(t) == Pre(c) + [x] + Post(c)
      ensures Only(old(m), m, PathFoot(c) + {x})
    {
      RootOfPlug(c, Leaf(x));
      hide Plug, Lies, Seq, Pre, Post, Sized, Balanced, Mins, RaisedTo, HeightsTo, Foot, PathFoot, Turns, OnPath;
      hide Level, Ht;
      ghost var c1 := Resize(path, 0, n, 1, c, Leaf(x));
      PathKept(path[..], stack[..], c, c1, b);
      MinsAfterSizes(c, c1);
      ghost var c2 := MinsUp(path, n, x, c1);
      PathKept(path[..], stack[..], c1, c2, b);
      ghost var c3 := TiltPath(bp, x, stack, c2, b);
      InsertPasses(c, c1, c2, c3, b, x);
      ghost var u := Plug(c3[b..], Leaf(x));
      FromPosition(m, c3, b, Leaf(x));
      LeafSeq(x);
      t := Rebalance(bp, bq, c3[..b], u, c[b].balance, Ht(Plug(c[b..], Nil)));
    }

    /**
      Adds `x` unless a node with its key is there, in which case that node is returned and nothing is
      written. `cnt` is the number of nodes, not counting `x` itself, with keys up to its key.
     */
    method Insert(x: Addr) returns (r: Ptr, cnt: int)
      requires Valid() && (HasKey(Nodes(), x.key) || |Nodes()| < MAX_SIZE)
      modifies this
      ensures Valid() && Rank(old(Nodes()), x.key, cnt)
      ensures old(HasKey(Nodes(), x.key)) ==>
                && cnt > 0 && r == old(Nodes())[cnt - 1] && r.key == x.key
                && m == old(m) && root == old(root) && Nodes() == old(Nodes())
      ensures !old(HasKey(Nodes(), x.key)) ==>
                && r == x && Nodes() == old(Nodes())[..cnt] + [x] + old(Nodes())[cnt..]
                && m.Keys == old(m).Keys + {x}
                && forall a :: a in old(m) && a !in old(Nodes()) && a != x ==> m[a] == old(m)[a]
    {
      hide Seq, Sorted, Sized, Balanced, Mins, Heap, PathFoot, Turns, OnPath, Pre, Post, Plug, Lies, Rank, HasKey;
      var path, stack := new Addr[MAX_DEPTH], new bool[MAX_DEPTH];
      var p, q, which, bp, bq, n;
      ghost var c, t, b;
      p, q, which, bp, bq, n, cnt, c, t, b := Descend(x, path, stack);
      if p != Null {
        EndsFound(m, tree, c, t, x.key);
        return p, cnt;
      }
      EndsMissed(m, tree, c, x.key);
      Absent(tree, c, x);
      InsertedNodes(Pre(c), x, Post(c));
      Add(x, path, stack, n, q, which, bp, bq, c, b);
      return x, cnt;
    }

    /** Adds a node whose key is not in the tree. */
    method Add(x: Addr, path: array<Addr>, stack: array<bool>, n: nat, q: Ptr, which: bool, bp: Ptr, bq: Ptr,
               ghost c: seq<Frame>, ghost b: int)
      requires Lies(m, c, Nil) && Plug(c, Nil) == tree && root == Root(tree) && Sized(tree) && Balanced(tree)
          && Mins(tree)
      requires n == |c| && OnPath(path[..], c) && HangsAt(c, q, which) && LeansAt(c, Nil, b, bp, bq)
          && Turns(stack[..], c, b)
      requires x !in PathFoot(c)
      modifies this
      ensures Heap(m, tree) && root == Root(tree) && Sized(tree) && Balanced(tree) && Mins(tree)
      ensures Seq(tree) == Pre(c) + [x] + Post(c)
      ensures m.Keys == old(m).Keys + {x}
      ensures forall a :: a in old(m) && a !in PathFoot(c) && a != x ==> m[a] == old(m)[a]
    {
      hide Seq, Sized, Balanced, Mins, Heap, PathFoot, Turns, OnPath;
      LeafSeq(x);
      Link(x, q, which, c);
      if bp == Null {
        LiesWhole(m, c, Leaf(x));
        tree := Leaf(x);
      } else {
        tree := Restore(path, stack, n, x, bp, bq, c, b);
      }
    }

    // -------------------------------------------------------------- removal

    /** The right child `q` of `p` has no left one: it takes the place of `p`. */
    method SucceedNear(path: array<Addr>, dir: array<bool>, d0: nat, p: Addr, q: Addr, ghost c: seq<Frame>,
                       ghost t: Tree) returns (d: nat)
      requires Lies(m, c, t) && t.Node? && t.a == p && t.r.Node? && t.r.a == q && t.r.l.Nil? && c != []
      requires d0 == |c| && |c| < path.Length == dir.Length && OnPath(path[..], c) && Turns(dir[..], c, 0)
      modifies this`m, path, dir
      ensures var c' := c + [Successor(t, t.r)];
              d == |c'| && Lies(m, c', t.r.r) && OnPath(path[..], c') && Turns(dir[..], c', 0)
      ensures Only(old(m), m, PathFoot(c) + Foot(t))
    {
      ghost var was, f := m, Successor(t, t.r);
      FrameAt(m, c, p, |c| - 1);
      SuccessorOld(t, [], t.r);
      HeapParts(m, t, true);
      HeapParts(m, t.r, true);
      PathLast(path[..], dir[..], c);
      var up := path[d0 - 1];
      hide Plug, PathFoot, Foot, Heap, Lies, OnPath, Turns, Along;
      m := m[q := m[q].(l := m[p].l)];
      m := m[q := m[q].(balance := m[p].balance)];
      m := m[up := WithChild(m[up], dir[d0 - 1], q)];
      m := m[q := m[q].(size := m[p].size - 1)];
      Push(path, dir, d0, d0, q, true, c, 0, f);
      d := d0 + 1;
      assert Moved(was, m, c, t, [], t.r, f);
      SuccessorLies(was, m, c, t, [], t.r, f);
      assert c + [f] + [] == c + [f];
    }

    /** Down the left side of the subtree `t` to its first node `r`, whose parent is `q`. */
    method LeftSpine(path: array<Addr>, dir: array<bool>, d0: nat, q0: Addr, ghost t: Tree)
      returns (d: nat, q: Addr, r: Addr, ghost c: seq<Frame>, ghost u: Tree)
      requires Heap(m, t) && t.Node? && t.l.Node? && q0 == t.a && d0 + Ht(t) <= path.Length == dir.Length
      modifies path, dir
      ensures t == Plug(c, u) && u.Node? && u.l.Nil? && c != [] && AllLeft(c) && q == Last(c).a && r == u.a
          && d == d0 + |c| <= path.Length
      ensures OnPath(path[d0..], c) && Turns(dir[d0..], c, 0) && path[..d0] == old(path[..d0])
          && dir[..d0] == old(dir[..d0])
    {
      d, q, r := d0, q0, q0;
      c, u := [], t;
      while true
        invariant t == Plug(c, u) && Heap(m, u) && u.Node? && u.l.Node? && q == u.a && AllLeft(c)
        invariant d == d0 + |c| && d + Ht(u) <= path.Length
        invariant OnPath(path[d0..], c) && Turns(dir[d0..], c, 0) && path[..d0] == old(path[..d0])
            && dir[..d0] == old(dir[..d0])
        decreases Ht(u)
      {
        ghost var f, paths, turns := FrameOf(u, false), path[d0..], dir[d0..];
        PlugMore(c, f, u.l);
        dir[d] := false;
        path[d] := q;
        assert path[d0..] == paths[|c| := f.a] && dir[d0..] == turns[|c| := false];
        OnPathMore(paths, c, f);
        TurnsMore(turns, c, 0, f);
        d := d + 1;
        r := m[q].l;
        c, u := c + [f], u.l;
        if m[r].l == Null { break; }
        q := r;
      }
    }

    /** The links of a removal: the successor `r`, below `q`, takes the place of `p`. */
    method Transplant(up: Addr, right: bool, p: Addr, q: Addr, r: Addr, ghost c: seq<Frame>, ghost t: Tree,
                      ghost d: seq<Frame>, ghost u: Tree)
      requires Lies(m, c, t) && c != [] && t.Node? && t.a == p && u.Node? && u.l.Nil? && t.r == Plug(d, u)
          && d != [] && AllLeft(d)
      requires up == Last(c).a && right == Last(c).right && q == Last(d).a && r == u.a
      modifies this`m
      ensures var f := Frame(r, u.s, t.balance, u.size, true, t.l);
              && Lies(m, c + [f] + d, u.r)
              && PathFoot(c + [f] + d) + Foot(u.r) <= PathFoot(c) + Foot(t) - {p}
      ensures Only(old(m), m, PathFoot(c) + Foot(t) - {p}) && p in m && m[p].size == t.size
    {
      ghost var was, f := m, Frame(r, u.s, t.balance, u.size, true, t.l);
      SpineParts(m, c, t, d, u);
      hide Plug, PathFoot, Foot, Heap, Lies;
      m := m[r := m[r].(l := m[p].l)];
      m := m[q := m[q].(l := m[r].r)];
      m := m[r := m[r].(r := m[p].r)];
      m := m[r := m[r].(balance := m[p].balance)];
      m := m[up := WithChild(m[up], right, r)];
      SuccessorLies(was, m, c, t, d, u, f);
    }

    /** The first node on the right of `p` takes the place of `p`. */
    method SucceedFar(path: array<Addr>, dir: array<bool>, d0: nat, p: Addr, q0: Addr, ghost c: seq<Frame>,
                      ghost t: Tree)
      returns (d: nat, ghost s: seq<Frame>, ghost u: Tree, ghost s': seq<Frame>)
      requires Lies(m, c, t) && c != [] && t.Node? && t.a == p && t.r.Node? && t.r.a == q0 && t.r.l.Node?
      requires d0 == |c| && |c| + Ht(t) <= path.Length == dir.Length && OnPath(path[..], c) && Turns(dir[..], c, 0)
      modifies this`m, path, dir
      ensures u.Node? && u.l.Nil? && t.r == Plug(s, u) && AllLeft(s) && OneLess(s, s') && SamePlaces(s, s')
      ensures var c' := c + [Successor(t, u)] + s';
              d == |c'| && Lies(m, c', u.r) && OnPath(path[..], c') && Turns(dir[..], c', 0)
      ensures Only(old(m), m, PathFoot(c) + Foot(t))
    {
      var e, q, r := d0, q0, q0;
      d := d0 + 1;
      PathPrefix(path[..], dir[..], c);
      d, q, r, s, u := LeftSpine(path, dir, d, q0, t.r);
      ghost var paths, turns := path[..], dir[..];
      ghost var f := Frame(r, u.s, t.balance, u.size, true, t.l);
      SpineStart(paths, turns, c);
      hide Plug, PathFoot, Foot, Heap, Lies, OnPath, Turns, OneLess, SamePlaces, AllLeft, Ht;
      Transplant(path[e - 1], dir[e - 1], p, q, r, c, t, s, u);
      path[e] := r;
      dir[e] := true;
      PathJoined(paths, turns, path[..], dir[..], c, f, s);
      s' := SpineSizes(path, dir, e, d, p, r, c, f, s, u.r, Successor(t, u));
    }

    /** The sizes below the successor `r`, and its own, one less than that of the removed node `p`. */
    method SpineSizes(path: array<Addr>, dir: array<bool>, e: nat, d: nat, p: Addr, r: Addr, ghost c: seq<Frame>,
                      ghost f: Frame, ghost s: seq<Frame>,
                      ghost h: Tree, ghost g: Frame) returns (ghost s': seq<Frame>)
      requires Lies(m, c + [f] + s, h) && e == |c| && d == e + 1 + |s| && OnPath(path[..], c + [f] + s)
          && Turns(dir[..], c + [f] + s, 0)
      requires r == f.a && p in m && p !in PathFoot(c + [f] + s) && SamePlace(f, g) && g == f.(size := m[p].size - 1)
      modifies this`m
      ensures OneLess(s, s') && SamePlaces(s, s') && OnPath(path[..], c + [g] + s') && Turns(dir[..], c + [g] + s', 0)
      ensures Lies(m, c + [g] + s', h) && |s'| == |s| && Only(old(m), m, PathFoot(c + [f] + s))
    {
      hide Plug, PathFoot, Foot, Heap, Lies, OnPath, Turns, OneLess, SamePlaces;
      ghost var c' := Resize(path, e + 1, d, -1, c + [f] + s, h);
      s' := c'[|c| + 1..];
      SpineResized(path[..], dir[..], c, f, s, c', g);
      SetFrame(m, c', h, |c|, g);
      m := m[r := m[r].(size := m[p].size - 1)];
    }

    /** Takes the node `p` out of the tree, at the end of the path `c` below the frame `f` of the local node. */
    method Detach(path: array<Addr>, dir: array<bool>, d0: nat, p: Addr, ghost f: Frame, ghost c: seq<Frame>,
                  ghost t: Tree)
      returns (d: nat, ghost c': seq<Frame>, ghost h: Tree)
      requires Lies(m, [f] + c, t) && t.Node? && t.a == p && Well(Plug(c, t))
      requires d0 == |c| + 1 && d0 + Ht(t) <= path.Length == dir.Length && OnPath(path[..], [f] + c)
          && Turns(dir[..], [f] + c, 0)
      modifies this`m, path, dir
      ensures Lies(m, [f] + c', h) && d == |c'| + 1 && OnPath(path[..], [f] + c') && Turns(dir[..], [f] + c', 0)
      ensures Detached(Seq(Plug(c, t)), |Pre(c)| + |Seq(t.l)|, p, c', h)
      ensures Only(old(m), m, PathFoot([f] + c) + Foot(t))
    {
      HtPositive(t);
      hide Plug, PathFoot, Foot, Heap, Lies, OnPath, Turns, OneLess, SamePlaces, Well, Detached, AllLeft, Seq, Pre;
      ghost var e := Resize(path, 1, d0, -1, [f] + c, t);
      ghost var c1 := e[1..];
      PathResized(path[..], dir[..], f, c, e);
      HeadAt(m, [f] + c1, t);
      if m[p].r == Null {
        var up := path[d0 - 1];
        PathLast(path[..], dir[..], [f] + c1);
        Unlinked(m, [f] + c1, t, false);
        m := m[up := WithChild(m[up], dir[d0 - 1], m[p].l)];
        DetachedAlone(c, c1, t);
        return d0, c1, t.l;
      }
      d, c', h := Supersede(path, dir, d0, p, f, c, c1, t);
    }

    /** Puts the successor of `p`, which has a right child, in its place; `c1` is the path with its sizes reduced. */
    method Supersede(path: array<Addr>, dir: array<bool>, d0: nat, p: Addr, ghost f: Frame, ghost c: seq<Frame>,
                     ghost c1: seq<Frame>, ghost t: Tree)
      returns (d: nat, ghost c': seq<Frame>, ghost h: Tree)
      requires Lies(m, [f] + c1, t) && t.Node? && t.r.Node? && t.a == p && Well(Plug(c, t)) && OneLess(c, c1)
          && SamePlaces(c, c1)
      requires d0 == |c1| + 1 && d0 + Ht(t) <= path.Length == dir.Length && OnPath(path[..], [f] + c1)
          && Turns(dir[..], [f] + c1, 0)
      modifies this`m, path, dir
      ensures Lies(m, [f] + c', h) && d == |c'| + 1 && OnPath(path[..], [f] + c') && Turns(dir[..], [f] + c', 0)
      ensures Detached(Seq(Plug(c, t)), |Pre(c)| + |Seq(t.l)|, p, c', h)
      ensures Only(old(m), m, PathFoot([f] + c1) + Foot(t))
    {
      HtPositive(t);
      HtPositive(t.r);
      hide Plug, PathFoot, Foot, Heap, Lies, OnPath, Turns, OneLess, SamePlaces, Well, Detached, AllLeft, Seq, Pre;
      hide Ht, Only;
      HeadAt(m, [f] + c1, t);
      var q := m[p].r;
      if m[q].l == Null {
        d := SucceedNear(path, dir, d0, p, q, [f] + c1, t);
        c', h := c1 + [Successor(t, t.r)] + [], t.r.r;
        Appended(f, c1, Successor(t, t.r), []);
        NoSpine(t);
        DetachedWithSuccessor(c, c1, t, [], t.r, []);
      } else {
        ghost var s, u, s';
        d, s, u, s' := SucceedFar(path, dir, d0, p, q, [f] + c1, t);
        c', h := c1 + [Successor(t, u)] + s', u.r;
        Appended(f, c1, Successor(t, u), s');
        DetachedWithSuccessor(c, c1, t, s, u, s');
      }
    }

    /** The least nodes on the whole path, from its end up. */
    method MinsAll(path: array<Addr>, n: nat, ghost c: seq<Frame>, ghost t: Tree) returns (ghost c': seq<Frame>)
      requires Lies(m, c, t) && OnPath(path[..], c) && n == |c| && SidesMins(c) && Mins(t)
      modifies this`m
      ensures Lies(m, c', t) && PathFoot(c') == PathFoot(c) && Only(old(m), m, PathFoot(c))
      ensures Mins(Plug(c', t)) && NewMins(c, c')
    {
      c' := c;
      assert c[n..] == [] && NewMins(c, c');
      var i := n - 1;
      assert Mins(Plug(c'[i + 1..], t));
      hide Lies, PathFoot, Mins, SidesMins, NewMins, NewMin, Plug, OnPath, Only, MinsTo, Heap;
      OnlySelf(m, PathFoot(c));
      while i >= 0
        invariant -1 <= i < n
        invariant Lies(m, c', t) && PathFoot(c') == PathFoot(c) && Only(old(m), m, PathFoot(c))
        invariant |c'| == n && NewMins(c, c') && SidesMins(c') && Mins(Plug(c'[i + 1..], t))
      {
        ghost var was := m;
        OnPathAt(path[..], c, i);
        MinsStepUp(c', t, i);
        NewMinsStep(c, c', i, NewMin(c'[i], Plug(c'[i + 1..], t)));
        c' := UpdateMinAt(path[i], i, c', t);
        OnlyTrans(old(m), was, m, PathFoot(c));
        i := i - 1;
      }
      assert c'[0..] == c';
    }

    /** One step of the way up after a removal; `stop` says that the height is what it was. */
    method SettleAt(q: Addr, which: bool, up: Addr, right: bool, ghost c: seq<Frame>, ghost g: Frame, ghost u: Tree)
        returns (stop: bool)
      requires Lies(m, c + [g], u) && c != [] && q == g.a && which == g.right && up == Last(c).a
          && right == Last(c).right
      requires var v, b1 := Lowered(g, u), if g.right then -1 else 1;
               Mins(v) && (v.balance == 0 || v.balance == b1 || v.balance == 2 * b1)
                   && (v.balance == 2 * b1 ==> Leans(v, g.right))
      modifies this`m
      ensures var v := Lowered(g, u); Lies(m, c, Settled(v, g.right)) && stop == SameHeight(v, g.right)
      ensures Only(old(m), m, PathFoot(c + [g]) + Foot(u))
    {
      ghost var v := Lowered(g, u);
      hide Lies, PathFoot, Foot, Plug, Mins, Leans;
      var b1, b2 := 1, 2;
      if which { b1, b2 := -b1, -b2; }
      LoweredLies(m, c, g, u);
      m := m[q := m[q].(balance := m[q].balance + b1)];
      if m[q].balance == b1 { return true; }
      if m[q].balance == b2 {
        stop := RotateBack(q, which, up, right, c, v);
      } else {
        stop := false;
      }
    }

    /** The rotation of a node that leans by 2 after a removal. */
    method RotateBack(q: Addr, which: bool, up: Addr, right: bool, ghost c: seq<Frame>, ghost v: Tree)
        returns (stop: bool)
      requires Lies(m, c, v) && c != [] && v.Node? && q == v.a && up == Last(c).a && right == Last(c).right
          && Leans(v, which)
      modifies this`m
      ensures Lies(m, c, Settled(v, which)) && stop == SameHeight(v, which)
      ensures Only(old(m), m, PathFoot(c) + Foot(v))
    {
      var b1 := if which then -1 else 1;
      BackParts(m, c, v, which);
      hide Lies, PathFoot, Foot, Plug, Mins, Heap, Leans, Balanced, Only;
      var r := Child(m[q], !which);
      if m[r].balance == -b1 {
        RotateBack2(q, which, up, right, c, v);
        return false;
      }
      stop := RotateBack1(q, r, which, up, right, c, v);
    }

    method RotateBack2(q: Addr, which: bool, up: Addr, right: bool, ghost c: seq<Frame>, ghost v: Tree)
      requires Lies(m, c, v) && c != [] && v.Node? && q == v.a && up == Last(c).a && right == Last(c).right && Mins(v)
      requires Kid(v, !which).Node? && Kid(Kid(v, !which), which).Node?
      modifies this`m
      ensures Lies(m, c, Rotated2(v, which)) && Only(old(m), m, PathFoot(c) + Foot(v))
    {
      ghost var was := m;
      assert Heap(m, v);
      hide Lies, PathFoot, Foot, Plug, Mins, Heap;
      var x := Rotate2(q, which, v);
      RotatedOrder2(v, which);
      HungBelow(was, m, c, v, Rotated2(v, which));
      m := m[up := WithChild(m[up], right, x)];
    }

    method RotateBack1(q: Addr, r: Addr, which: bool, up: Addr, right: bool, ghost c: seq<Frame>, ghost v: Tree)
        returns (stop: bool)
      requires Lies(m, c, v) && c != [] && v.Node? && q == v.a && up == Last(c).a && right == Last(c).right && Mins(v)
      requires Kid(v, !which).Node? && r == Kid(v, !which).a
      modifies this`m
      ensures stop <==> Kid(v, !which).balance == 0
      ensures var b := if stop then (if which then -1 else 1) else 0; Lies(m, c, Rotated1(v, which, b, -b))
      ensures Only(old(m), m, PathFoot(c) + Foot(v))
    {
      ghost var y := Kid(v, !which).balance;
      var b1 := if which then -1 else 1;
      hide Lies, PathFoot, Foot, Plug, Mins, Heap;
      RotateHang1(q, which, up, right, c, v);
      LiesHeap(m, c, Rotated1(v, which, v.balance, y));
      RotatedHead(m, v, which, y);
      stop := m[r].balance == 0;
      var x', y' := if stop then b1 else 0, if stop then -b1 else 0;
      BalancesSetBelow(m, c, v, which, v.balance, y, x', y');
      RotatedOrder1(v, which, v.balance, y);
      m := m[q := m[q].(balance := x')];
      m := m[r := m[r].(balance := y')];
    }

    method RotateHang1(q: Addr, which: bool, up: Addr, right: bool, ghost c: seq<Frame>, ghost v: Tree)
      requires Lies(m, c, v) && c != [] && v.Node? && q == v.a && up == Last(c).a && right == Last(c).right && Mins(v)
      requires Kid(v, !which).Node?
      modifies this`m
      ensures Lies(m, c, Rotated1(v, which, v.balance, Kid(v, !which).balance))
          && Only(old(m), m, PathFoot(c) + Foot(v))
    {
      ghost var was, y := m, Kid(v, !which).balance;
      assert Heap(m, v);
      hide Lies, PathFoot, Foot, Plug, Mins, Heap;
      var x := Rotate1(q, which, v);
      RotatedOrder1(v, which, v.balance, y);
      HungBelow(was, m, c, v, Rotated1(v, which, v.balance, y));
      m := m[up := WithChild(m[up], right, x)];
    }

    /** The way up after a removal, to the local node `f` or to the first node whose height is what it was. */
    method Settle(path: array<Addr>, dir: array<bool>, d0: nat, ghost f: Frame, ghost c: seq<Frame>, ghost h: Tree,
                  ghost s: seq<Addr>)
      returns (ghost t: Tree)
      requires Lies(m, [f] + c, h) && Climbing(s, c, h) && d0 == |c| + 1
      requires OnPath(path[..], [f] + c) && Turns(dir[..], [f] + c, 0)
      modifies this`m
      ensures Lies(m, [f], t) && Well(t) && Seq(t) == s
      ensures Only(old(m), m, PathFoot([f] + c) + Foot(h))
    {
      var d := d0 - 1;
      ghost var u := h;
      assert c[..d] == c && [f] + [] == [f];
      hide Lies, PathFoot, Foot, Plug, Mins, Heap, Leans, OnPath, Turns, Only, Climbing, Well, Seq, Settled;
      hide SameHeight, Lowered;
      OnlySelf(m, PathFoot([f] + c) + Foot(h));
      ghost var whole := PathFoot([f] + c) + Foot(h);
      while d > 0
        invariant 0 <= d <= |c|
        invariant Lies(m, [f] + c[..d], u) && Climbing(s, c[..d], u)
        invariant Only(old(m), m, whole) && PathFoot([f] + c[..d]) + Foot(u) == whole
      {
        ghost var b, g, was := c[..d - 1], c[d - 1], m;
        CutLast(path[..], dir[..], f, c, d);
        ClimbStep(s, b, g, u);
        LoweredFoot(m, [f] + b, g, u);
        var stop := SettleAt(path[d], dir[d], path[d - 1], dir[d - 1], [f] + b, g, u);
        OnlyTrans(old(m), was, m, whole);
        u := Settled(Lowered(g, u), g.right);
        if stop {
          LiesPlug(m, [f], b, u);
          return Plug(b, u);
        }
        d := d - 1;
      }
      assert c[..0] == [];
      ClimbEnd(s, u);
      return u;
    }

    /**
      The path to the node with key `k`, from the local node `fake` above the root on. The first round
      of the source's loop, which always goes left from `fake`, stands before the loop.
     */
    method Seek(k: int, fake: Addr, path: array<Addr>, dir: array<bool>, ghost f: Frame)
      returns (p: Ptr, d: nat, cnt: int, ghost c: seq<Frame>, ghost t: Tree)
      requires Lies(m, [f], tree) && f.a == fake && !f.right && Good(tree) && |Seq(tree)| <= MAX_SIZE
      requires path.Length == dir.Length == MAX_DEPTH
      modifies path, dir
      ensures p == Root(t) && Sought(m, tree, c, t, k) && |c| + Ht(t) <= 45
      ensures t.Node? ==>
                && t.a.key == k && cnt == |Pre(c)| + |Seq(t.l)| + 1
                && Lies(m, [f] + c, t) && d == |c| + 1 && OnPath(path[..], [f] + c) && Turns(dir[..], [f] + c, 0)
    {
      cnt, c, t := 0, [], tree;
      FakeAbove(m, f, tree);
      SoughtAll(m, tree, k);
      DepthBound(tree);
      assert OnPath(path[..], []) && Turns(dir[..], [], 0);
      NoFrames(f, tree);
      hide Seq, Plug, Pre, Post, Heap, Lies, Sorted, Sized, Balanced, Mins, OnPath, Turns, Sought, Ht;
      Push(path, dir, 0, 0, fake, false, [], 0, f);
      p, d := m[fake].l, 1;
      if p == Null { return; }
      var cmp := Cmp(k, p.key);
      while cmp != 0
        invariant Sought(m, tree, c, t, k) && |c| + Ht(t) <= 45 && cnt == |Pre(c)|
        invariant d == |c| + 1 && t.Node? && p == t.a && cmp == Cmp(k, p.key)
        invariant OnPath(path[..], [f] + c) && Turns(dir[..], [f] + c, 0)
        decreases Ht(t)
      {
        var which := cmp > 0;
        Down(m, tree, c, t, k);
        if cmp > 0 { cnt := cnt + SizeAt(m, m[p].l) + 1; }
        PushBelow(path, dir, d, p, which, f, c, t);
        c, t := c + [FrameOf(t, which)], Kid(t, which);
        d := d + 1;
        p := Child(m[p], which);
        if p == Null { return Null, d, 0, c, t; }
        cmp := Cmp(k, p.key);
      }
      SoughtBelow(m, tree, f, c, t, k);
      Down(m, tree, c, t, k);
      cnt := cnt + SizeAt(m, m[p].l) + 1;
    }

    /** Records one step of a search below the local node. */
    static method PushBelow(path: array<Addr>, dir: array<bool>, d: nat, p: Addr, which: bool, ghost f: Frame,
                            ghost c: seq<Frame>, ghost t: Tree)
      requires d == |c| + 1 < path.Length == dir.Length && t.Node? && p == t.a
      requires OnPath(path[..], [f] + c) && Turns(dir[..], [f] + c, 0)
      modifies path, dir
      ensures var c' := c + [FrameOf(t, which)]; OnPath(path[..], [f] + c') && Turns(dir[..], [f] + c', 0)
    {
      ghost var g := FrameOf(t, which);
      Push(path, dir, d, d, p, which, [f] + c, 0, g);
      assert [f] + c + [g] == [f] + (c + [g]);
    }

    /** The path to the first node. */
    method SeekFirst(fake: Addr, path: array<Addr>, dir: array<bool>, ghost f: Frame)
      returns (p: Addr, d: nat, ghost c: seq<Frame>, ghost t: Tree)
      requires Lies(m, [f], tree) && f.a == fake && !f.right && Good(tree) && |Seq(tree)| <= MAX_SIZE && tree.Node?
      requires path.Length == dir.Length == MAX_DEPTH
      modifies path, dir
      ensures t.Node? && t.l.Nil? && p == t.a && Pre(c) == [] && Plug(c, t) == tree && |c| + Ht(t) <= 45
      ensures Lies(m, [f] + c, t) && d == |c| + 1 && OnPath(path[..], [f] + c) && Turns(dir[..], [f] + c, 0)
    {
      c, t := [], tree;
      FakeAbove(m, f, tree);
      DepthBound(tree);
      assert OnPath(path[..], []) && Turns(dir[..], [], 0);
      NoFrames(f, tree);
      hide Seq, Pre, Post, Heap, Lies, Sorted, Sized, Balanced, Mins, OnPath, Turns, Ht, Plug, Good, Along, PathFoot;
      hide Foot;
      Push(path, dir, 0, 0, fake, false, [], 0, f);
      var q: Ptr := m[fake].l;
      d := 1;
      while q != Null
        invariant Lies(m, [f] + c, t) && Plug(c, t) == tree && |c| + Ht(t) <= 45 && Pre(c) == []
        invariant d == |c| + 1 && q == Root(t)
        invariant OnPath(path[..], [f] + c) && Turns(dir[..], [f] + c, 0)
        invariant c == [] ==> t == tree
        invariant c != [] ==> !Last(c).right
        decreases Ht(t)
      {
        PushBelow(path, dir, d, q, false, f, c, t);
        LeftMore(m, f, c, t);
        c, t := c + [FrameOf(t, false)], t.l;
        d := d + 1;
        q := m[q].l;
      }
      d := d - 1;
      PathLast(path[..], dir[..], [f] + c);
      p := path[d];
      BackOne(m, f, c, path[..], dir[..]);
      c, t := Init(c), Fill(Last(c), Nil);
      GoodBelow(tree, c, t);
    }

    /** Takes out the node at the end of the path `c` below the local node: the passes of a removal. */
    method RemoveAt(path: array<Addr>, dir: array<bool>, d0: nat, p: Addr, ghost f: Frame, ghost c: seq<Frame>,
                    ghost t: Tree)
      returns (ghost f': Frame, ghost u: Tree)
      requires Lies(m, [f] + c, t) && t.Node? && t.a == p && Plug(c, t) == tree && Well(tree) && f.sib.Nil?
      requires d0 == |c| + 1 && d0 + Ht(t) <= path.Length == dir.Length
      requires OnPath(path[..], [f] + c) && Turns(dir[..], [f] + c, 0)
      modifies this`m, path, dir
      ensures Lies(m, [f'], u) && SamePlace(f, f') && Well(u) && Dropped(Seq(tree), |Pre(c)| + |Seq(t.l)|, p, Seq(u))
      ensures Only(old(m), m, FrameFoot(f) + Foot(tree))
    {
      ghost var was, all := m, FrameFoot(f) + Foot(tree);
      FootBelow(f, c, t);
      hide Lies, PathFoot, Foot, Plug, Mins, Heap, OnPath, Turns, Only, Climbing, Well, Seq, Pre, Ht, Short, Dropped;
      hide SidesMins, NewMins;
      var d; ghost var c1, h;
      d, c1, h := Detach(path, dir, d0, p, f, c, t);
      ghost var m1 := m;
      ShortMins(f, c1, h);
      FootBelow(f, c1, h);
      DroppedFoot(tree, |Pre(c)| + |Seq(t.l)|, p, Plug(c1, h));
      ghost var e := MinsAll(path, d, [f] + c1, h);
      MinsBelow(f, c1, e, h);
      OnPathSame(path[..], dir[..], [f] + c1, e);
      f' := e[0];
      ghost var m2 := m;
      u := Settle(path, dir, d, f', e[1..], h, Seq(Plug(c1, h)));
      OnlyMore(was, m1, all, all);
      OnlyMore(m1, m2, PathFoot(e), all);
      OnlyMore(m2, m, PathFoot(e) + Foot(h), all);
      OnlyTrans(was, m1, m2, all);
      OnlyTrans(was, m2, m, all);
    }

    /**
      Takes out the node with key `k`, or with `None` the first one, and returns it; `cnt` is its rank,
      counted from 1. `fake` is the local node above the root, whose user part is never set, and `junk`
      what its other fields hold.
     */
    method Erase(k: Option<int>, fake: Addr, junk: Head) returns (r: Ptr, cnt: int)
      requires Valid() && fake !in m && (k.None? ==> Nodes() != [])
      modifies this
      ensures Valid()
      ensures Erased(old(Nodes()), k, r, cnt, Nodes())
      ensures r == Null ==> m == old(m) && root == old(root)
      ensures Elsewhere(old(m), m, old(Nodes()))
    {
      ghost var f := Frame(fake, junk.s, junk.balance, junk.size, false, Nil);
      FakeLies(m, f, tree);
      ghost var was := m;
      m := m[fake := Head(root, Null, junk.s, junk.balance, junk.size)];
      r, cnt := EraseBelow(k, fake, was, f);
    }

    /** The removal with the local node in place, which goes at the end. */
    method EraseBelow(k: Option<int>, fake: Addr, ghost was: Memory, ghost f: Frame) returns (r: Ptr, cnt: int)
      requires Good(tree) && |Seq(tree)| <= MAX_SIZE && Heap(was, tree) && root == Root(tree)
      requires fake !in was && (k.None? ==> Nodes() != [])
      requires Lies(m, [f], tree) && f.sib.Nil? && !f.right && f.a == fake && m == was[fake := FrameHead(f, Root(tree))]
      modifies this
      ensures Valid() && Erased(old(Nodes()), k, r, cnt, Nodes())
      ensures r == Null ==> m == was && root == old(root)
      ensures Elsewhere(was, m, old(Nodes()))
    {
      var path, dir := new Addr[MAX_DEPTH], new bool[MAX_DEPTH];
      hide Seq, Sorted, Sized, Balanced, Mins, Heap, PathFoot, Turns, OnPath, Pre, Post, Plug, Lies, Rank, HasKey;
      hide Dropped, Only, Ht, Erased, Good, Elsewhere, Aimed;
      var p, d; ghost var c, t;
      p, d, cnt, c, t := SeekNode(k, fake, path, dir, f);
      if p == Null {
        DropFake(fake, was, FrameHead(f, Root(tree)));
        SameElsewhere(m, Seq(tree));
        return Null, 0;
      }
      TakeOut(path, dir, d, p, fake, was, cnt, f, c, t);
      return p, cnt;
    }

    method DropFake(fake: Addr, ghost was: Memory, ghost h: Head)
      requires fake !in was && m == was[fake := h]
      modifies this`m
      ensures m == was
    {
      MapBack(was, fake, h);
      m := m - {fake};
    }

    /** The node to take out, its rank, and the path to it. */
    method SeekNode(k: Option<int>, fake: Addr, path: array<Addr>, dir: array<bool>, ghost f: Frame)
      returns (p: Ptr, d: nat, cnt: int, ghost c: seq<Frame>, ghost t: Tree)
      requires Lies(m, [f], tree) && f.a == fake && !f.right && Good(tree) && |Seq(tree)| <= MAX_SIZE
      requires path.Length == dir.Length == MAX_DEPTH && (k.None? ==> Seq(tree) != [])
      modifies path, dir
      ensures p == Null ==> Erased(Seq(tree), k, Null, 0, Seq(tree))
      ensures p != Null ==>
                && Aimed(m, tree, path[..], dir[..], d, p, cnt, f, c, t)
                && forall s :: Dropped(Seq(tree), cnt - 1, p, s) ==> Erased(Seq(tree), k, p, cnt, s)
    {
      hide Seq, Sorted, Sized, Balanced, Mins, Heap, PathFoot, Turns, OnPath, Pre, Post, Plug, Lies, Rank, HasKey;
      hide Ht, Erased, Dropped;
      if k.Some? {
        p, d, cnt, c, t := Seek(k.value, fake, path, dir, f);
        if p == Null {
          EndsMissed(m, tree, c, k.value);
          ErasedNone(Seq(tree), k);
          return;
        }
        EndsFound(m, tree, c, t, k.value);
      } else {
        EmptySeq(tree);
        p, d, c, t := SeekFirst(fake, path, dir, f);
        cnt := 1;
        EmptySeq(t.l);
      }
      forall s | Dropped(Seq(tree), cnt - 1, p, s) ensures Erased(Seq(tree), k, p, cnt, s) {
        ErasedNode(Seq(tree), k, p, cnt, s);
      }
    }

    /** The removal of the node at the end of the path, and of the local node afterwards. */
    method TakeOut(path: array<Addr>, dir: array<bool>, d: nat, p: Addr, fake: Addr, ghost was: Memory, ghost cnt: int,
                   ghost f: Frame, ghost c: seq<Frame>, ghost t: Tree)
      requires Aimed(m, tree, path[..], dir[..], d, p, cnt, f, c, t) && Good(tree) && |Seq(tree)| <= MAX_SIZE
      requires f.sib.Nil? && !f.right && f.a == fake && fake !in was && Heap(was, tree)
          && m == was[fake := FrameHead(f, Root(tree))]
      modifies this, path, dir
      ensures Valid() && Dropped(old(Nodes()), cnt - 1, p, Nodes())
      ensures Elsewhere(was, m, old(Nodes()))
    {
      ghost var f', u;
      hide Seq, Sorted, Sized, Balanced, Mins, Heap, PathFoot, Turns, OnPath, Pre, Post, Plug, Lies, Dropped, Only, Ht;
      f', u := RemoveAt(path, dir, d, p, f, c, t);
      FakeAbove(m, f', u);
      DroppedNodes(Seq(tree), |Pre(c)| + |Seq(t.l)|, p, Seq(u));
      assert FrameFoot(f) == {fake};
      FakeGone(was, m, fake, FrameHead(f, Root(tree)), tree, u, |Pre(c)| + |Seq(t.l)|, p);
      root := m[fake].l;
      m := m - {fake};
      tree := u;
    }

    // -------------------------------------------------------------- range minima

    static method Record(path: array<Addr>, pcmp: array<int>, n: nat, p: Addr, cmp: int, ghost k: int,
                         ghost ts: seq<Tree>, ghost t: Tree)
      requires Recorded(path[..], pcmp[..], ts, k) && n == |ts| < path.Length == pcmp.Length && path as object != pcmp
      requires t.Node? && p == t.a && cmp == Cmp(k, p.key)
      modifies path, pcmp
      ensures Recorded(path[..], pcmp[..], ts + [t], k)
    {
      ghost var paths, cmps := path[..], pcmp[..];
      path[n] := p;
      pcmp[n] := cmp;
      assert path[..] == paths[n := t.a] && pcmp[..] == cmps[n := cmp];
      RecordedMore(paths, cmps, ts, k, t);
    }

    /** A search for `k` that records the nodes it visits and how `k` compares with them. */
    method Trace(k: int, path: array<Addr>, pcmp: array<int>) returns (n: nat)
      requires Valid() && path.Length == pcmp.Length == MAX_DEPTH && path as object != pcmp
      modifies path, pcmp
      ensures n == |Trail(tree, k)| && Recorded(path[..], pcmp[..], Trail(tree, k), k)
    {
      var p := root;
      n := 0;
      ghost var ts, t := [], tree;
      DepthBound(tree);
      hide Seq, Foot, Sorted, Sized, Balanced, Mins, Recorded, Ht, Trail, Good;
      RecordedNone(path[..], pcmp[..], k);
      while p != Null
        invariant n == |ts| && Recorded(path[..], pcmp[..], ts, k) && p == Root(t) && Heap(m, t)
        invariant ts + Trail(t, k) == Trail(tree, k) && n + Ht(t) <= 45
        decreases Ht(t)
      {
        HtPositive(t);
        var cmp := Cmp(k, p.key);
        Record(path, pcmp, n, p, cmp, k, ts, t);
        n := n + 1;
        TrailStep(ts, t, k, Trail(tree, k));
        ts, t := ts + [t], if cmp < 0 then t.l else if cmp > 0 then t.r else Nil;
        if cmp < 0 {
          p := m[p].l;
        } else if cmp > 0 {
          p := m[p].r;
        } else {
          break;
        }
      }
      TrailNil(ts, t, k);
    }

    /** The least node among `min0` and the nodes that count on a recorded path, with what hangs on side `d` of them. */
    method Sweep(path: array<Addr>, pcmp: array<int>, from: nat, n: nat, min0: Addr, d: bool, ghost k: int,
                 ghost u: Tree, ghost ts: seq<Tree>)
      returns (min: Addr)
      requires Heap(m, u) && Mins(u) && Sorted(Seq(u)) && from <= n == |ts| && ts[from..] == Trail(u, k)
      requires Recorded(path[..], pcmp[..], ts, k)
      ensures Swept(u, Nil, k, d, min0, min)
    {
      min := min0;
      var i := from;
      ghost var v := u;
      SweptNone(u, k, d, min0);
      hide Seq, Sorted, Swept, Recorded, Trail, Foot;
      while i < n
        invariant from <= i <= n && ts[i..] == Trail(v, k)
        invariant Heap(m, v) && Mins(v) && Sorted(Seq(v)) && Foot(v) <= Foot(u) && Swept(u, v, k, d, min0, min)
      {
        TrailHead(ts, i, v, k);
        RecordedAt(path[..], pcmp[..], ts, k, i);
        SweepStep(u, v, k, d, min0, min);
        var p := path[i];
        if if d then pcmp[i] <= 0 else pcmp[i] >= 0 {
          if p.w < min.w { min := p; }
          var q := Child(m[p], d);
          if q != Null {
            if m[q].s.w < min.w { min := m[q].s; }
          }
        }
        v := if k < v.a.key then v.l else if k > v.a.key then v.r else Nil;
        i := i + 1;
      }
      TrailEnds(ts, i, v, k);
    }

    /** The first position where both recorded paths visit the same node and it is within the interval. */
    method Part(path0: array<Addr>, pcmp0: array<int>, n0: nat, path1: array<Addr>, pcmp1: array<int>, n1: nat,
                ghost lo: int, ghost up: int, ghost a: seq<Tree>, ghost b: seq<Tree>) returns (i: nat)
      requires n0 == |a| && n1 == |b| && Recorded(path0[..], pcmp0[..], a, lo) && Recorded(path1[..], pcmp1[..], b, up)
      ensures i <= n0 && i <= n1 && forall j :: 0 <= j < i ==> !Meet(a, b, lo, up, j)
      ensures i == n0 || i == n1 || Meet(a, b, lo, up, i)
    {
      i := 0;
      hide Recorded;
      while i < n0 && i < n1
        invariant i <= n0 && i <= n1 && forall j :: 0 <= j < i ==> !Meet(a, b, lo, up, j)
      {
        RecordedAt(path0[..], pcmp0[..], a, lo, i);
        RecordedAt(path1[..], pcmp1[..], b, up, i);
        if path0[i] == path1[i] && pcmp0[i] <= 0 && pcmp1[i] >= 0 { return; }
        i := i + 1;
      }
    }

    /**
      The least node with a key from `lo` to `up`, both included, or NULL if there is none: two search
      paths and the least nodes stored in the subtrees between them.
     */
    method Rmq(lo: int, up: int) returns (min: Ptr)
      requires Valid()
      ensures min == Null <==> forall q :: q in Nodes() ==> !Within(q, lo, up)
      ensures min != Null ==>
                min in Nodes() && Within(min, lo, up) && forall q :: q in Nodes() && Within(q, lo, up) ==> min.w <= q.w
    {
      var path0, path1, pcmp0, pcmp1 := new Addr[MAX_DEPTH], new Addr[MAX_DEPTH], new int[MAX_DEPTH],
          new int[MAX_DEPTH];
      if root == Null { return Null; }
      var n0 := Trace(lo, path0, pcmp0);
      var n1 := Trace(up, path1, pcmp1);
      ghost var a, b := Trail(tree, lo), Trail(tree, up);
      FootIsSeq(tree);
      hide Seq, Sorted, Swept, Recorded, Trail, Foot, Heap, Mins;
      var lca := Part(path0, pcmp0, n0, path1, pcmp1, n1, lo, up, a, b);
      NoneYet(tree, lo, up, lca);
      if lca == n0 || lca == n1 { return Null; }
      min := SweepBoth(path0, pcmp0, n0, path1, pcmp1, n1, lca, lo, up, a, b);
    }

    /** The least node from the meeting point down along both paths. */
    method SweepBoth(path0: array<Addr>, pcmp0: array<int>, n0: nat, path1: array<Addr>, pcmp1: array<int>, n1: nat,
                     lca: nat,
                     ghost lo: int, ghost up: int, ghost a: seq<Tree>, ghost b: seq<Tree>) returns (min: Addr)
      requires Valid() && a == Trail(tree, lo) && b == Trail(tree, up) && n0 == |a| && n1 == |b|
      requires Recorded(path0[..], pcmp0[..], a, lo) && Recorded(path1[..], pcmp1[..], b, up) && Meet(a, b, lo, up, lca)
      requires forall q :: q in Foot(tree) && Within(q, lo, up) ==> a[lca] == b[lca] && q in Foot(a[lca])
      ensures min in Foot(tree) && Within(min, lo, up)
      ensures forall q :: q in Foot(tree) && Within(q, lo, up) ==> min.w <= q.w
    {
      hide Seq, Sorted, Swept, Recorded, Trail, Foot, Heap, Mins, Sized, Balanced;
      RecordedAt(path0[..], pcmp0[..], a, lo, lca);
      ghost var u := a[lca];
      ghost var x, y := if lo < u.a.key then u.l else Nil, if u.a.key < up then u.r else Nil;
      Met(m, tree, lo, up, lca);
      min := path0[lca];
      min := Sweep(path0, pcmp0, lca + 1, n0, min, true, lo, x, a);
      ghost var min1 := min;
      min := Sweep(path1, pcmp1, lca + 1, n1, min, false, up, y, b);
      RangeMinimum(tree, u, lo, up, min1, min);
    }
  }

  /**
    What a removal returns and leaves: with `None` the first node goes; otherwise the node with that
    key, whose rank is `cnt`, or nothing if there is none.
   */
  ghost predicate Erased(s: seq<Addr>, k: Option<int>, r: Ptr, cnt: int, s': seq<Addr>) {
    if k.None? then s != [] && r == s[0] && cnt == 1 && s' == s[1..]
    else if HasKey(s, k.value) then
      0 < cnt && Rank(s, k.value, cnt) && r == s[cnt - 1] && s[cnt - 1].key == k.value && s' == s[..cnt - 1] + s[cnt..]
    else r == Null && cnt == 0 && s' == s
  }

  lemma ErasedNone(s: seq<Addr>, k: Option<int>)
    requires k.Some? && !HasKey(s, k.value)
    ensures Erased(s, k, Null, 0, s)
  {
  }

  lemma ErasedNode(s: seq<Addr>, k: Option<int>, p: Addr, cnt: int, s': seq<Addr>)
    requires Dropped(s, cnt - 1, p, s')
    requires if k.None? then cnt == 1 else HasKey(s, k.value) && p.key == k.value && Rank(s, k.value, cnt)
    ensures Erased(s, k, p, cnt, s')
  {
  }

  /** The path recorded around the place of the removed node. */
  lemma PathJoined(p: seq<Addr>, t: seq<bool>, p': seq<Addr>, t': seq<bool>, c: seq<Frame>, f: Frame, s: seq<Frame>)
    requires |c| < |p| == |t| && OnPath(p[..|c|], c) && Turns(t[..|c|], c, 0) && OnPath(p[|c| + 1..], s)
        && Turns(t[|c| + 1..], s, 0)
    requires f.right && p' == p[|c| := f.a] && t' == t[|c| := true]
    ensures OnPath(p', c + [f] + s) && Turns(t', c + [f] + s, 0)
  {
    var d := c + [f] + s;
    forall i | 0 <= i < |d| ensures p'[i] == d[i].a && t'[i] == d[i].right {
      if i < |c| { assert p[..|c|][i] == c[i].a && t[..|c|][i] == c[i].right; }
      else if i > |c| { assert p[|c| + 1..][i - |c| - 1] == s[i - |c| - 1].a
          && t[|c| + 1..][i - |c| - 1] == s[i - |c| - 1].right; }
    }
  }

  lemma PathPrefix(path: seq<Addr>, dir: seq<bool>, c: seq<Frame>)
    requires OnPath(path, c) && Turns(dir, c, 0)
    ensures forall n :: |c| <= n <= |path| && n <= |dir| ==> OnPath(path[..n][..|c|], c) && Turns(dir[..n][..|c|], c, 0)
  {
  }

  lemma PathResized(path: seq<Addr>, dir: seq<bool>, f: Frame, c: seq<Frame>, e: seq<Frame>)
    requires |e| == |c| + 1 && OnPath(path, [f] + c) && Turns(dir, [f] + c, 0)
    requires forall j :: 0 <= j < |e| ==>
        e[j] == if j < 1 then ([f] + c)[j] else ([f] + c)[j].(size := ([f] + c)[j].size + -1)
    ensures var c' := e[1..];
            e == [f] + c' && OneLess(c, c') && SamePlaces(c, c') && OnPath(path, [f] + c') && Turns(dir, [f] + c', 0)
  {
    var c' := e[1..];
    forall j | 0 <= j < |c| ensures c'[j] == c[j].(size := c[j].size - 1) {
      assert c'[j] == e[j + 1] && ([f] + c)[j + 1] == c[j];
    }
    forall j | 0 <= j < |e| ensures e[j].a == ([f] + c)[j].a && e[j].right == ([f] + c)[j].right {
    }
  }

  lemma PathLast(path: seq<Addr>, dir: seq<bool>, c: seq<Frame>)
    requires c != [] && OnPath(path, c) && Turns(dir, c, 0)
    ensures path[|c| - 1] == Last(c).a && dir[|c| - 1] == Last(c).right
  {
  }

  lemma Appended(f: Frame, c: seq<Frame>, g: Frame, s: seq<Frame>)
    ensures [f] + c + [g] + s == [f] + (c + [g] + s)
    ensures [f] + c + [g] == [f] + (c + [g] + [])
  {
  }

  lemma NoSpine(t: Tree)
    requires t.Node?
    ensures t.r == Plug([], t.r) && AllLeft([]) && OneLess([], []) && SamePlaces([], [])
  {
  }

  /** The last frame of a path below the local node, and the one above it. */
  lemma CutLast(path: seq<Addr>, dir: seq<bool>, f: Frame, c: seq<Frame>, d: nat)
    requires 0 < d <= |c| && OnPath(path, [f] + c) && Turns(dir, [f] + c, 0)
    ensures var b, g := c[..d - 1], c[d - 1];
            && c[..d] == b + [g] && [f] + c[..d] == [f] + b + [g] && d < |path| && d < |dir|
            && path[d] == g.a && dir[d] == g.right && path[d - 1] == Last([f] + b).a
              && dir[d - 1] == Last([f] + b).right
  {
    assert ([f] + c)[d] == c[d - 1];
    assert Last([f] + c[..d - 1]) == ([f] + c)[d - 1];
  }

  /** The path without its last step. */
  lemma BackOne(m: Memory, f: Frame, c: seq<Frame>, path: seq<Addr>, dir: seq<bool>)
    requires c != [] && !Last(c).right && Lies(m, [f] + c, Nil) && OnPath(path, [f] + c) && Turns(dir, [f] + c, 0)
        && Pre(c) == []
    ensures var b, t := Init(c), Fill(Last(c), Nil);
            && t.l.Nil? && Lies(m, [f] + b, t) && Pre(b) == [] && Plug(b, t) == Plug(c, Nil)
            && OnPath(path, [f] + b) && Turns(dir, [f] + b, 0) && Last([f] + c) == Last(c)
  {
    hide Lies, Heap, Along, PathFoot, Foot;
    var b := Init(c);
    assert [f] + c == [f] + b + [Last(c)];
    LiesMore(m, [f] + b, Last(c), Nil);
    OnPathLess(path, dir, [f] + b, Last(c));
  }

  lemma OnPathSame(path: seq<Addr>, dir: seq<bool>, c: seq<Frame>, c': seq<Frame>)
    requires OnPath(path, c) && Turns(dir, c, 0) && NewMins(c, c')
    ensures OnPath(path, c') && Turns(dir, c', 0)
  {
  }

  /** Other fields of the frames do not matter to the recorded path. */
  lemma PathKept(path: seq<Addr>, dir: seq<bool>, c: seq<Frame>, c': seq<Frame>, b: int)
    requires OnPath(path, c) && Turns(dir, c, b) && (Sizes1(c, c') || NewMins(c, c'))
    ensures OnPath(path, c') && Turns(dir, c', b)
  {
  }

  /** The search has come to the node `p`, of rank `cnt`, and recorded the path to it below the local node. */
  ghost predicate Aimed(m: Memory, tree: Tree, path: seq<Addr>, dir: seq<bool>, d: int, p: Ptr, cnt: int, f: Frame,
                        c: seq<Frame>, t: Tree) {
    && Lies(m, [f] + c, t) && Plug(c, t) == tree && t.Node? && p == t.a && cnt == |Pre(c)| + |Seq(t.l)| + 1
    && d == |c| + 1 && d + Ht(t) <= |path| == |dir| && OnPath(path, [f] + c) && Turns(dir, [f] + c, 0)
  }

  /** No cell but those of the given nodes was written, none added or dropped. */
  ghost predicate Elsewhere(m: Memory, m': Memory, s: seq<Addr>) {
    m'.Keys == m.Keys && forall a :: a in m && a !in s ==> m'[a] == m[a]
  }

  lemma SameElsewhere(m: Memory, s: seq<Addr>)
    ensures Elsewhere(m, m, s)
  {
  }

  lemma NoFrames(f: Frame, t: Tree)
    ensures [] + [f] == [f] + [] == [f] && Pre([]) == [] && Plug([], t) == t
  {
  }

  lemma MapBack(m: Memory, a: Addr, h: Head)
    requires a !in m
    ensures m[a := h] - {a} == m
  {
  }

  lemma OnPathLess(path: seq<Addr>, dir: seq<bool>, b: seq<Frame>, g: Frame)
    requires OnPath(path, b + [g]) && Turns(dir, b + [g], 0)
    ensures OnPath(path, b) && Turns(dir, b, 0)
  {
    assert forall i :: 0 <= i < |b| ==> (b + [g])[i] == b[i];
  }

  lemma SpineStart(path: seq<Addr>, dir: seq<bool>, c: seq<Frame>)
    requires c != [] && |c| <= |path| == |dir| && OnPath(path[..|c|], c) && Turns(dir[..|c|], c, 0)
    ensures path[|c| - 1] == Last(c).a && dir[|c| - 1] == Last(c).right
  {
    assert path[..|c|][|c| - 1] == path[|c| - 1] && dir[..|c|][|c| - 1] == dir[|c| - 1];
  }

  lemma SpineResized(path: seq<Addr>, dir: seq<bool>, c: seq<Frame>, f: Frame, s: seq<Frame>, c': seq<Frame>, g: Frame)
    requires |c'| == |c| + 1 + |s|
    requires forall j :: 0 <= j < |c'| ==>
        c'[j] == if j < |c| + 1 then (c + [f] + s)[j] else (c + [f] + s)[j].(size := (c + [f] + s)[j].size - 1)
    requires OnPath(path, c + [f] + s) && Turns(dir, c + [f] + s, 0) && g.a == f.a && g.right == f.right
    ensures var s' := c'[|c| + 1..];
            && OneLess(s, s') && SamePlaces(s, s') && c'[|c|] == f && c'[|c| := g] == c + [g] + s'
            && OnPath(path, c + [g] + s') && Turns(dir, c + [g] + s', 0)
  {
    var d, s' := c + [f] + s, c'[|c| + 1..];
    forall j | 0 <= j < |s| ensures s'[j] == s[j].(size := s[j].size - 1) {
      assert s'[j] == c'[|c| + 1 + j] && d[|c| + 1 + j] == s[j];
    }
    var d' := c + [g] + s';
    forall j | 0 <= j < |d| ensures d'[j].a == d[j].a && d'[j].right == d[j].right {
      if j > |c| { assert d'[j] == s'[j - |c| - 1] && d[j] == s[j - |c| - 1]; }
    }
  }

  lemma InsertedNodes(a: seq<Addr>, x: Addr, b: seq<Addr>)
    requires Sorted(a + b) && AllBelow(a, x.key) && AllAbove(b, x.key)
    ensures Sorted(a + [x] + b) && (a + b)[..|a|] == a && (a + b)[|a|..] == b && |a + [x] + b| == |a + b| + 1
  {
    SortedWith(a, x, b);
  }

  ghost predicate OnPath(path: seq<Addr>, c: seq<Frame>) {
    |c| <= |path| && forall i :: 0 <= i < |c| ==> path[i] == c[i].a
  }

  lemma OnPathAt(path: seq<Addr>, c: seq<Frame>, i: int)
    requires OnPath(path, c) && 0 <= i < |c|
    ensures i < |path| && path[i] == c[i].a
  {
  }

  lemma OnPathMore(path: seq<Addr>, c: seq<Frame>, f: Frame)
    requires OnPath(path, c) && |c| < |path|
    ensures OnPath(path[|c| := f.a], c + [f])
  {
  }

  /** The directions from position `b` on are on the stack. */
  ghost predicate Turns(stack: seq<bool>, c: seq<Frame>, b: int) {
    0 <= b <= |c| && |c| - b <= |stack| && forall i :: b <= i < |c| ==> stack[i - b] == c[i].right
  }

  lemma TurnsMore(stack: seq<bool>, c: seq<Frame>, b: int, f: Frame)
    requires Turns(stack, c, b) && |c| - b < |stack|
    ensures Turns(stack[|c| - b := f.right], c + [f], b)
  {
  }

  lemma TurnsNew(stack: seq<bool>, c: seq<Frame>, f: Frame)
    requires |stack| > 0
    ensures Turns(stack[0 := f.right], c + [f], |c|)
  {
  }

  /** The end of the path hangs on side `which` of `q`. */
  ghost predicate HangsAt(c: seq<Frame>, q: Ptr, which: bool) {
    if c == [] then q == Null else q == Last(c).a && which == Last(c).right
  }

  /** Below position `b` no node of the path leans; `b` is 0 unless the node there does. */
  ghost predicate LeansAt(c: seq<Frame>, t: Tree, b: int, bp: Ptr, bq: Ptr) {
    && (if c == [] then b == 0 && bp == Root(t) else 0 <= b < |c| && bp == c[b].a)
    && bq == (if b == 0 then Null else c[b - 1].a)
    && (b > 0 ==> c[b].balance != 0)
    && Level(c, b)
  }

  lemma LeansMore(c: seq<Frame>, t: Tree, b: int, bp: Ptr, bq: Ptr, q: Ptr, which: bool)
    requires t.Node? && LeansAt(c, t, b, bp, bq) && HangsAt(c, q, which)
    ensures forall d :: var f := FrameOf(t, d);
              if t.balance != 0 then LeansAt(c + [f], Kid(t, d), |c|, t.a, q)
              else LeansAt(c + [f], Kid(t, d), b, bp, bq)
  {
    forall d: bool
      ensures var f := FrameOf(t, d);
              if t.balance != 0 then LeansAt(c + [f], Kid(t, d), |c|, t.a, q)
              else LeansAt(c + [f], Kid(t, d), b, bp, bq)
    {
    }
  }

  /** The search ends between two nodes, the ones next to it. */
  lemma EndsBetween(m: Memory, tree: Tree, c: seq<Frame>, k: int)
    requires Sought(m, tree, c, Nil, k)
    ensures !HasKey(Seq(tree), k) && Between(Seq(tree), k, |Pre(c)|, Prev(c), Next(c))
  {
    EndsMissed(m, tree, c, k);
  }

  lemma NextToNone()
    ensures Prev([]) == Null && Next([]) == Null
  {
  }

  /** `n` nodes have keys below `k` and the others above; `lower` and `upper` are the nearest ones. */
  ghost predicate Between(s: seq<Addr>, k: int, n: int, lower: Ptr, upper: Ptr) {
    && Rank(s, k, n)
    && lower == (if n == 0 then Null else s[n - 1])
    && upper == (if n == |s| then Null else s[n])
  }
}
