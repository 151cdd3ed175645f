/**
  How a B-tree lies in memory: node records by address, the addresses a tree occupies, and what
  stays true of the rest when some records change.
  Source: liblinktool/klib/kbtree.h, lines 37-58.
 */
module KbtreeHeap {
  import opened KbtreeSpec

  /** A node in memory: `n` is the number of keys; an internal node has one pointer more. */
  datatype Rec = Rec(internal: bool, keys: seq<int>, ptrs: seq<int>)

  type Memory = map<int, Rec>

  ghost function Addrs(kids: seq<Tree>): (r: seq<int>)
    ensures |r| == |kids| && forall i :: 0 <= i < |r| ==> r[i] == kids[i].addr
  {
    if kids == [] then [] else [kids[0].addr] + Addrs(kids[1..])
  }

  ghost function RecOf(x: Tree): Rec {
    Rec(x.internal, x.keys, Addrs(x.kids))
  }

  /** The addresses of the nodes of a tree. */
  ghost function Foot(x: Tree): set<int>
    decreases x, 1
  {
    {x.addr} + FootAll(x.kids)
  }

  ghost function FootAll(kids: seq<Tree>): set<int>
    decreases kids, 0
  {
    if kids == [] then {} else Foot(kids[0]) + FootAll(kids[1..])
  }

  /** The tree lies in memory, no two of its nodes at one address. */
  ghost predicate Heap(m: Memory, x: Tree)
    decreases x, 1
  {
    x.addr in m && m[x.addr] == RecOf(x) && x.addr !in FootAll(x.kids) && HeapAll(m, x.kids)
  }

  ghost predicate HeapAll(m: Memory, kids: seq<Tree>)
    decreases kids, 0
  {
    kids == [] || (Heap(m, kids[0]) && HeapAll(m, kids[1..]) && Foot(kids[0]) !! FootAll(kids[1..]))
  }

  // ---------------------------------------------------------------- lists of subtrees

  lemma {:induction false} FootAppend(a: seq<Tree>, b: seq<Tree>)
    ensures FootAll(a + b) == FootAll(a) + FootAll(b)
    decreases |a|
  {
    if a == [] {
      assert a + b == b;
    } else {
      assert (a + b)[0] == a[0] && (a + b)[1..] == a[1..] + b;
      FootAppend(a[1..], b);
    }
  }

  lemma {:induction false} HeapAppend(m: Memory, a: seq<Tree>, b: seq<Tree>)
    ensures HeapAll(m, a + b) <==> HeapAll(m, a) && HeapAll(m, b) && FootAll(a) !! FootAll(b)
    decreases |a|
  {
    if a == [] {
      assert a + b == b;
    } else {
      assert (a + b)[0] == a[0] && (a + b)[1..] == a[1..] + b;
      HeapAppend(m, a[1..], b);
      FootAppend(a[1..], b);
    }
  }

  lemma AddrsAppend(a: seq<Tree>, b: seq<Tree>)
    ensures Addrs(a + b) == Addrs(a) + Addrs(b)
  {
  }

  lemma FootOne(c: Tree)
    ensures FootAll([c]) == Foot(c)
  {
    assert [c][1..] == [];
  }

  lemma HeapOne(m: Memory, c: Tree)
    ensures HeapAll(m, [c]) <==> Heap(m, c)
  {
    assert [c][1..] == [];
  }

  /** A subtree among its siblings. */
  lemma HeapAround(m: Memory, a: seq<Tree>, c: Tree, b: seq<Tree>)
    ensures FootAll(a + [c] + b) == FootAll(a) + Foot(c) + FootAll(b)
    ensures HeapAll(m, a + [c] + b) <==>
            HeapAll(m, a) && Heap(m, c) && HeapAll(m, b) && FootAll(a) !! Foot(c)
                && (FootAll(a) + Foot(c)) !! FootAll(b)
  {
    FootAppend(a, [c]);
    FootAppend(a + [c], b);
    HeapAppend(m, a, [c]);
    HeapAppend(m, a + [c], b);
    FootOne(c);
    HeapOne(m, c);
  }

  // ---------------------------------------------------------------- frames

  ghost predicate Same(m: Memory, m': Memory, s: set<int>) {
    forall a :: a in s && a in m ==> a in m' && m'[a] == m[a]
  }

  /** A tree whose nodes are untouched is still there. */
  lemma {:induction false} HeapKept(m: Memory, m': Memory, x: Tree)
    requires Heap(m, x) && Same(m, m', Foot(x))
    ensures Heap(m', x)
    decreases x, 1
  {
    HeapAllKept(m, m', x.kids);
  }

  lemma {:induction false} HeapAllKept(m: Memory, m': Memory, kids: seq<Tree>)
    requires HeapAll(m, kids) && Same(m, m', FootAll(kids))
    ensures HeapAll(m', kids)
    decreases kids, 0
  {
    if kids != [] {
      HeapKept(m, m', kids[0]);
      HeapAllKept(m, m', kids[1..]);
    }
  }

  lemma {:induction false} FootInMemory(m: Memory, x: Tree)
    requires Heap(m, x)
    ensures Foot(x) <= m.Keys
    decreases x, 1
  {
    FootAllInMemory(m, x.kids);
  }

  lemma {:induction false} FootAllInMemory(m: Memory, kids: seq<Tree>)
    requires HeapAll(m, kids)
    ensures FootAll(kids) <= m.Keys
    decreases kids, 0
  {
    if kids != [] {
      FootInMemory(m, kids[0]);
      FootAllInMemory(m, kids[1..]);
    }
  }

  /** Memory changes only on the nodes `f`, which become the nodes `f'`; what is new was not in use. */
  ghost predicate Step(m: Memory, m': Memory, f: set<int>, f': set<int>) {
    && f <= m.Keys
    && m'.Keys == (m.Keys - f) + f'
    && (f' - f) !! m.Keys
    && (forall a :: a in m.Keys && a !in f ==> m'[a] == m[a])
  }

  lemma StepTrans(m: Memory, m1: Memory, m2: Memory, f: set<int>, f1: set<int>, f2: set<int>)
    requires Step(m, m1, f, f1) && Step(m1, m2, f1, f2)
    ensures Step(m, m2, f, f2)
  {
  }

  // ---------------------------------------------------------------- the parent of what changes

  lemma HeapThree(m: Memory, a: seq<Tree>, c: seq<Tree>, b: seq<Tree>)
    ensures FootAll(a + c + b) == FootAll(a) + FootAll(c) + FootAll(b)
    ensures HeapAll(m, a + c + b) <==>
            HeapAll(m, a) && HeapAll(m, c) && HeapAll(m, b) && FootAll(a) !! FootAll(c)
                && (FootAll(a) + FootAll(c)) !! FootAll(b)
  {
    FootAppend(a, c);
    FootAppend(a + c, b);
    HeapAppend(m, a, c);
    HeapAppend(m, a + c, b);
  }

  /** The sets behind `Rebuild`: `p` is the parent, `a` and `b` the addresses of the children that stay. */
  lemma WidenStep(m: Memory, m': Memory, p: int, a: set<int>, c: set<int>, c': set<int>, b: set<int>)
    requires Step(m, m', {p} + c, {p} + c') && a <= m.Keys && b <= m.Keys
    requires p !in a && p !in b && a !! c && (a + c) !! b
    ensures Step(m, m', {p} + (a + c + b), {p} + (a + c' + b))
    ensures Same(m, m', a) && Same(m, m', b) && a !! c' && (a + c') !! b
  {
    forall e | e in c' && e in m.Keys && e != p ensures e in c {
      assert e in {p} + c';
      assert e !in ({p} + c') - ({p} + c);
    }
  }

  /** Some neighbouring children and the record of their parent change. */
  lemma Rebuild(m: Memory, m': Memory, x: Tree, x': Tree, a: seq<Tree>, c: seq<Tree>, c': seq<Tree>, b: seq<Tree>)
    requires Heap(m, x) && x.kids == a + c + b && x'.kids == a + c' + b
    requires x'.addr == x.addr && x.addr in m' && m'[x.addr] == RecOf(x')
    requires HeapAll(m', c') && Step(m, m', {x.addr} + FootAll(c), {x.addr} + FootAll(c')) && x.addr !in FootAll(c')
    ensures Heap(m', x') && Step(m, m', Foot(x), Foot(x'))
  {
    HeapThree(m, a, c, b);
    HeapThree(m', a, c', b);
    FootAllInMemory(m, a);
    FootAllInMemory(m, b);
    WidenStep(m, m', x.addr, FootAll(a), FootAll(c), FootAll(c'), FootAll(b));
    HeapAllKept(m, m', a);
    HeapAllKept(m, m', b);
  }

  lemma WithChildAddrs(x: Tree, i: int, c: Tree)
    requires 0 <= i < |x.kids| && c.addr == x.kids[i].addr
    ensures Addrs(WithChild(x, i, c).kids) == Addrs(x.kids)
  {
  }

  lemma NarrowStep(m: Memory, m': Memory, p: int, c: set<int>, c': set<int>)
    requires Step(m, m', c, c') && p !in c && p in m
    ensures Step(m, m', {p} + c, {p} + c') && p !in c' && p in m' && m'[p] == m[p]
  {
    assert p !in c' - c;
  }

  /** One child changes, at the same address; the record of the parent stays. */
  lemma RebuildChild(m: Memory, m': Memory, x: Tree, i: int, c': Tree)
    requires Heap(m, x) && 0 <= i < |x.kids|
    requires Heap(m', c') && c'.addr == x.kids[i].addr && Step(m, m', Foot(x.kids[i]), Foot(c'))
    ensures Heap(m', WithChild(x, i, c')) && Step(m, m', Foot(x), Foot(WithChild(x, i, c')))
  {
    var x', a, c, b := WithChild(x, i, c'), x.kids[..i], x.kids[i], x.kids[i + 1..];
    assert x.kids == a + [c] + b;
    HeapAround(m, a, c, b);
    FootOne(c);
    FootOne(c');
    HeapOne(m', c');
    WithChildAddrs(x, i, c');
    NarrowStep(m, m', x.addr, Foot(c), Foot(c'));
    Rebuild(m, m', x, x', a, [c], [c'], b);
  }

  // ---------------------------------------------------------------- two children and their join

  lemma HeapTwo(m: Memory, y: Tree, z: Tree)
    ensures FootAll([y, z]) == Foot(y) + Foot(z)
    ensures HeapAll(m, [y, z]) <==> Heap(m, y) && Heap(m, z) && Foot(y) !! Foot(z)
  {
    assert [y, z][1..] == [z];
    FootOne(z);
    HeapOne(m, z);
  }

  /** Two siblings lie in memory when their children do and their own records are apart. */
  lemma PairHeap(m: Memory, y: Tree, z: Tree)
    ensures FootAll([y, z]) == {y.addr, z.addr} + FootAll(y.kids + z.kids)
    ensures HeapAll(m, [y, z]) <==>
            && HeapAll(m, y.kids + z.kids) && y.addr != z.addr
            && y.addr !in FootAll(y.kids + z.kids) && z.addr !in FootAll(y.kids + z.kids)
            && y.addr in m && m[y.addr] == RecOf(y) && z.addr in m && m[z.addr] == RecOf(z)
  {
    HeapTwo(m, y, z);
    HeapAppend(m, y.kids, z.kids);
    FootAppend(y.kids, z.kids);
  }

  /** A node is replaced by two that share its children; the second has a new address. */
  lemma HalvesHeap(m: Memory, m': Memory, w: Tree, y: Tree, z: Tree)
    requires Heap(m, w) && w.kids == y.kids + z.kids && y.addr == w.addr && z.addr !in m
    requires y.addr in m' && m'[y.addr] == RecOf(y) && z.addr in m' && m'[z.addr] == RecOf(z)
    requires Same(m, m', FootAll(w.kids))
    ensures HeapAll(m', [y, z]) && FootAll([y, z]) == Foot(w) + {z.addr}
  {
    FootInMemory(m, w);
    HeapAllKept(m, m', w.kids);
    PairHeap(m', y, z);
  }

  /** Two siblings are replaced by one that has the children of both. */
  lemma JoinedHeap(m: Memory, m': Memory, y: Tree, z: Tree, w: Tree)
    requires HeapAll(m, [y, z]) && w.kids == y.kids + z.kids && w.addr == y.addr
    requires w.addr in m' && m'[w.addr] == RecOf(w) && Same(m, m', FootAll(w.kids))
    ensures Heap(m', w) && Foot(w) == FootAll([y, z]) - {z.addr}
  {
    PairHeap(m, y, z);
    HeapAllKept(m, m', w.kids);
  }

  /** Two siblings share the same children differently. */
  lemma SharedHeap(m: Memory, m': Memory, y: Tree, z: Tree, y': Tree, z': Tree)
    requires HeapAll(m, [y, z]) && y.kids + z.kids == y'.kids + z'.kids && y'.addr == y.addr && z'.addr == z.addr
    requires y.addr in m' && m'[y.addr] == RecOf(y') && z.addr in m' && m'[z.addr] == RecOf(z')
    requires Same(m, m', FootAll(y.kids + z.kids))
    ensures HeapAll(m', [y', z']) && FootAll([y', z']) == FootAll([y, z])
  {
    PairHeap(m, y, z);
    PairHeap(m', y', z');
    HeapAllKept(m, m', y.kids + z.kids);
  }

  // ---------------------------------------------------------------- the moves of insertion and deletion

  lemma AddrsAround(kids: seq<Tree>, i: int, mid: seq<Tree>, j: int)
    requires 0 <= i <= |kids| && 0 <= j <= |kids|
    ensures Addrs(kids[..i] + mid + kids[j..]) == Addrs(kids)[..i] + Addrs(mid) + Addrs(kids)[j..]
  {
  }

  lemma HeapChild(m: Memory, x: Tree, i: int)
    requires Heap(m, x) && 0 <= i < |x.kids|
    ensures Heap(m, x.kids[i]) && m[x.addr].ptrs[i] == x.kids[i].addr && x.addr !in Foot(x.kids[i])
  {
    assert x.kids == x.kids[..i] + [x.kids[i]] + x.kids[i + 1..];
    HeapAround(m, x.kids[..i], x.kids[i], x.kids[i + 1..]);
  }

  lemma HeapPair(m: Memory, x: Tree, i: int)
    requires Heap(m, x) && 0 <= i < |x.kids| - 1
    ensures HeapAll(m, [x.kids[i], x.kids[i + 1]]) && x.addr !in FootAll([x.kids[i], x.kids[i + 1]])
    ensures FootAll([x.kids[i], x.kids[i + 1]]) <= m.Keys
  {
    assert x.kids == x.kids[..i] + [x.kids[i], x.kids[i + 1]] + x.kids[i + 2..];
    HeapThree(m, x.kids[..i], [x.kids[i], x.kids[i + 1]], x.kids[i + 2..]);
    FootAllInMemory(m, [x.kids[i], x.kids[i + 1]]);
  }

  /** Only the keys in a node's own record change. */
  lemma OwnKeysHeap(m: Memory, x: Tree, keys: seq<int>)
    requires Heap(m, x)
    ensures var x' := x.(keys := keys);
            Heap(m[x.addr := RecOf(x')], x') && Foot(x') == Foot(x)
            && Step(m, m[x.addr := RecOf(x')], Foot(x), Foot(x'))
  {
    HeapAllKept(m, m[x.addr := RecOf(x.(keys := keys))], x.kids);
    FootInMemory(m, x);
  }

  /** Two siblings share their keys and children differently. */
  lemma TurnHeap(m: Memory, x: Tree, i: int, y: Tree, k: int, z: Tree)
    requires Heap(m, x) && 0 <= i < |x.keys| && |x.kids| == |x.keys| + 1
    requires y.addr == x.kids[i].addr && z.addr == x.kids[i + 1].addr
    requires y.kids + z.kids == x.kids[i].kids + x.kids[i + 1].kids
    ensures var x' := Turned(x, i, y, k, z);
            var m' := m[y.addr := RecOf(y)][z.addr := RecOf(z)][x.addr := RecOf(x')];
            Heap(m', x') && Step(m, m', Foot(x), Foot(x'))
  {
    var x', y0, z0 := Turned(x, i, y, k, z), x.kids[i], x.kids[i + 1];
    var m' := m[y.addr := RecOf(y)][z.addr := RecOf(z)][x.addr := RecOf(x')];
    HeapPair(m, x, i);
    PairHeap(m, y0, z0);
    SharedHeap(m, m', y0, z0, y, z);
    assert x.kids == x.kids[..i] + [y0, z0] + x.kids[i + 2..];
    Rebuild(m, m', x, x', x.kids[..i], [y0, z0], [y, z], x.kids[i + 2..]);
  }

  /** Two siblings are merged into the first; the second is freed. */
  lemma MergeHeap(m: Memory, x: Tree, i: int, w: Tree)
    requires Heap(m, x) && 0 <= i < |x.keys| && |x.kids| == |x.keys| + 1
    requires w.addr == x.kids[i].addr && w.kids == x.kids[i].kids + x.kids[i + 1].kids
    ensures var x' := Fused(x, i, w);
            var m' := m[w.addr := RecOf(w)][x.addr := RecOf(x')] - {x.kids[i + 1].addr};
            Heap(m', x') && Step(m, m', Foot(x), Foot(x'))
  {
    var x', y, z := Fused(x, i, w), x.kids[i], x.kids[i + 1];
    var m' := m[w.addr := RecOf(w)][x.addr := RecOf(x')] - {z.addr};
    HeapPair(m, x, i);
    PairHeap(m, y, z);
    JoinedHeap(m, m', y, z, w);
    assert x.kids == x.kids[..i] + [y, z] + x.kids[i + 2..];
    HeapOne(m', w);
    FootOne(w);
    Rebuild(m, m', x, x', x.kids[..i], [y, z], [w], x.kids[i + 2..]);
  }

  /** A child is split; the second half gets a new address. */
  lemma SplitHeap(m: Memory, x: Tree, i: int, y: Tree, k: int, z: Tree)
    requires Heap(m, x) && 0 <= i <= |x.keys| && |x.kids| == |x.keys| + 1
    requires y.addr == x.kids[i].addr && z.addr !in m && y.kids + z.kids == x.kids[i].kids
    ensures var x' := Parted(x, i, y, k, z);
            var m' := m[z.addr := RecOf(z)][y.addr := RecOf(y)][x.addr := RecOf(x')];
            Heap(m', x') && Step(m, m', Foot(x), Foot(x'))
  {
    var x', w := Parted(x, i, y, k, z), x.kids[i];
    var m' := m[z.addr := RecOf(z)][y.addr := RecOf(y)][x.addr := RecOf(x')];
    HeapChild(m, x, i);
    FootInMemory(m, w);
    HalvesHeap(m, m', w, y, z);
    assert x.kids == x.kids[..i] + [w] + x.kids[i + 1..];
    HeapOne(m, w);
    FootOne(w);
    Rebuild(m, m', x, x', x.kids[..i], [w], [y, z], x.kids[i + 1..]);
  }
}
