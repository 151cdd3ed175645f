/**
  The B-tree: search, insertion with splitting on the way down, deletion with borrowing and merging
  on the way down, over node records in memory.
  Source: liblinktool/klib/kbtree.h, lines 60-75, 103-131 and 160-314.
 */
module Kbtree {
  import opened KbtreeHeap
  import opened KbtreeSpec

  // ---------------------------------------------------------------- search inside one node

  /**
    The position of `k` among the keys of a node: with `r == 0` the first key equal to `k`, otherwise
    the last key below `k`. On an empty node, which only the root can be, `r` keeps its initial 0.
   */
  method GetAux(keys: seq<int>, k: int) returns (i: int, r: int)
    requires Sorted(keys)
    ensures -1 <= i < |keys|
    ensures r == 0 <==> keys == [] || k in keys
    ensures r == 0 && keys != [] ==> 0 <= i && keys[i] == k && (0 < i ==> keys[i - 1] < k)
    ensures r != 0 ==> (0 <= i ==> keys[i] < k) && (i + 1 < |keys| ==> k < keys[i + 1])
  {
    if keys == [] { return -1, 0; }
    var begin, end := 0, |keys|;
    while begin < end
      invariant 0 <= begin <= end <= |keys|
      invariant forall j :: 0 <= j < begin ==> keys[j] < k
      invariant forall j :: end <= j < |keys| ==> k <= keys[j]
    {
      var mid := (begin + end) / 2;
      if keys[mid] < k {
        begin := mid + 1;
      } else {
        end := mid;
      }
    }
    if begin == |keys| { return |keys| - 1, 1; }
    if k < keys[begin] { return begin - 1, -1; }
    return begin, 0;
  }

  // ---------------------------------------------------------------- what the search says about subtrees

  lemma NotAbove(s: seq<int>, l: int, k: int)
    requires AtMost(s, l) && l < k
    ensures k !in s
  {
  }

  lemma NotBelow(s: seq<int>, l: int, k: int)
    requires AtLeast(s, l) && k < l
    ensures k !in s
  {
  }

  /** A key strictly between two separators is in the tree exactly when it is in the child between them. */
  lemma InChild(x: Tree, i: int, k: int)
    requires x.internal && Linked(x) && 0 <= i <= |x.keys| && Sorted(Seq(x))
    requires i > 0 ==> x.keys[i - 1] < k
    requires i < |x.keys| ==> k < x.keys[i]
    ensures k in Seq(x) <==> k in Seq(x.kids[i])
  {
    KeysSorted(x);
    SeqAt(x, i);
    if i > 0 {
      AroundChild(x, i, x.keys[i - 1]);
      NotAbove(Before(x, i), x.keys[i - 1], k);
    }
    if i < |x.keys| {
      AroundChild(x, i, x.keys[i]);
      NotBelow(After(x, i), x.keys[i], k);
    }
  }

  lemma KeyInSeq(x: Tree, i: int)
    requires Linked(x) && 0 <= i < |x.keys|
    ensures x.keys[i] in Seq(x)
  {
    if x.internal { SeqAtKey(x, i); }
  }

  lemma InsertedInLeaf(keys: seq<int>, i: int, k: int)
    requires Sorted(keys) && -1 <= i < |keys|
    requires 0 <= i ==> keys[i] <= k
    requires i + 1 < |keys| ==> k <= keys[i + 1]
    ensures Inserted(keys, keys[..i + 1] + [k] + keys[i + 1..], k)
  {
    forall j | 0 <= j < i + 1 ensures keys[j] <= k {
      assert keys[j] <= keys[i];
    }
    forall j | i + 1 <= j < |keys| ensures k <= keys[j] {
      assert keys[i + 1] <= keys[j];
    }
    InsertedHere(keys, i + 1, k);
  }

  lemma InsertedHere(s: seq<int>, p: int, k: int)
    requires 0 <= p <= |s|
    requires forall j :: 0 <= j < p ==> s[j] <= k
    requires forall j :: p <= j < |s| ==> k <= s[j]
    ensures Inserted(s, s[..p] + [k] + s[p..], k)
  {
    assert AtMost(s[..p], k) && AtLeast(s[p..], k);
  }

  lemma RemovedAt(s: seq<int>, i: int)
    requires 0 <= i < |s|
    ensures Removed(s, s[..i] + s[i + 1..], s[i])
  {
  }

  lemma RemovedBetween(a: seq<int>, k: int, b: seq<int>)
    ensures Removed(a + [k] + b, a + b, k)
  {
    var s := a + [k] + b;
    assert s[..|a|] == a && s[|a| + 1..] == b && s[|a|] == k;
  }

  /** A new root above the old one, which is full. */
  lemma UnderNewRoot(m: Memory, x: Tree, a: int, t: int, d: nat)
    requires Lies(m, x, t, d) && a !in m && Foot(x) == m.Keys && t - 1 <= |x.keys| <= 2 * t - 1
    ensures var top, m' := Tree(a, true, [], [x]), m[a := Rec(true, [], [x.addr])];
            Lies(m', top, t, d + 1) && Foot(top) == m'.Keys && Seq(top) == Seq(x) && Linked(x)
  {
    var m' := m[a := Rec(true, [], [x.addr])];
    HeapKept(m, m', x);
    HeapOne(m', x);
    FootOne(x);
  }

  ghost predicate Below(m: Memory, next: int) {
    forall a :: a in m ==> a < next
  }

  /** What a call leaves of a subtree: the memory of `x` now holds `x'`, at the same address. */
  ghost predicate Becomes(m: Memory, m': Memory, x: Tree, x': Tree, t: int, d: nat) {
    x'.addr == x.addr && Heap(m', x') && Step(m, m', Foot(x), Foot(x')) && Shape(x', t, d)
  }

  ghost predicate Lies(m: Memory, x: Tree, t: int, d: nat) {
    2 <= t && Heap(m, x) && Shape(x, t, d)
  }

  lemma BecomesTrans(m: Memory, m1: Memory, m2: Memory, x: Tree, x1: Tree, x2: Tree, t: int, d: nat)
    requires Becomes(m, m1, x, x1, t, d) && Becomes(m1, m2, x1, x2, t, d)
    ensures Becomes(m, m2, x, x2, t, d)
  {
    StepTrans(m, m1, m2, Foot(x), Foot(x1), Foot(x2));
  }

  lemma SelfBecomes(m: Memory, x: Tree, t: int, d: nat)
    requires Lies(m, x, t, d)
    ensures Becomes(m, m, x, x, t, d)
  {
    FootInMemory(m, x);
  }

  /** The parent, when one child has become another. */
  lemma ParentBecomes(m: Memory, m': Memory, x: Tree, i: int, c': Tree, t: int, d: nat)
    requires Lies(m, x, t, d) && 0 < d && 0 <= i < |x.kids|
    requires Becomes(m, m', x.kids[i], c', t, d - 1) && NodeOk(c', t, d - 1)
    ensures Becomes(m, m', x, WithChild(x, i, c'), t, d)
  {
    RebuildChild(m, m', x, i, c');
    WithChildShape(x, i, c', t, d);
  }

  /** The records a split writes. */
  lemma HalfRecs(w: Tree, t: int, z: int)
    requires 2 <= t && Linked(w) && |w.keys| == 2 * t - 1
    ensures var rw := RecOf(w);
            && RecOf(Lower(w, t)) == Rec(rw.internal, rw.keys[..t - 1], if rw.internal then rw.ptrs[..t] else [])
            && RecOf(Upper(w, t, z)) == Rec(rw.internal, rw.keys[t..], if rw.internal then rw.ptrs[t..] else [])
  {
  }

  lemma PartedRec(x: Tree, i: int, y: Tree, k: int, z: Tree)
    requires x.internal && Linked(x) && 0 <= i <= |x.keys| && y.addr == x.kids[i].addr
    ensures var rx := RecOf(x);
            RecOf(Parted(x, i, y, k, z))
            == Rec(rx.internal, rx.keys[..i] + [k] + rx.keys[i..], rx.ptrs[..i + 1] + [z.addr] + rx.ptrs[i + 1..])
  {
    AddrsAround(x.kids, i, [y, z], i + 1);
  }

  lemma OnlyChild(m: Memory, x: Tree, t: int, d: nat)
    requires Lies(m, x, t, d) && 0 < d && x.keys == [] && Foot(x) == m.Keys
    ensures var c, m' := x.kids[0], m - {x.addr};
            Lies(m', c, t, d - 1) && Foot(c) == m'.Keys && Seq(c) == Seq(x) && m[x.addr].ptrs[0] == c.addr
            && t - 1 <= |c.keys| <= 2 * t - 1
  {
    ChildLies(m, x, 0, t, d);
    HeapKept(m, m - {x.addr}, x.kids[0]);
    assert x.kids == [x.kids[0]];
    FootOne(x.kids[0]);
  }

  /** The node after its full child `i` is split, the second half at `z`. */
  function SplitOf(x: Tree, i: int, t: int, z: int): Tree
    requires 2 <= t && 0 <= i <= |x.keys| && |x.kids| == |x.keys| + 1
    requires Linked(x.kids[i]) && |x.kids[i].keys| == 2 * t - 1
  {
    Parted(x, i, Lower(x.kids[i], t), x.kids[i].keys[t - 1], Upper(x.kids[i], t, z))
  }

  /** What `Split` writes, with the fresh node at `z`. */
  lemma SplitDone(m: Memory, x: Tree, i: int, z: int, t: int, d: nat)
    requires Lies(m, x, t, d) && 0 < d && z !in m
    requires 0 <= i <= |x.keys| && Linked(x.kids[i]) && |x.kids[i].keys| == 2 * t - 1
    ensures var w := x.kids[i];
            var x' := SplitOf(x, i, t, z);
            var m' := m[z := RecOf(Upper(w, t, z))][w.addr := RecOf(Lower(w, t))][x.addr := RecOf(x')];
            Becomes(m, m', x, x', t, d) && Seq(x') == Seq(x)
  {
    var w := x.kids[i];
    SplitKeeps(x, i, z, t, d);
    SplitHeap(m, x, i, Lower(w, t), w.keys[t - 1], Upper(w, t, z));
  }

  /** `k` belongs between the separators around child `i`. */
  ghost predicate Encloses(keys: seq<int>, i: int, k: int) {
    (0 < i <= |keys| ==> keys[i - 1] <= k) && (0 <= i < |keys| ==> k <= keys[i])
  }

  /** `x0` has become `x`, where child `j` may take `k` and has room. */
  ghost predicate Ready(x0: Tree, x: Tree, j: int, k: int, t: int) {
    && |x0.keys| <= |x.keys| <= |x0.keys| + 1 && 0 <= j <= |x.keys| && |x.kids| == |x.keys| + 1
    && Encloses(x.keys, j, k) && |x.kids[j].keys| < 2 * t - 1
  }

  /** After a split both halves have room, and `k` belongs to the half its comparison chooses. */
  lemma RoomMade(x: Tree, i: int, z: int, k: int, t: int)
    requires 2 <= t && x.internal && Linked(x) && 0 <= i <= |x.keys| && Encloses(x.keys, i, k)
    requires Linked(x.kids[i]) && |x.kids[i].keys| == 2 * t - 1
    ensures var x' := SplitOf(x, i, t, z);
            |x'.keys| > i && Ready(x, x', if k > x'.keys[i] then i + 1 else i, k, t)
  {
  }

  /** The result of `GetAux` points to the child that may take `k`. */
  lemma EnclosedAfter(keys: seq<int>, i: int, k: int)
    requires Sorted(keys) && -1 <= i < |keys|
    requires (0 <= i && keys[i] == k) || (i + 1 < |keys| ==> k < keys[i + 1])
    requires 0 <= i ==> keys[i] <= k
    ensures Encloses(keys, i + 1, k)
  {
  }

  lemma ChildLies(m: Memory, x: Tree, i: int, t: int, d: nat)
    requires Lies(m, x, t, d) && 0 < d && 0 <= i < |x.kids|
    ensures Lies(m, x.kids[i], t, d - 1) && NodeOk(x.kids[i], t, d - 1) && m[x.addr].ptrs[i] == x.kids[i].addr
    ensures Sorted(Seq(x)) ==> Sorted(Seq(x.kids[i]))
  {
    HeapChild(m, x, i);
    ChildOk(x, i, t, d);
    if Sorted(Seq(x)) { ChildSorted(x, i); }
  }

  lemma LeafPut(m: Memory, x: Tree, i: int, k: int, t: int, d: nat) returns (x': Tree)
    requires Lies(m, x, t, d) && !x.internal && Sorted(x.keys) && -1 <= i < |x.keys| && Encloses(x.keys, i + 1, k)
    ensures x' == x.(keys := x.keys[..i + 1] + [k] + x.keys[i + 1..])
    ensures Becomes(m, m[x.addr := m[x.addr].(keys := x'.keys)], x, x', t, d) && Inserted(Seq(x), Seq(x'), k)
  {
    x' := x.(keys := x.keys[..i + 1] + [k] + x.keys[i + 1..]);
    OwnKeysHeap(m, x, x'.keys);
    InsertedInLeaf(x.keys, i, k);
  }

  /** An insertion into a child, after `x0` became `x`, is an insertion into the node. */
  lemma PutInChild(m0: Memory, m: Memory, m': Memory, x0: Tree, x: Tree, i: int, c: Tree, k: int, t: int, d: nat)
    requires Becomes(m0, m, x0, x, t, d) && 2 <= t && 0 < d && Seq(x) == Seq(x0) && Sorted(Seq(x))
    requires 0 <= i <= |x.keys| && |x.kids| == |x.keys| + 1 && Encloses(x.keys, i, k)
    requires NodeOk(x.kids[i], t, d - 1) && Becomes(m, m', x.kids[i], c, t, d - 1)
    requires |x.kids[i].keys| <= |c.keys| <= 2 * t - 1 && Inserted(Seq(x.kids[i]), Seq(c), k)
    ensures Becomes(m0, m', x0, WithChild(x, i, c), t, d) && Inserted(Seq(x0), Seq(WithChild(x, i, c)), k)
  {
    ParentBecomes(m, m', x, i, c, t, d);
    BecomesTrans(m0, m, m', x0, x, WithChild(x, i, c), t, d);
    InsertedInChild(x, i, c, k);
  }

  // ---------------------------------------------------------------- deletion

  /** Two siblings and the key between them, redistributed. */
  lemma TurnDone(m: Memory, x: Tree, i: int, y: Tree, k: int, z: Tree, t: int, d: nat)
    requires Lies(m, x, t, d) && 0 < d && 0 <= i < |x.keys|
    requires y.addr == x.kids[i].addr && z.addr == x.kids[i + 1].addr && Linked(y) && Linked(z)
    requires y.internal == x.kids[i].internal && z.internal == y.internal
    requires y.keys + [k] + z.keys == x.kids[i].keys + [x.keys[i]] + x.kids[i + 1].keys
    requires y.kids + z.kids == x.kids[i].kids + x.kids[i + 1].kids
    requires t - 1 <= |y.keys| <= 2 * t - 1 && t - 1 <= |z.keys| <= 2 * t - 1
    ensures var x' := Turned(x, i, y, k, z);
            var m' := m[y.addr := RecOf(y)][z.addr := RecOf(z)][x.addr := RecOf(x')];
            Becomes(m, m', x, x', t, d) && Seq(x') == Seq(x)
            && Seq(y) + [k] + Seq(z) == Seq(x.kids[i]) + [x.keys[i]] + Seq(x.kids[i + 1])
  {
    TurnHeap(m, x, i, y, k, z);
    BorrowKeeps(x, i, y, k, z, t, d);
  }

  lemma TurnedRec(x: Tree, i: int, y: Tree, k: int, z: Tree)
    requires x.internal && Linked(x) && 0 <= i < |x.keys| && y.addr == x.kids[i].addr && z.addr == x.kids[i + 1].addr
    ensures RecOf(Turned(x, i, y, k, z)) == RecOf(x).(keys := x.keys[i := k])
  {
    UpdateIsSplice(x.keys, i, k);
    AddrsAround(x.kids, i, [y, z], i + 2);
    SameTwo(Addrs(x.kids), i, [y, z]);
  }

  lemma UpdateIsSplice<T>(s: seq<T>, i: int, e: T)
    requires 0 <= i < |s|
    ensures s[..i] + [e] + s[i + 1..] == s[i := e]
  {
  }

  lemma SameTwo(p: seq<int>, i: int, c: seq<Tree>)
    requires 0 <= i && i + 2 <= |p| && |c| == 2 && c[0].addr == p[i] && c[1].addr == p[i + 1]
    ensures p[..i] + Addrs(c) + p[i + 2..] == p
  {
  }

  /** Two siblings of `t - 1` keys merged around the key between them. */
  lemma MergeDone(m: Memory, x: Tree, i: int, t: int, d: nat)
    requires Lies(m, x, t, d) && 0 < d && 0 <= i < |x.keys|
    requires |x.kids[i].keys| == t - 1 && |x.kids[i + 1].keys| == t - 1
    ensures var y, k, z := x.kids[i], x.keys[i], x.kids[i + 1];
            var w := Join(y.addr, y, k, z);
            var x' := Fused(x, i, w);
            var m' := m[y.addr := RecOf(w)][x.addr := RecOf(x')] - {z.addr};
            Becomes(m, m', x, x', t, d) && Seq(x') == Seq(x) && Seq(w) == Seq(y) + [k] + Seq(z)
  {
    MergeKeeps(x, i, t, d);
    MergeHeap(m, x, i, Join(x.kids[i].addr, x.kids[i], x.keys[i], x.kids[i + 1]));
  }

  lemma JoinRec(y: Tree, k: int, z: Tree)
    ensures RecOf(Join(y.addr, y, k, z)) == Rec(y.internal, y.keys + [k] + z.keys, RecOf(y).ptrs + RecOf(z).ptrs)
  {
    AddrsAppend(y.kids, z.kids);
  }

  lemma FusedRec(x: Tree, i: int, w: Tree)
    requires x.internal && Linked(x) && 0 <= i < |x.keys| && w.addr == x.kids[i].addr
    ensures var rx := RecOf(x);
            RecOf(Fused(x, i, w)) == Rec(rx.internal, rx.keys[..i] + rx.keys[i + 1..],
                rx.ptrs[..i + 1] + rx.ptrs[i + 2..])
  {
    AddrsAround(x.kids, i, [w], i + 2);
  }

  /** A node without its last, or its first, key and outermost child. */
  function LessLast(y: Tree): Tree
    requires Linked(y) && y.keys != []
  {
    y.(keys := y.keys[..|y.keys| - 1], kids := if y.internal then y.kids[..|y.keys|] else [])
  }

  function LessFirst(z: Tree): Tree
    requires Linked(z) && z.keys != []
  {
    z.(keys := z.keys[1..], kids := if z.internal then z.kids[1..] else [])
  }

  /** A node with one key more in front, and the last child of `y` before it; or at the end. */
  function WithFirst(y: Tree, k: int, z: Tree): Tree
    requires Linked(y) && y.keys != []
  {
    z.(keys := [k] + z.keys, kids := if y.internal then [y.kids[|y.keys|]] + z.kids else [])
  }

  function WithLast(y: Tree, k: int, z: Tree): Tree
    requires Linked(z) && z.keys != []
  {
    y.(keys := y.keys + [k], kids := if z.internal then y.kids + [z.kids[0]] else [])
  }

  lemma BorrowLeftParts(y: Tree, k: int, z: Tree)
    requires Linked(y) && y.keys != [] && Linked(z) && y.internal == z.internal
    ensures var y', z' := LessLast(y), WithFirst(y, k, z);
            Linked(y') && Linked(z') && y'.keys + [y.keys[|y.keys| - 1]] + z'.keys == y.keys + [k] + z.keys
            && y'.kids + z'.kids == y.kids + z.kids
  {
    LastMoved(y.keys, [k] + z.keys);
    assert y.keys + [k] + z.keys == y.keys + ([k] + z.keys);
    if y.internal { LastMoved(y.kids, z.kids); }
  }

  lemma LastMoved<T>(a: seq<T>, b: seq<T>)
    requires a != []
    ensures a[..|a| - 1] + [a[|a| - 1]] + b == a + b && a[..|a| - 1] + ([a[|a| - 1]] + b) == a + b
  {
    assert a[..|a| - 1] + [a[|a| - 1]] == a;
  }

  lemma BorrowRightParts(y: Tree, k: int, z: Tree)
    requires Linked(y) && z.keys != [] && Linked(z) && y.internal == z.internal
    ensures var y', z' := WithLast(y, k, z), LessFirst(z);
            Linked(y') && Linked(z') && y'.keys + [z.keys[0]] + z'.keys == y.keys + [k] + z.keys
            && y'.kids + z'.kids == y.kids + z.kids
  {
  }

  ghost predicate Keeps(s: seq<int>, s': seq<int>) {
    forall v :: v in s ==> v in s'
  }

  /** The node that grows keeps what it held. */
  lemma WithFirstSeq(y: Tree, k: int, z: Tree)
    requires Linked(y) && y.keys != [] && Linked(z) && y.internal == z.internal
    ensures Keeps(Seq(z), Seq(WithFirst(y, k, z)))
  {
    var tip := Tree(z.addr, z.internal, [], if y.internal then [y.kids[|y.keys|]] else []);
    JoinSeq(z.addr, tip, k, z);
    assert WithFirst(y, k, z) == Join(z.addr, tip, k, z);
  }

  lemma WithLastSeq(y: Tree, k: int, z: Tree)
    requires Linked(y) && z.keys != [] && Linked(z) && y.internal == z.internal
    ensures Keeps(Seq(y), Seq(WithLast(y, k, z)))
  {
    var tip := Tree(z.addr, z.internal, [], if z.internal then [z.kids[0]] else []);
    JoinSeq(y.addr, y, k, tip);
    assert WithLast(y, k, z) == Join(y.addr, y, k, tip);
  }

  lemma BorrowLeftRecs(y: Tree, k: int, z: Tree)
    requires Linked(y) && y.keys != [] && Linked(z) && y.internal == z.internal
    ensures var ry, rz, n := RecOf(y), RecOf(z), |y.keys| - 1;
            && RecOf(LessLast(y)) == Rec(ry.internal, ry.keys[..n], if ry.internal then ry.ptrs[..n + 1] else [])
            && RecOf(WithFirst(y, k, z))
               == Rec(rz.internal, [k] + rz.keys, if rz.internal then [ry.ptrs[n + 1]] + rz.ptrs else [])
  {
  }

  lemma BorrowRightRecs(y: Tree, k: int, z: Tree)
    requires Linked(y) && z.keys != [] && Linked(z) && y.internal == z.internal
    ensures var ry, rz := RecOf(y), RecOf(z);
            && RecOf(LessFirst(z)) == Rec(rz.internal, rz.keys[1..], if rz.internal then rz.ptrs[1..] else [])
            && RecOf(WithLast(y, k, z))
               == Rec(ry.internal, ry.keys + [k], if ry.internal then ry.ptrs + [rz.ptrs[0]] else [])
  {
  }

  /** What `BorrowLeft` writes. */
  lemma BorrowLeftDone(m: Memory, x: Tree, i: int, t: int, d: nat) returns (x': Tree)
    requires Lies(m, x, t, d) && 0 < d && 0 <= i < |x.keys|
    requires t <= |x.kids[i].keys| <= 2 * t - 1 && |x.kids[i + 1].keys| == t - 1
    ensures Lies(m, x.kids[i], t, d - 1) && Lies(m, x.kids[i + 1], t, d - 1)
    ensures var y, z, k := x.kids[i].addr, x.kids[i + 1].addr, x.keys[i];
            var ry, rz, n := RecOf(x.kids[i]), RecOf(x.kids[i + 1]), |x.kids[i].keys| - 1;
            var m1 := m[y := Rec(ry.internal, ry.keys[..n], if ry.internal then ry.ptrs[..n + 1] else [])];
            var m2 := m1[z := Rec(rz.internal, [k] + rz.keys, if rz.internal then [ry.ptrs[n + 1]] + rz.ptrs else [])];
            Becomes(m, m2[x.addr := RecOf(x).(keys := x.keys[i := ry.keys[n]])], x, x', t, d)
    ensures Seq(x') == Seq(x) && |x'.keys| == |x.keys| && |x'.kids| == |x.kids|
    ensures |x'.kids[i + 1].keys| == t && Keeps(Seq(x.kids[i + 1]), Seq(x'.kids[i + 1]))
  {
    var y, k, z := x.kids[i], x.keys[i], x.kids[i + 1];
    ChildLies(m, x, i, t, d);
    ChildLies(m, x, i + 1, t, d);
    var y', k', z' := LessLast(y), y.keys[|y.keys| - 1], WithFirst(y, k, z);
    x' := Turned(x, i, y', k', z');
    BorrowLeftParts(y, k, z);
    WithFirstSeq(y, k, z);
    TurnDone(m, x, i, y', k', z', t, d);
    BorrowLeftRecs(y, k, z);
    TurnedRec(x, i, y', k', z');
  }

  /** What `BorrowRight` writes. */
  lemma BorrowRightDone(m: Memory, x: Tree, i: int, t: int, d: nat) returns (x': Tree)
    requires Lies(m, x, t, d) && 0 < d && 0 <= i < |x.keys|
    requires |x.kids[i].keys| == t - 1 && t <= |x.kids[i + 1].keys| <= 2 * t - 1
    ensures Lies(m, x.kids[i], t, d - 1) && Lies(m, x.kids[i + 1], t, d - 1)
    ensures var y, z, k := x.kids[i].addr, x.kids[i + 1].addr, x.keys[i];
            var ry, rz := RecOf(x.kids[i]), RecOf(x.kids[i + 1]);
            var m1 := m[y := Rec(ry.internal, ry.keys + [k], if ry.internal then ry.ptrs + [rz.ptrs[0]] else [])];
            var m2 := m1[z := Rec(rz.internal, rz.keys[1..], if rz.internal then rz.ptrs[1..] else [])];
            Becomes(m, m2[x.addr := RecOf(x).(keys := x.keys[i := rz.keys[0]])], x, x', t, d)
    ensures Seq(x') == Seq(x) && |x'.keys| == |x.keys| && |x'.kids| == |x.kids|
    ensures |x'.kids[i].keys| == t && Keeps(Seq(x.kids[i]), Seq(x'.kids[i]))
  {
    var y, k, z := x.kids[i], x.keys[i], x.kids[i + 1];
    ChildLies(m, x, i, t, d);
    ChildLies(m, x, i + 1, t, d);
    var y', k', z' := WithLast(y, k, z), z.keys[0], LessFirst(z);
    x' := Turned(x, i, y', k', z');
    BorrowRightParts(y, k, z);
    WithLastSeq(y, k, z);
    TurnDone(m, x, i, y', k', z', t, d);
    BorrowRightRecs(y, k, z);
    TurnedRec(x, i, y', k', z');
  }

  /**
    What deletion takes out of a subtree: with `s == 0` one occurrence of `k`, with `s == 1` the last
    key, with `s == 2` the first one.
   */
  ghost predicate Taken(s: int, q: seq<int>, q': seq<int>, k: int, ret: int) {
    && (s == 0 ==> ret == k && Removed(q, q', k))
    && (s == 1 ==> q == q' + [ret])
    && (s == 2 ==> q == [ret] + q')
  }

  lemma TakenInChild(x: Tree, i: int, c: Tree, s: int, k: int, ret: int)
    requires x.internal && Linked(x) && 0 <= i <= |x.keys| && 0 <= s <= 2
    requires (s == 1 ==> i == |x.keys|) && (s == 2 ==> i == 0)
    requires Taken(s, Seq(x.kids[i]), Seq(c), k, ret)
    ensures Taken(s, Seq(x), Seq(WithChild(x, i, c)), k, ret)
  {
    SeqAt(x, i);
    WithChildSeq(x, i, c);
    if s == 0 {
      RemovedInChild(x, i, c, k);
    } else if s == 1 {
      assert After(x, i) == [];
    } else {
      assert Before(x, i) == [];
    }
  }

  lemma LeafTaken(m: Memory, x: Tree, i: int, s: int, k: int, t: int, d: nat) returns (x': Tree)
    requires Lies(m, x, t, d) && !x.internal && 0 <= i < |x.keys|
    requires (s == 0 ==> x.keys[i] == k) && (s == 1 ==> i == |x.keys| - 1) && (s == 2 ==> i == 0)
    ensures x' == x.(keys := x.keys[..i] + x.keys[i + 1..])
    ensures Becomes(m, m[x.addr := m[x.addr].(keys := x'.keys)], x, x', t, d)
    ensures Taken(s, Seq(x), Seq(x'), k, x.keys[i])
  {
    x' := x.(keys := x.keys[..i] + x.keys[i + 1..]);
    OwnKeysHeap(m, x, x'.keys);
    RemovedAt(x.keys, i);
  }

  /** A child and then the separator beside it have changed. */
  lemma RekeyDone(m: Memory, m1: Memory, x: Tree, j: int, c: Tree, i: int, p: int, t: int, d: nat)
    requires Lies(m, x, t, d) && 0 < d && 0 <= j < |x.kids| && 0 <= i < |x.keys|
    requires Becomes(m, m1, x.kids[j], c, t, d - 1) && NodeOk(c, t, d - 1)
    ensures x.addr in m1 && m1[x.addr] == RecOf(x)
    ensures Becomes(m, m1[x.addr := RecOf(x).(keys := x.keys[i := p])],
                    x, WithChild(x, j, c).(keys := x.keys[i := p]), t, d)
  {
    ParentBecomes(m, m1, x, j, c, t, d);
    var x1 := WithChild(x, j, c);
    var x2 := x1.(keys := x.keys[i := p]);
    WithChildAddrs(x, j, c);
    OwnKeysHeap(m1, x1, x2.keys);
    assert Shape(x2, t, d) by { assert x2.kids == x1.kids; }
    BecomesTrans(m, m1, m1[x.addr := RecOf(x2)], x, x1, x2, t, d);
  }

  /** A separator is replaced by the last key of the child before it. */
  lemma ReplacedLeft(x: Tree, i: int, y: Tree, p: int)
    requires x.internal && Linked(x) && 0 <= i < |x.keys| && Seq(x.kids[i]) == Seq(y) + [p]
    ensures Removed(Seq(x), Seq(WithChild(x, i, y).(keys := x.keys[i := p])), x.keys[i])
  {
    SeqAtKey(x, i);
    TurnedSeq(x, i, y, p, x.kids[i + 1]);
    assert WithChild(x, i, y).(keys := x.keys[i := p]) == Turned(x, i, y, p, x.kids[i + 1]) by {
      UpdateIsSplice(x.keys, i, p);
    }
    LeftInstead(Before(x, i), Seq(y), p, x.keys[i], Seq(x.kids[i + 1]), After(x, i + 1));
  }

  lemma LeftInstead(a: seq<int>, y: seq<int>, p: int, k: int, z: seq<int>, b: seq<int>)
    ensures Removed(a + ((y + [p]) + [k] + z) + b, a + (y + [p] + z) + b, k)
  {
    RemovedBetween(y + [p], k, z);
    RemovedWithin(a, (y + [p]) + [k] + z, (y + [p]) + z, b, k);
  }

  lemma RightInstead(a: seq<int>, y: seq<int>, k: int, p: int, z: seq<int>, b: seq<int>)
    ensures Removed(a + (y + [k] + ([p] + z)) + b, a + (y + [p] + z) + b, k)
  {
    RemovedBetween(y, k, [p] + z);
    assert y + ([p] + z) == y + [p] + z;
    RemovedWithin(a, y + [k] + ([p] + z), y + ([p] + z), b, k);
  }

  /** A separator is replaced by the first key of the child behind it. */
  lemma ReplacedRight(x: Tree, i: int, z: Tree, p: int)
    requires x.internal && Linked(x) && 0 <= i < |x.keys| && Seq(x.kids[i + 1]) == [p] + Seq(z)
    ensures Removed(Seq(x), Seq(WithChild(x, i + 1, z).(keys := x.keys[i := p])), x.keys[i])
  {
    SeqAtKey(x, i);
    TurnedSeq(x, i, x.kids[i], p, z);
    assert WithChild(x, i + 1, z).(keys := x.keys[i := p]) == Turned(x, i, x.kids[i], p, z) by {
      UpdateIsSplice(x.keys, i, p);
    }
    RightInstead(Before(x, i), Seq(x.kids[i]), x.keys[i], p, Seq(z), After(x, i + 1));
  }

  class KBTree {
    const t: int
    var root: int
    var m: Memory
    var next: int
    var nKeys: int
    ghost var tree: Tree
    ghost var depth: nat

    /**
      The nodes in memory are exactly those of one tree, sorted, all leaves at one depth, `t - 1` to
      `2t - 1` keys in every node but the root, and at least one in an internal root.
     */
    ghost predicate Held()
      reads this
    {
      && 2 <= t && root == tree.addr && Heap(m, tree) && Foot(tree) == m.Keys && Below(m, next)
      && Shape(tree, t, depth) && |tree.keys| <= 2 * t - 1 && (tree.internal ==> tree.keys != [])
      && Sorted(Seq(tree))
    }

    ghost predicate Valid()
      reads this
    {
      Held() && nKeys == |Seq(tree)|
    }

    /** kb_init */
    constructor (size: int)
      requires 2 <= size
      ensures Valid() && Seq(tree) == [] && t == size
    {
      t := size;
      root := 0;
      m := map[0 := Rec(false, [], [])];
      next := 1;
      nKeys := 0;
      tree := Tree(0, false, [], []);
      depth := 0;
    }

    // -------------------------------------------------------------- kb_getp

    /** Where `k` is stored, if it is: found exactly when the tree holds `k`. */
    method Get(k: int) returns (found: bool, addr: int, at: int)
      requires Valid()
      ensures found <==> k in Seq(tree)
      ensures found ==> addr in m && 0 <= at < |m[addr].keys| && m[addr].keys[at] == k
    {
      ghost var c, d := tree, depth;
      var x := root;
      while true
        invariant x == c.addr && Lies(m, c, t, d) && Sorted(Seq(c))
        invariant c.internal ==> c.keys != []
        invariant k in Seq(tree) <==> k in Seq(c)
        decreases d
      {
        KeysSorted(c);
        var i, r := GetAux(m[x].keys, k);
        if 0 <= i && r == 0 {
          KeyInSeq(c, i);
          return true, x, i;
        }
        if !m[x].internal { return false, x, i; }
        InChild(c, i + 1, k);
        ChildSorted(c, i + 1);
        ChildOk(c, i + 1, t, d);
        HeapChild(m, c, i + 1);
        x := m[x].ptrs[i + 1];
        c, d := c.kids[i + 1], d - 1;
      }
    }

    // -------------------------------------------------------------- kb_putp

    /** __kb_split: child `i` of `x`, full, becomes two around its middle key. */
    method Split(x: int, i: int, ghost c: Tree, ghost d: nat) returns (ghost c': Tree)
      requires x == c.addr && Lies(m, c, t, d) && 0 < d && Below(m, next)
      requires 0 <= i <= |c.keys| && Linked(c.kids[i]) && |c.kids[i].keys| == 2 * t - 1
      modifies `m, `next
      ensures Becomes(old(m), m, c, c', t, d) && Below(m, next)
      ensures c' == SplitOf(c, i, t, old(next))
      ensures Seq(c') == Seq(c)
    {
      ghost var w := c.kids[i];
      c' := SplitOf(c, i, t, next);
      HeapChild(m, c, i);
      FootInMemory(m, c);
      SplitDone(m, c, i, next, t, d);
      HalfRecs(w, t, next);
      PartedRec(c, i, Lower(w, t), w.keys[t - 1], Upper(w, t, next));
      var y, z := m[x].ptrs[i], next;
      var ry, rx := m[y], m[x];
      next := next + 1;
      m := m[z := Rec(ry.internal, ry.keys[t..], if ry.internal then ry.ptrs[t..] else [])];
      m := m[y := Rec(ry.internal, ry.keys[..t - 1], if ry.internal then ry.ptrs[..t] else [])];
      m := m[x := Rec(rx.internal, rx.keys[..i] + [ry.keys[t - 1]] + rx.keys[i..],
                      rx.ptrs[..i + 1] + [z] + rx.ptrs[i + 1..])];
    }

    /** Before descending into child `i` of `x`: a full child is split and the right half is chosen. */
    method MakeRoom(x: int, i: int, k: int, ghost c: Tree, ghost d: nat) returns (j: int, ghost c': Tree)
      requires x == c.addr && Lies(m, c, t, d) && 0 < d && Below(m, next)
      requires |c.keys| < 2 * t - 1 && 0 <= i <= |c.keys| && Encloses(c.keys, i, k)
      modifies `m, `next
      ensures Becomes(old(m), m, c, c', t, d) && Below(m, next) && Seq(c') == Seq(c)
      ensures Ready(c, c', j, k, t)
    {
      j, c' := i, c;
      ChildLies(m, c, i, t, d);
      SelfBecomes(m, c, t, d);
      if |m[m[x].ptrs[i]].keys| == 2 * t - 1 {
        RoomMade(c, i, next, k, t);
        c' := Split(x, i, c, d);
        if k > m[x].keys[i] { j := i + 1; }
      }
    }

    /** The leaf case of __kb_putp_aux. */
    method PutLeaf(x: int, i: int, k: int, ghost c: Tree, ghost d: nat) returns (ghost c': Tree)
      requires x == c.addr && Lies(m, c, t, d) && !c.internal && Below(m, next)
      requires Sorted(c.keys) && -1 <= i < |c.keys| && Encloses(c.keys, i + 1, k)
      modifies `m
      ensures Becomes(old(m), m, c, c', t, d) && Below(m, next) && Inserted(Seq(c), Seq(c'), k)
      ensures |c'.keys| == |c.keys| + 1 && x in m && m[x].keys == c'.keys && c'.keys[i + 1] == k
    {
      var rx := m[x];
      c' := LeafPut(m, c, i, k, t, d);
      m := m[x := rx.(keys := rx.keys[..i + 1] + [k] + rx.keys[i + 1..])];
    }

    /** __kb_putp_aux: `x` has room; `(at, pos)` is where the new key lies. */
    method PutAux(x: int, k: int, ghost c: Tree, ghost d: nat) returns (at: int, pos: int, ghost c': Tree)
      requires x == c.addr && Lies(m, c, t, d) && Below(m, next) && Sorted(Seq(c)) && |c.keys| < 2 * t - 1
      modifies `m, `next
      ensures Becomes(old(m), m, c, c', t, d) && Below(m, next) && Inserted(Seq(c), Seq(c'), k)
      ensures |c.keys| <= |c'.keys| <= |c.keys| + 1
      ensures at in m && 0 <= pos < |m[at].keys| && m[at].keys[pos] == k
      decreases d
    {
      KeysSorted(c);
      var i, r := GetAux(m[x].keys, k);
      EnclosedAfter(c.keys, i, k);
      if !m[x].internal {
        c' := PutLeaf(x, i, k, c, d);
        at, pos := x, i + 1;
      } else {
        ghost var c1, w';
        i, c1 := MakeRoom(x, i + 1, k, c, d);
        ghost var m1 := m;
        ChildLies(m, c1, i, t, d);
        at, pos, w' := PutAux(m[x].ptrs[i], k, c1.kids[i], d - 1);
        PutInChild(old(m), m1, m, c, c1, i, w', k, t, d);
        c' := WithChild(c1, i, w');
      }
    }

    /** The full root is split under a new root. */
    method GrowRoot()
      requires Held() && |tree.keys| == 2 * t - 1
      modifies `m, `next, `root, `tree, `depth
      ensures Held() && |tree.keys| == 1 && Seq(tree) == old(Seq(tree))
    {
      UnderNewRoot(m, tree, next, t, depth);
      tree, depth := Tree(next, true, [], [tree]), depth + 1;
      m := m[next := Rec(true, [], [root])];
      root := next;
      next := next + 1;
      tree := Split(root, 0, tree, depth);
    }

    method Put(k: int) returns (at: int, pos: int)
      requires Valid()
      modifies this
      ensures Valid() && Inserted(old(Seq(tree)), Seq(tree), k)
      ensures multiset(Seq(tree)) == multiset(old(Seq(tree))) + multiset{k}
      ensures at in m && 0 <= pos < |m[at].keys| && m[at].keys[pos] == k
    {
      ghost var s := Seq(tree);
      nKeys := nKeys + 1;
      if |m[root].keys| == 2 * t - 1 {
        GrowRoot();
      }
      at, pos, tree := PutAux(root, k, tree, depth);
      InsertedSorted(s, Seq(tree), k);
    }

    // -------------------------------------------------------------- kb_delp

    /** kbtree.h:250-258, 279-286 and 289-296: children `i` and `i + 1` of `x` become one. */
    method Merge(x: int, i: int, ghost c: Tree, ghost d: nat) returns (ghost c': Tree)
      requires x == c.addr && Lies(m, c, t, d) && 0 < d && Below(m, next) && 0 <= i < |c.keys|
      requires |c.kids[i].keys| == t - 1 && |c.kids[i + 1].keys| == t - 1
      modifies `m
      ensures Becomes(old(m), m, c, c', t, d) && Below(m, next) && Seq(c') == Seq(c)
      ensures |c'.keys| == |c.keys| - 1 && |c'.kids| == |c.kids| - 1 && |c'.kids[i].keys| == 2 * t - 1
      ensures Seq(c'.kids[i]) == Seq(c.kids[i]) + [c.keys[i]] + Seq(c.kids[i + 1])
    {
      ghost var w := Join(c.kids[i].addr, c.kids[i], c.keys[i], c.kids[i + 1]);
      c' := Fused(c, i, w);
      HeapChild(m, c, i);
      HeapChild(m, c, i + 1);
      MergeDone(m, c, i, t, d);
      JoinRec(c.kids[i], c.keys[i], c.kids[i + 1]);
      FusedRec(c, i, w);
      var rx := m[x];
      var y, z := rx.ptrs[i], rx.ptrs[i + 1];
      var ry, rz := m[y], m[z];
      m := m[y := Rec(ry.internal, ry.keys + [rx.keys[i]] + rz.keys, ry.ptrs + rz.ptrs)];
      m := m[x := Rec(rx.internal, rx.keys[..i] + rx.keys[i + 1..], rx.ptrs[..i + 1] + rx.ptrs[i + 2..])];
      m := m - {z};
    }

    /** kbtree.h:265-270: child `i + 1` of `x` takes the last key of child `i` through the separator. */
    method BorrowLeft(x: int, i: int, ghost c: Tree, ghost d: nat) returns (ghost c': Tree)
      requires x == c.addr && Lies(m, c, t, d) && 0 < d && Below(m, next) && 0 <= i < |c.keys|
      requires t <= |c.kids[i].keys| <= 2 * t - 1 && |c.kids[i + 1].keys| == t - 1
      modifies `m
      ensures Becomes(old(m), m, c, c', t, d) && Below(m, next) && Seq(c') == Seq(c)
      ensures |c'.keys| == |c.keys| && |c'.kids| == |c.kids| && |c'.kids[i + 1].keys| == t
      ensures Keeps(Seq(c.kids[i + 1]), Seq(c'.kids[i + 1]))
    {
      c' := BorrowLeftDone(m, c, i, t, d);
      var rx := m[x];
      var y, xp := rx.ptrs[i], rx.ptrs[i + 1];
      var ry, rp := m[y], m[xp];
      var n := |ry.keys| - 1;
      m := m[y := Rec(ry.internal, ry.keys[..n], if ry.internal then ry.ptrs[..n + 1] else [])];
      m := m[xp := Rec(rp.internal, [rx.keys[i]] + rp.keys, if rp.internal then [ry.ptrs[n + 1]] + rp.ptrs else [])];
      m := m[x := rx.(keys := rx.keys[i := ry.keys[n]])];
    }

    /** kbtree.h:272-277: child `i` of `x` takes the first key of child `i + 1` through the separator. */
    method BorrowRight(x: int, i: int, ghost c: Tree, ghost d: nat) returns (ghost c': Tree)
      requires x == c.addr && Lies(m, c, t, d) && 0 < d && Below(m, next) && 0 <= i < |c.keys|
      requires |c.kids[i].keys| == t - 1 && t <= |c.kids[i + 1].keys| <= 2 * t - 1
      modifies `m
      ensures Becomes(old(m), m, c, c', t, d) && Below(m, next) && Seq(c') == Seq(c)
      ensures |c'.keys| == |c.keys| && |c'.kids| == |c.kids| && |c'.kids[i].keys| == t
      ensures Keeps(Seq(c.kids[i]), Seq(c'.kids[i]))
    {
      c' := BorrowRightDone(m, c, i, t, d);
      var rx := m[x];
      var xp, y := rx.ptrs[i], rx.ptrs[i + 1];
      var rp, ry := m[xp], m[y];
      m := m[xp := Rec(rp.internal, rp.keys + [rx.keys[i]], if rp.internal then rp.ptrs + [ry.ptrs[0]] else [])];
      m := m[y := Rec(ry.internal, ry.keys[1..], if ry.internal then ry.ptrs[1..] else [])];
      m := m[x := rx.(keys := rx.keys[i := ry.keys[0]])];
    }

    /** kbtree.h:263-298: before descending into child `i`, it gets at least `t` keys. */
    method Refill(x: int, i: int, ghost c: Tree, ghost d: nat) returns (j: int, ghost c': Tree)
      requires x == c.addr && Lies(m, c, t, d) && 0 < d && Below(m, next) && 0 <= i <= |c.keys| && c.keys != []
      modifies `m
      ensures Becomes(old(m), m, c, c', t, d) && Below(m, next) && Seq(c') == Seq(c)
      ensures |c.keys| - 1 <= |c'.keys| <= |c.keys| && |c'.kids| == |c'.keys| + 1 && 0 <= j <= |c'.keys|
      ensures |c'.kids[j].keys| >= t && Keeps(Seq(c.kids[i]), Seq(c'.kids[j]))
      ensures (i == 0 ==> j == 0) && (i == |c.keys| ==> j == |c'.keys|)
    {
      hide Seq, Foot, Sorted;
      j, c' := i, c;
      var rx := m[x];
      ChildLies(m, c, i, t, d);
      if 0 < i { ChildLies(m, c, i - 1, t, d); }
      if i < |c.keys| { ChildLies(m, c, i + 1, t, d); }
      if |m[rx.ptrs[i]].keys| == t - 1 {
        if 0 < i && |m[rx.ptrs[i - 1]].keys| >= t {
          c' := BorrowLeft(x, i - 1, c, d);
        } else if i < |rx.keys| && |m[rx.ptrs[i + 1]].keys| >= t {
          c' := BorrowRight(x, i, c, d);
        } else if 0 < i && |m[rx.ptrs[i - 1]].keys| == t - 1 {
          c' := Merge(x, i - 1, c, d);
          j := i - 1;
        } else if i < |rx.keys| && |m[rx.ptrs[i + 1]].keys| == t - 1 {
          c' := Merge(x, i, c, d);
        }
      } else {
        SelfBecomes(m, c, t, d);
      }
    }

    /** kbtree.h:239-248: the key found in an internal node gives way to a neighbour, if a child can spare one. */
    method ReplaceKey(x: int, i: int, left: bool, ghost c: Tree, ghost d: nat) returns (ret: int, ghost c': Tree)
      requires x == c.addr && Lies(m, c, t, d) && 0 < d && Below(m, next) && 0 <= i < |c.keys| && Sorted(Seq(c))
      requires |c.kids[if left then i else i + 1].keys| >= t
      modifies `m
      ensures Becomes(old(m), m, c, c', t, d) && Below(m, next) && |c'.keys| == |c.keys|
      ensures ret == c.keys[i] && Removed(Seq(c), Seq(c'), ret)
      decreases d, 0
    {
      var j := if left then i else i + 1;
      ChildLies(m, c, j, t, d);
      ret := m[x].keys[i];
      ghost var w := c.kids[j];
      ghost var m0 := m;
      ghost var w';
      var p;
      p, w' := DelAux(m[x].ptrs[j], ret, if left then 1 else 2, w, d - 1);
      RekeyDone(m0, m, c, j, w', i, p, t, d);
      c' := WithChild(c, j, w').(keys := c.keys[i := p]);
      if left { ReplacedLeft(c, i, w', p); } else { ReplacedRight(c, i, w', p); }
      m := m[x := m[x].(keys := m[x].keys[i := p])];
    }

    /** kbtree.h:231-237 */
    method DelLeaf(x: int, i: int, s: int, k: int, ghost c: Tree, ghost d: nat) returns (ret: int, ghost c': Tree)
      requires x == c.addr && Lies(m, c, t, d) && Below(m, next) && !c.internal && 0 <= i < |c.keys|
      requires (s == 0 ==> c.keys[i] == k) && (s == 1 ==> i == |c.keys| - 1) && (s == 2 ==> i == 0)
      modifies `m
      ensures Becomes(old(m), m, c, c', t, d) && Below(m, next) && Taken(s, Seq(c), Seq(c'), k, ret)
      ensures |c'.keys| == |c.keys| - 1 && ret == c.keys[i]
    {
      var rx := m[x];
      c' := LeafTaken(m, c, i, s, k, t, d);
      ret := rx.keys[i];
      m := m[x := rx.(keys := rx.keys[..i] + rx.keys[i + 1..])];
    }

    /** kbtree.h:299: the descent into child `i`, which has a key to spare. */
    method DelBelow(x: int, i: int, k: int, s: int, ghost c: Tree, ghost d: nat) returns (ret: int, ghost c': Tree)
      requires x == c.addr && Lies(m, c, t, d) && 0 < d && Below(m, next) && Sorted(Seq(c))
      requires 0 <= i <= |c.keys| && |c.kids[i].keys| >= t && 0 <= s <= 2
      requires (s == 0 ==> k in Seq(c.kids[i])) && (s == 1 ==> i == |c.keys|) && (s == 2 ==> i == 0)
      modifies `m
      ensures Becomes(old(m), m, c, c', t, d) && Below(m, next) && Taken(s, Seq(c), Seq(c'), k, ret)
      ensures |c'.keys| == |c.keys|
      decreases d, 0
    {
      ghost var w';
      ChildLies(m, c, i, t, d);
      ret, w' := DelAux(m[x].ptrs[i], k, s, c.kids[i], d - 1);
      ParentBecomes(old(m), m, c, i, w', t, d);
      TakenInChild(c, i, w', s, k, ret);
      c' := WithChild(c, i, w');
    }

    /** kbtree.h:238-260: `k` is key `i` of the internal node `x`. */
    method DelFound(x: int, i: int, k: int, ghost c: Tree, ghost d: nat) returns (ret: int, ghost c': Tree)
      requires x == c.addr && Lies(m, c, t, d) && 0 < d && Below(m, next) && Sorted(Seq(c))
      requires 0 <= i < |c.keys| && c.keys[i] == k
      modifies `m
      ensures Becomes(old(m), m, c, c', t, d) && Below(m, next) && ret == k && Removed(Seq(c), Seq(c'), k)
      ensures |c.keys| - 1 <= |c'.keys| <= |c.keys|
      decreases d, 1
    {
      ChildLies(m, c, i, t, d);
      ChildLies(m, c, i + 1, t, d);
      var rx := m[x];
      if |m[rx.ptrs[i]].keys| >= t {
        ret, c' := ReplaceKey(x, i, true, c, d);
      } else if |m[rx.ptrs[i + 1]].keys| >= t {
        ret, c' := ReplaceKey(x, i, false, c, d);
      } else {
        ghost var c1 := Merge(x, i, c, d);
        ghost var m1 := m;
        ret, c' := DelBelow(x, i, k, 0, c1, d);
        BecomesTrans(old(m), m1, m, c, c1, c', t, d);
      }
    }

    /** __kb_delp_aux, for `k` in the subtree (`s == 0`), or for its last (`s == 1`) or first key (`s == 2`). */
    method DelAux(x: int, k: int, s: int, ghost c: Tree, ghost d: nat) returns (ret: int, ghost c': Tree)
      requires x == c.addr && Lies(m, c, t, d) && Below(m, next) && Sorted(Seq(c)) && c.keys != []
      requires 0 <= s <= 2 && (s == 0 ==> k in Seq(c))
      modifies `m
      ensures Becomes(old(m), m, c, c', t, d) && Below(m, next) && Taken(s, Seq(c), Seq(c'), k, ret)
      ensures |c.keys| - 1 <= |c'.keys| <= |c.keys|
      decreases d, 2
    {
      KeysSorted(c);
      var rx := m[x];
      var i, r := if s == 1 then |rx.keys| - 1 else -1, if !rx.internal then 0 else if s == 1 then 1 else -1;
      if s == 0 { i, r := GetAux(rx.keys, k); }
      if !rx.internal {
        if s == 2 { i := i + 1; }
        ret, c' := DelLeaf(x, i, s, k, c, d);
      } else if r == 0 {
        ret, c' := DelFound(x, i, k, c, d);
      } else {
        if s == 0 { InChild(c, i + 1, k); }
        ghost var c1;
        i, c1 := Refill(x, i + 1, c, d);
        ghost var m1 := m;
        ret, c' := DelBelow(x, i, k, s, c1, d);
        BecomesTrans(old(m), m1, m, c, c1, c', t, d);
      }
    }

    /** The root, left with no key over one child, gives way to it. */
    method ShrinkRoot()
      requires 2 <= t && root == tree.addr && Heap(m, tree) && Foot(tree) == m.Keys && Below(m, next)
      requires Shape(tree, t, depth) && |tree.keys| <= 2 * t - 1 && Sorted(Seq(tree))
      modifies `m, `root, `tree, `depth
      ensures Held() && Seq(tree) == old(Seq(tree))
    {
      if m[root].keys == [] && m[root].internal {
        ghost var c := tree.kids[0];
        OnlyChild(m, tree, t, depth);
        var x := root;
        root := m[x].ptrs[0];
        m := m - {x};
        tree, depth := c, depth - 1;
      }
    }

    /** `k` is in the tree; the source gives the result of deleting an absent key no meaning. */
    method Del(k: int) returns (ret: int)
      requires Valid() && k in Seq(tree)
      modifies this
      ensures Valid() && ret == k && Removed(old(Seq(tree)), Seq(tree), k)
      ensures multiset(Seq(tree)) == multiset(old(Seq(tree))) - multiset{k}
    {
      assert tree.keys != [];
      hide Seq, Heap, Foot, Shape, Sorted, Removed;
      ghost var s, n := Seq(tree), |tree.keys|;
      ghost var c;
      ret, c := DelAux(root, k, 0, tree, depth);
      tree := c;
      RemovedSorted(s, Seq(tree), k);
      nKeys := nKeys - 1;
      ShrinkRoot();
    }
  }

  // ---------------------------------------------------------------- whole runs

  datatype Op = Put(k: int) | Del(k: int)

  function Outcome(s: multiset<int>, op: Op): multiset<int> {
    match op
    case Put(k) => s + multiset{k}
    case Del(k) => s - multiset{k}
  }

  /** What a run of operations does to the multiset of keys; absent keys are not deleted. */
  function Replay(s: multiset<int>, ops: seq<Op>): multiset<int>
    decreases |ops|
  {
    if ops == [] then s else Replay(Outcome(s, ops[0]), ops[1..])
  }

  /** After any run the tree is valid and holds, in order, exactly the keys of the replay. */
  method ApplyAll(b: KBTree, ops: seq<Op>)
    requires b.Valid()
    modifies b
    ensures b.Valid() && multiset(Seq(b.tree)) == Replay(multiset(old(Seq(b.tree))), ops)
    decreases |ops|
  {
    if ops != [] {
      ghost var s := multiset(Seq(b.tree));
      match ops[0] {
        case Put(k) =>
          var at, pos := b.Put(k);
        case Del(k) =>
          var found, addr, at := b.Get(k);
          if found {
            var ret := b.Del(k);
          }
      }
      assert multiset(Seq(b.tree)) == Outcome(s, ops[0]);
      ApplyAll(b, ops[1..]);
    }
  }
}
