/**
  B-trees as values: the sequence of keys a tree stands for, its shape, and what joining, splitting
  and replacing children do to them.
  Source: liblinktool/klib/kbtree.h, lines 103-131 and 160-314.
 */
module KbtreeSpec {

  /** A node with its subtrees; `addr` is where the node lives. */
  datatype Tree = Tree(addr: int, internal: bool, keys: seq<int>, kids: seq<Tree>)

  // ---------------------------------------------------------------- the keys in order

  /** The keys of a tree in order. */
  ghost function Seq(x: Tree): seq<int>
    decreases x, 1
  {
    if !x.internal || x.kids == [] then x.keys
    else Seq(x.kids[0]) + Right(x.keys, x.kids[1..])
  }

  /** Keys and the subtrees to their right. */
  ghost function Right(keys: seq<int>, kids: seq<Tree>): seq<int>
    decreases kids, 0
  {
    if keys == [] || kids == [] then [] else [keys[0]] + Seq(kids[0]) + Right(keys[1..], kids[1..])
  }

  /** Subtrees and the keys to their right. */
  ghost function Left(keys: seq<int>, kids: seq<Tree>): seq<int>
    requires |keys| == |kids|
  {
    if keys == [] then []
    else Left(keys[..|keys| - 1], kids[..|kids| - 1]) + Seq(kids[|kids| - 1]) + [keys[|keys| - 1]]
  }

  lemma RightCons(k: int, keys: seq<int>, c: Tree, kids: seq<Tree>)
    ensures Right([k] + keys, [c] + kids) == [k] + Seq(c) + Right(keys, kids)
  {
    assert ([k] + keys)[1..] == keys && ([c] + kids)[1..] == kids;
  }

  lemma Assoc(a: seq<int>, b: seq<int>, c: seq<int>)
    ensures a + (b + c) == (a + b) + c
  {
  }

  lemma {:induction false} RightAppend(k1: seq<int>, c1: seq<Tree>, k2: seq<int>, c2: seq<Tree>)
    requires |k1| == |c1|
    ensures Right(k1 + k2, c1 + c2) == Right(k1, c1) + Right(k2, c2)
    decreases |k1|
  {
    if k1 == [] {
      assert k1 + k2 == k2 && c1 + c2 == c2;
    } else {
      var k, kr, c, cr := k1[0], k1[1..], c1[0], c1[1..];
      RightAppend(kr, cr, k2, c2);
      RightCons(k, kr, c, cr);
      RightCons(k, kr + k2, c, cr + c2);
      assert k1 == [k] + kr && c1 == [c] + cr;
      assert k1 + k2 == [k] + (kr + k2) && c1 + c2 == [c] + (cr + c2);
      Assoc([k] + Seq(c), Right(kr, cr), Right(k2, c2));
    }
  }

  /** Reading the separators to the left or to the right comes to the same. */
  lemma {:induction false} LeftRight(keys: seq<int>, kids: seq<Tree>)
    requires |kids| == |keys| + 1
    ensures Seq(kids[0]) + Right(keys, kids[1..]) == Left(keys, kids[..|keys|]) + Seq(kids[|keys|])
    decreases |keys|
  {
    var n := |keys|;
    if n == 0 {
      assert Right(keys, kids[1..]) == [];
    } else {
      var ki, ci := keys[..n - 1], kids[..n];
      LeftRight(ki, ci);
      assert kids[1..] == ci[1..] + [kids[n]] && keys == ki + [keys[n - 1]];
      RightAppend(ki, ci[1..], [keys[n - 1]], [kids[n]]);
      RightOne(keys[n - 1], kids[n]);
      assert ci[..n - 1] == kids[..n][..n - 1];
    }
  }

  lemma RightOne(k: int, c: Tree)
    ensures Right([k], [c]) == [k] + Seq(c)
  {
    assert [k][1..] == [] && [c][1..] == [];
  }

  ghost predicate Linked(x: Tree) {
    if x.internal then |x.kids| == |x.keys| + 1 else x.kids == []
  }

  /** What comes before and after child `i`. */
  ghost function Before(x: Tree, i: int): seq<int>
    requires x.internal && Linked(x) && 0 <= i <= |x.keys|
  {
    Left(x.keys[..i], x.kids[..i])
  }

  ghost function After(x: Tree, i: int): seq<int>
    requires x.internal && Linked(x) && 0 <= i <= |x.keys|
  {
    Right(x.keys[i..], x.kids[i + 1..])
  }

  lemma SeqAt(x: Tree, i: int)
    requires x.internal && Linked(x) && 0 <= i <= |x.keys|
    ensures Seq(x) == Before(x, i) + Seq(x.kids[i]) + After(x, i)
  {
    var kl, cl, kr, cr := x.keys[..i], x.kids[..i + 1], x.keys[i..], x.kids[i + 1..];
    LeftRight(kl, cl);
    assert cl[..i] == x.kids[..i];
    assert x.keys == kl + kr && x.kids[1..] == cl[1..] + cr;
    RightAppend(kl, cl[1..], kr, cr);
    Assoc(Seq(x.kids[0]), Right(kl, cl[1..]), Right(kr, cr));
  }

  /** Around a separator: everything up to child `i`, the key, child `i + 1` and the rest. */
  lemma SeqAtKey(x: Tree, i: int)
    requires x.internal && Linked(x) && 0 <= i < |x.keys|
    ensures Seq(x) == Before(x, i) + (Seq(x.kids[i]) + [x.keys[i]] + Seq(x.kids[i + 1])) + After(x, i + 1)
  {
    SeqAt(x, i);
    assert After(x, i) == [x.keys[i]] + Seq(x.kids[i + 1]) + After(x, i + 1) by {
      assert x.keys[i..][1..] == x.keys[i + 1..] && x.kids[i + 1..][1..] == x.kids[i + 2..];
    }
  }

  // ---------------------------------------------------------------- joining two nodes around a key

  function Join(addr: int, y: Tree, k: int, z: Tree): Tree {
    Tree(addr, y.internal, y.keys + [k] + z.keys, y.kids + z.kids)
  }

  /** kbtree.h:251-254, 279-282 and 289-292 backwards and forwards: the order of keys does not change. */
  lemma JoinSeq(addr: int, y: Tree, k: int, z: Tree)
    requires Linked(y) && Linked(z) && y.internal == z.internal
    ensures Seq(Join(addr, y, k, z)) == Seq(y) + [k] + Seq(z) && Linked(Join(addr, y, k, z))
  {
    if y.internal {
      var j := Join(addr, y, k, z);
      var cz := z.kids[1..];
      assert j.kids[1..] == y.kids[1..] + z.kids && j.kids[0] == y.kids[0];
      assert j.keys == y.keys + ([k] + z.keys) && z.kids == [z.kids[0]] + cz;
      RightAppend(y.keys, y.kids[1..], [k] + z.keys, z.kids);
      RightCons(k, z.keys, z.kids[0], cz);
      Assoc(Seq(y.kids[0]), Right(y.keys, y.kids[1..]), [k] + Seq(z.kids[0]) + Right(z.keys, cz));
      Assoc([k], Seq(z.kids[0]), Right(z.keys, cz));
      Assoc(Seq(y), [k], Seq(z));
    }
  }

  // ---------------------------------------------------------------- shape

  /** The nodes below the root: `t - 1` to `2t - 1` keys, children of one depth. */
  ghost predicate NodeOk(x: Tree, t: int, d: nat)
    decreases d, 1
  {
    t - 1 <= |x.keys| <= 2 * t - 1 && Shape(x, t, d)
  }

  /** Links and children are right; nothing is said about the number of keys of `x` itself. */
  ghost predicate Shape(x: Tree, t: int, d: nat)
    decreases d, 0
  {
    && Linked(x) && (x.internal <==> d != 0)
    && (d != 0 ==> forall c :: c in x.kids ==> NodeOk(c, t, d - 1))
  }

  lemma ChildOk(x: Tree, i: int, t: int, d: nat)
    requires Shape(x, t, d) && 0 < d && 0 <= i < |x.kids|
    ensures NodeOk(x.kids[i], t, d - 1) && Linked(x.kids[i]) && (x.kids[i].internal <==> d != 1)
  {
    assert x.kids[i] in x.kids;
    assert NodeOk(x.kids[i], t, d - 1);
    assert Shape(x.kids[i], t, d - 1);
  }

  // ---------------------------------------------------------------- order

  ghost predicate Sorted(s: seq<int>) {
    forall i, j :: 0 <= i < j < |s| ==> s[i] <= s[j]
  }

  ghost predicate AtMost(s: seq<int>, k: int) {
    forall i :: 0 <= i < |s| ==> s[i] <= k
  }

  ghost predicate AtLeast(s: seq<int>, k: int) {
    forall i :: 0 <= i < |s| ==> k <= s[i]
  }

  lemma SortedParts(a: seq<int>, b: seq<int>)
    requires Sorted(a + b)
    ensures Sorted(a) && Sorted(b)
  {
    forall i, j | 0 <= i < j < |a| ensures a[i] <= a[j] {
      assert (a + b)[i] <= (a + b)[j];
    }
    forall i, j | 0 <= i < j < |b| ensures b[i] <= b[j] {
      assert (a + b)[|a| + i] <= (a + b)[|a| + j];
    }
  }

  lemma SortedAround(a: seq<int>, k: int, b: seq<int>)
    requires Sorted(a + [k] + b)
    ensures AtMost(a, k) && AtLeast(b, k)
  {
    var s := a + [k] + b;
    assert s[|a|] == k;
    forall i | 0 <= i < |a| ensures a[i] <= k { assert s[i] <= s[|a|]; }
    forall i | 0 <= i < |b| ensures k <= b[i] { assert s[|a|] <= s[|a| + 1 + i]; }
  }

  /** `k` is put somewhere between what is at most and what is at least `k`. */
  ghost predicate Inserted(s: seq<int>, s': seq<int>, k: int) {
    exists p :: 0 <= p <= |s| && s' == s[..p] + [k] + s[p..] && AtMost(s[..p], k) && AtLeast(s[p..], k)
  }

  /** One occurrence of `k` is taken out. */
  ghost predicate Removed(s: seq<int>, s': seq<int>, k: int) {
    exists p :: 0 <= p < |s| && s[p] == k && s' == s[..p] + s[p + 1..]
  }

  lemma SortedConcat(a: seq<int>, k: int, b: seq<int>)
    requires Sorted(a) && Sorted(b) && AtMost(a, k) && AtLeast(b, k)
    ensures Sorted(a + b) && Sorted(a + [k] + b)
  {
    var s, s' := a + b, a + [k] + b;
    forall i, j | 0 <= i < j < |s| ensures s[i] <= s[j] {
      assert s[i] == if i < |a| then a[i] else b[i - |a|];
      assert s[j] == if j < |a| then a[j] else b[j - |a|];
    }
    forall i, j | 0 <= i < j < |s'| ensures s'[i] <= s'[j] {
      assert s'[i] == if i < |a| then a[i] else if i == |a| then k else b[i - |a| - 1];
      assert s'[j] == if j < |a| then a[j] else if j == |a| then k else b[j - |a| - 1];
    }
  }

  lemma InsertedSorted(s: seq<int>, s': seq<int>, k: int)
    requires Sorted(s) && Inserted(s, s', k)
    ensures Sorted(s') && multiset(s') == multiset(s) + multiset{k} && |s'| == |s| + 1
  {
    var p :| 0 <= p <= |s| && s' == s[..p] + [k] + s[p..] && AtMost(s[..p], k) && AtLeast(s[p..], k);
    assert s == s[..p] + s[p..];
    SortedParts(s[..p], s[p..]);
    SortedConcat(s[..p], k, s[p..]);
  }

  lemma CutSorted(a: seq<int>, k: int, b: seq<int>)
    requires Sorted(a + [k] + b)
    ensures Sorted(a + b)
  {
    SortedAround(a, k, b);
    assert a + [k] + b == a + ([k] + b);
    SortedParts(a, [k] + b);
    SortedParts([k], b);
    SortedConcat(a, k, b);
  }

  lemma RemovedSorted(s: seq<int>, s': seq<int>, k: int)
    requires Sorted(s) && Removed(s, s', k)
    ensures Sorted(s') && multiset(s) == multiset(s') + multiset{k} && |s'| == |s| - 1
  {
    var p :| 0 <= p < |s| && s[p] == k && s' == s[..p] + s[p + 1..];
    assert s == s[..p] + [k] + s[p + 1..];
    CutSorted(s[..p], k, s[p + 1..]);
  }

  lemma InsertedWithin(a: seq<int>, s: seq<int>, s': seq<int>, b: seq<int>, k: int)
    requires Inserted(s, s', k) && AtMost(a, k) && AtLeast(b, k)
    ensures Inserted(a + s + b, a + s' + b, k)
  {
    var p :| 0 <= p <= |s| && s' == s[..p] + [k] + s[p..] && AtMost(s[..p], k) && AtLeast(s[p..], k);
    var w := a + s + b;
    assert w[..|a| + p] == a + s[..p] && w[|a| + p..] == s[p..] + b;
    assert a + s' + b == w[..|a| + p] + [k] + w[|a| + p..];
  }

  lemma RemovedWithin(a: seq<int>, s: seq<int>, s': seq<int>, b: seq<int>, k: int)
    requires Removed(s, s', k)
    ensures Removed(a + s + b, a + s' + b, k)
  {
    var p :| 0 <= p < |s| && s[p] == k && s' == s[..p] + s[p + 1..];
    var w := a + s + b;
    assert w[..|a| + p] == a + s[..p] && w[|a| + p + 1..] == s[p + 1..] + b && w[|a| + p] == k;
    assert a + s' + b == w[..|a| + p] + w[|a| + p + 1..];
  }

  // ---------------------------------------------------------------- what a search in one node tells

  lemma {:induction false} KeysInLeft(keys: seq<int>, kids: seq<Tree>, i: int)
    requires |keys| == |kids| && 0 <= i < |keys|
    ensures keys[i] in Left(keys, kids)
    decreases |keys|
  {
    var n := |keys|;
    if i < n - 1 { KeysInLeft(keys[..n - 1], kids[..n - 1], i); }
  }

  lemma AtMostIn(s: seq<int>, k: int, v: int)
    requires AtMost(s, k) && v in s
    ensures v <= k
  {
  }

  lemma AroundParts(a: seq<int>, b: seq<int>, k: int, c: seq<int>, d: seq<int>)
    requires Sorted(a + (b + [k] + c) + d)
    ensures AtMost(a, k) && AtMost(b, k) && AtLeast(c, k) && AtLeast(d, k)
  {
    assert a + (b + [k] + c) + d == (a + b) + [k] + (c + d);
    SortedAround(a + b, k, c + d);
    assert forall j :: 0 <= j < |a| ==> (a + b)[j] == a[j];
    assert forall j :: 0 <= j < |b| ==> (a + b)[|a| + j] == b[j];
    assert forall j :: 0 <= j < |c| ==> (c + d)[j] == c[j];
    assert forall j :: 0 <= j < |d| ==> (c + d)[|c| + j] == d[j];
  }

  /** A separator has everything before it on one side and everything behind it on the other. */
  lemma AroundKey(x: Tree, i: int)
    requires x.internal && Linked(x) && 0 <= i < |x.keys| && Sorted(Seq(x))
    ensures AtMost(Before(x, i), x.keys[i]) && AtMost(Seq(x.kids[i]), x.keys[i])
    ensures AtLeast(Seq(x.kids[i + 1]), x.keys[i]) && AtLeast(After(x, i + 1), x.keys[i])
  {
    SeqAtKey(x, i);
    AroundParts(Before(x, i), Seq(x.kids[i]), x.keys[i], Seq(x.kids[i + 1]), After(x, i + 1));
  }

  lemma AtMostConcat(a: seq<int>, b: seq<int>, k: int)
    requires AtMost(a, k) && AtMost(b, k)
    ensures AtMost(a + b, k)
  {
  }

  lemma AtLeastConcat(a: seq<int>, b: seq<int>, k: int)
    requires AtLeast(a, k) && AtLeast(b, k)
    ensures AtLeast(a + b, k)
  {
  }

  lemma Loosen(s: seq<int>, k: int, l: int)
    ensures AtMost(s, k) && k <= l ==> AtMost(s, l)
    ensures AtLeast(s, k) && l <= k ==> AtLeast(s, l)
  {
  }

  /** Between two separators that enclose `k`, everything outside child `i` is on the right side of `k`. */
  lemma AroundChild(x: Tree, i: int, k: int)
    requires x.internal && Linked(x) && 0 <= i <= |x.keys| && Sorted(Seq(x))
    requires i > 0 ==> x.keys[i - 1] <= k
    requires i < |x.keys| ==> k <= x.keys[i]
    ensures AtMost(Before(x, i), k) && AtLeast(After(x, i), k)
  {
    if i > 0 {
      var l := x.keys[i - 1];
      AroundKey(x, i - 1);
      AtMostConcat(Before(x, i - 1), Seq(x.kids[i - 1]), l);
      AtMostConcat(Before(x, i - 1) + Seq(x.kids[i - 1]), [l], l);
      assert x.keys[..i][..i - 1] == x.keys[..i - 1] && x.kids[..i][..i - 1] == x.kids[..i - 1];
      Loosen(Before(x, i), l, k);
    }
    if i < |x.keys| {
      var r := x.keys[i];
      AroundKey(x, i);
      AtLeastConcat([r], Seq(x.kids[i + 1]), r);
      AtLeastConcat([r] + Seq(x.kids[i + 1]), After(x, i + 1), r);
      assert x.keys[i..][1..] == x.keys[i + 1..] && x.kids[i + 1..][1..] == x.kids[i + 2..];
      Loosen(After(x, i), r, k);
    }
  }

  /** The keys of a node are in order. */
  lemma KeysSorted(x: Tree)
    requires Linked(x) && Sorted(Seq(x))
    ensures Sorted(x.keys)
  {
    if x.internal {
      forall i, j | 0 <= i < j < |x.keys| ensures x.keys[i] <= x.keys[j] {
        AroundKey(x, j);
        KeysInLeft(x.keys[..j], x.kids[..j], i);
        AtMostIn(Before(x, j), x.keys[j], x.keys[i]);
      }
    }
  }

  /** A child of a sorted tree is sorted. */
  lemma ChildSorted(x: Tree, i: int)
    requires x.internal && Linked(x) && 0 <= i <= |x.keys| && Sorted(Seq(x))
    ensures Sorted(Seq(x.kids[i]))
  {
    SeqAt(x, i);
    SortedParts(Before(x, i) + Seq(x.kids[i]), After(x, i));
    SortedParts(Before(x, i), Seq(x.kids[i]));
  }

  /** The same node with another subtree as child `i`. */
  function WithChild(x: Tree, i: int, c: Tree): Tree
    requires 0 <= i < |x.kids|
  {
    x.(kids := x.kids[..i] + [c] + x.kids[i + 1..])
  }

  lemma WithChildSeq(x: Tree, i: int, c: Tree)
    requires x.internal && Linked(x) && 0 <= i <= |x.keys|
    ensures Linked(WithChild(x, i, c))
    ensures Seq(WithChild(x, i, c)) == Before(x, i) + Seq(c) + After(x, i)
  {
    var x' := WithChild(x, i, c);
    SeqAt(x', i);
    assert x'.kids[..i] == x.kids[..i] && x'.kids[i + 1..] == x.kids[i + 1..];
  }

  /** Insertion into the child that encloses `k` is insertion into the node. */
  lemma InsertedInChild(x: Tree, i: int, c: Tree, k: int)
    requires x.internal && Linked(x) && 0 <= i <= |x.keys| && Sorted(Seq(x))
    requires i > 0 ==> x.keys[i - 1] <= k
    requires i < |x.keys| ==> k <= x.keys[i]
    requires Inserted(Seq(x.kids[i]), Seq(c), k)
    ensures Inserted(Seq(x), Seq(WithChild(x, i, c)), k)
  {
    SeqAt(x, i);
    WithChildSeq(x, i, c);
    AroundChild(x, i, k);
    InsertedWithin(Before(x, i), Seq(x.kids[i]), Seq(c), After(x, i), k);
  }

  lemma RemovedInChild(x: Tree, i: int, c: Tree, k: int)
    requires x.internal && Linked(x) && 0 <= i <= |x.keys|
    requires Removed(Seq(x.kids[i]), Seq(c), k)
    ensures Removed(Seq(x), Seq(WithChild(x, i, c)), k)
  {
    SeqAt(x, i);
    WithChildSeq(x, i, c);
    RemovedWithin(Before(x, i), Seq(x.kids[i]), Seq(c), After(x, i), k);
  }

  lemma SliceIn(s: seq<Tree>, i: int, j: int, e: Tree)
    requires 0 <= i <= |s| && 0 <= j <= |s|
    ensures e in s[..i] || e in s[j..] ==> e in s
  {
    if e in s[..i] {
      var p :| 0 <= p < i && s[..i][p] == e;
      assert s[p] == e;
    }
    if e in s[j..] {
      var p :| 0 <= p < |s| - j && s[j..][p] == e;
      assert s[j + p] == e;
    }
  }

  lemma WithChildShape(x: Tree, i: int, c: Tree, t: int, d: nat)
    requires Shape(x, t, d) && 0 < d && 0 <= i <= |x.keys| && NodeOk(c, t, d - 1)
    ensures Shape(WithChild(x, i, c), t, d)
  {
    forall e | e in WithChild(x, i, c).kids ensures NodeOk(e, t, d - 1) {
      SliceIn(x.kids, i, i + 1, e);
    }
  }

  // ---------------------------------------------------------------- splitting and merging children

  /** The node with separator `i` and its two children replaced by one child. */
  function Fused(x: Tree, i: int, c: Tree): Tree
    requires 0 <= i < |x.keys| && |x.kids| == |x.keys| + 1
  {
    x.(keys := x.keys[..i] + x.keys[i + 1..], kids := x.kids[..i] + [c] + x.kids[i + 2..])
  }

  /** The node with child `i` replaced by two children and a separator. */
  function Parted(x: Tree, i: int, y: Tree, k: int, z: Tree): Tree
    requires 0 <= i <= |x.keys| && |x.kids| == |x.keys| + 1
  {
    x.(keys := x.keys[..i] + [k] + x.keys[i..], kids := x.kids[..i] + [y, z] + x.kids[i + 1..])
  }

  /** If a child is the join of two trees, parting it does not change the order of the keys. */
  lemma PartedSeq(x: Tree, i: int, y: Tree, k: int, z: Tree)
    requires x.internal && Linked(x) && 0 <= i <= |x.keys|
    requires Seq(x.kids[i]) == Seq(y) + [k] + Seq(z)
    ensures Linked(Parted(x, i, y, k, z)) && Seq(Parted(x, i, y, k, z)) == Seq(x)
  {
    var x' := Parted(x, i, y, k, z);
    SeqAt(x, i);
    SeqAtKey(x', i);
    assert x'.keys[..i] == x.keys[..i] && x'.kids[..i] == x.kids[..i];
    assert x'.keys[i + 1..] == x.keys[i..] && x'.kids[i + 2..] == x.kids[i + 1..];
  }

  lemma FusedSeq(x: Tree, i: int, c: Tree)
    requires x.internal && Linked(x) && 0 <= i < |x.keys|
    ensures Linked(Fused(x, i, c)) && Seq(Fused(x, i, c)) == Before(x, i) + Seq(c) + After(x, i + 1)
  {
    var x' := Fused(x, i, c);
    SeqAt(x', i);
    assert x'.keys[..i] == x.keys[..i] && x'.kids[..i] == x.kids[..i];
    assert x'.keys[i..] == x.keys[i + 1..] && x'.kids[i + 1..] == x.kids[i + 2..];
  }

  lemma PartedShape(x: Tree, i: int, y: Tree, k: int, z: Tree, t: int, d: nat)
    requires Shape(x, t, d) && 0 < d && 0 <= i <= |x.keys| && NodeOk(y, t, d - 1) && NodeOk(z, t, d - 1)
    ensures Shape(Parted(x, i, y, k, z), t, d)
  {
    forall e | e in Parted(x, i, y, k, z).kids ensures NodeOk(e, t, d - 1) {
      SliceIn(x.kids, i, i + 1, e);
    }
  }

  lemma FusedShape(x: Tree, i: int, c: Tree, t: int, d: nat)
    requires Shape(x, t, d) && 0 < d && 0 <= i < |x.keys| && NodeOk(c, t, d - 1)
    ensures Shape(Fused(x, i, c), t, d)
  {
    forall e | e in Fused(x, i, c).kids ensures NodeOk(e, t, d - 1) {
      SliceIn(x.kids, i, i + 2, e);
    }
  }

  /** The two halves of a join, taken apart again, have the children of the whole. */
  lemma HalvesShape(addr: int, y: Tree, k: int, z: Tree, t: int, d: nat)
    requires Linked(y) && Linked(z) && y.internal == z.internal
    ensures Shape(Join(addr, y, k, z), t, d) <==> Shape(y, t, d) && Shape(z, t, d)
  {
    var w := Join(addr, y, k, z);
    assert forall e :: e in w.kids <==> e in y.kids || e in z.kids;
  }

  /** The node with separator `i` and the two children beside it replaced. */
  function Turned(x: Tree, i: int, y: Tree, k: int, z: Tree): Tree
    requires 0 <= i < |x.keys| && |x.kids| == |x.keys| + 1
  {
    x.(keys := x.keys[..i] + [k] + x.keys[i + 1..], kids := x.kids[..i] + [y, z] + x.kids[i + 2..])
  }

  lemma TurnedSeq(x: Tree, i: int, y: Tree, k: int, z: Tree)
    requires x.internal && Linked(x) && 0 <= i < |x.keys|
    ensures Linked(Turned(x, i, y, k, z))
    ensures Seq(Turned(x, i, y, k, z)) == Before(x, i) + (Seq(y) + [k] + Seq(z)) + After(x, i + 1)
  {
    var x' := Turned(x, i, y, k, z);
    SeqAtKey(x', i);
    assert x'.keys[..i] == x.keys[..i] && x'.kids[..i] == x.kids[..i];
    assert x'.keys[i + 1..] == x.keys[i + 1..] && x'.kids[i + 2..] == x.kids[i + 2..];
  }

  lemma TurnedShape(x: Tree, i: int, y: Tree, k: int, z: Tree, t: int, d: nat)
    requires Shape(x, t, d) && 0 < d && 0 <= i < |x.keys| && NodeOk(y, t, d - 1) && NodeOk(z, t, d - 1)
    ensures Shape(Turned(x, i, y, k, z), t, d)
  {
    forall e | e in Turned(x, i, y, k, z).kids ensures NodeOk(e, t, d - 1) {
      SliceIn(x.kids, i, i + 2, e);
    }
  }

  /** Moving the border between two siblings changes neither the order of the keys nor the depth. */
  lemma BorrowKeeps(x: Tree, i: int, y: Tree, k: int, z: Tree, t: int, d: nat)
    requires Shape(x, t, d) && 0 < d && 0 <= i < |x.keys| && Linked(y) && Linked(z)
    requires y.internal == x.kids[i].internal && z.internal == y.internal
    requires y.keys + [k] + z.keys == x.kids[i].keys + [x.keys[i]] + x.kids[i + 1].keys
    requires y.kids + z.kids == x.kids[i].kids + x.kids[i + 1].kids
    requires t - 1 <= |y.keys| <= 2 * t - 1 && t - 1 <= |z.keys| <= 2 * t - 1
    ensures Shape(Turned(x, i, y, k, z), t, d) && Seq(Turned(x, i, y, k, z)) == Seq(x)
    ensures Seq(y) + [k] + Seq(z) == Seq(x.kids[i]) + [x.keys[i]] + Seq(x.kids[i + 1])
  {
    var y0, z0 := x.kids[i], x.kids[i + 1];
    ChildOk(x, i, t, d);
    ChildOk(x, i + 1, t, d);
    JoinSeq(0, y0, x.keys[i], z0);
    JoinSeq(0, y, k, z);
    HalvesShape(0, y0, x.keys[i], z0, t, d - 1);
    HalvesShape(0, y, k, z, t, d - 1);
    TurnedSeq(x, i, y, k, z);
    SeqAtKey(x, i);
    TurnedShape(x, i, y, k, z, t, d);
  }

  /** Merging two siblings of `t - 1` keys around their separator. */
  lemma MergeKeeps(x: Tree, i: int, t: int, d: nat)
    requires Shape(x, t, d) && 0 < d && 0 <= i < |x.keys| && 1 <= t
    requires |x.kids[i].keys| == t - 1 && |x.kids[i + 1].keys| == t - 1
    ensures var w := Join(x.kids[i].addr, x.kids[i], x.keys[i], x.kids[i + 1]);
            Shape(Fused(x, i, w), t, d) && Seq(Fused(x, i, w)) == Seq(x) && NodeOk(w, t, d - 1)
            && Seq(w) == Seq(x.kids[i]) + [x.keys[i]] + Seq(x.kids[i + 1])
  {
    var y, k, z := x.kids[i], x.keys[i], x.kids[i + 1];
    var w := Join(y.addr, y, k, z);
    ChildOk(x, i, t, d);
    ChildOk(x, i + 1, t, d);
    JoinSeq(y.addr, y, k, z);
    HalvesShape(y.addr, y, k, z, t, d - 1);
    FusedSeq(x, i, w);
    SeqAtKey(x, i);
    FusedShape(x, i, w, t, d);
  }

  /** The two halves of a full node. */
  function Lower(y: Tree, t: int): Tree
    requires 2 <= t && |y.keys| == 2 * t - 1 && Linked(y)
  {
    y.(keys := y.keys[..t - 1], kids := if y.internal then y.kids[..t] else [])
  }

  function Upper(y: Tree, t: int, addr: int): Tree
    requires 2 <= t && |y.keys| == 2 * t - 1 && Linked(y)
  {
    Tree(addr, y.internal, y.keys[t..], if y.internal then y.kids[t..] else [])
  }

  /** Splitting a full child around its middle key. */
  lemma SplitKeeps(x: Tree, i: int, addr: int, t: int, d: nat)
    requires Shape(x, t, d) && 0 < d && 0 <= i <= |x.keys| && 2 <= t
    requires Linked(x.kids[i]) && |x.kids[i].keys| == 2 * t - 1
    ensures var y, k, z := Lower(x.kids[i], t), x.kids[i].keys[t - 1], Upper(x.kids[i], t, addr);
            Shape(Parted(x, i, y, k, z), t, d) && Seq(Parted(x, i, y, k, z)) == Seq(x)
            && y.kids + z.kids == x.kids[i].kids
  {
    var w := x.kids[i];
    ChildOk(x, i, t, d);
    var y, k, z := Lower(w, t), w.keys[t - 1], Upper(w, t, addr);
    assert w == Join(w.addr, y, k, z);
    JoinSeq(w.addr, y, k, z);
    HalvesShape(w.addr, y, k, z, t, d - 1);
    PartedSeq(x, i, y, k, z);
    PartedShape(x, i, y, k, z, t, d);
  }
}
