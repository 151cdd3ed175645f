/**
  Whole runs: over any sequence of calls the tree is a finite map from keys to nodes, and range
  queries agree with a scan of that map.
  Source: liblinktool/klib/krmq.h, lines 81-327.
 */
module KrmqRuns {
  import opened Krmq
  import opened KrmqHeap
  import opened KrmqRange
  import opened KrmqSearch
  import opened KrmqTree
  import opened Wrappers

  type Dict = map<int, Addr>

  datatype Call = Insert(x: Addr) | Erase(k: int) | EraseFirst | Find(k: int) | Range(lo: int, up: int)

  /** The nodes of a tree by their keys. */
  ghost function Keyed(s: seq<Addr>): Dict
    requires Sorted(s)
  {
    KeysDiffer(s);
    map q | q in s :: q.key := q
  }

  lemma KeysDiffer(s: seq<Addr>)
    requires Sorted(s)
    ensures forall p, q :: p in s && q in s && p.key == q.key ==> p == q
  {
    forall p, q | p in s && q in s && p.key == q.key ensures p == q {
      var i :| 0 <= i < |s| && s[i] == p;
      var j :| 0 <= j < |s| && s[j] == q;
      assert i <= j && j <= i;
    }
  }

  lemma OfNode(s: seq<Addr>, q: Addr)
    requires Sorted(s)
    ensures q in s <==> q.key in Keyed(s) && Keyed(s)[q.key] == q
  {
  }

  lemma OfKey(s: seq<Addr>, k: int)
    requires Sorted(s)
    ensures k in Keyed(s) <==> HasKey(s, k)
    ensures k in Keyed(s) ==> Keyed(s)[k] in s && Keyed(s)[k].key == k
  {
    if HasKey(s, k) {
      var i :| 0 <= i < |s| && s[i].key == k;
      assert s[i] in s;
    }
    if k in Keyed(s) {
      var i :| 0 <= i < |s| && s[i] == Keyed(s)[k];
    }
  }

  /** Two sequences of which the second has one node more. */
  lemma OneMore(s: seq<Addr>, x: Addr, s': seq<Addr>)
    requires Sorted(s) && Sorted(s') && x !in s
    requires forall q: Addr :: q in s' <==> q in s || q == x
    ensures Keyed(s') == Keyed(s)[x.key := x] && Keyed(s) == Keyed(s') - {x.key}
  {
    var d, d' := Keyed(s), Keyed(s');
    hide Keyed, HasKey, Sorted;
    OfNode(s', x);
    forall k ensures k in d' <==> k in d || k == x.key {
      OfKey(s, k);
      OfKey(s', k);
      if k in d { OfNode(s', d[k]); }
      if k in d' { OfNode(s, d'[k]); }
    }
    forall k | k in d ensures k != x.key && d'[k] == d[k] {
      OfKey(s, k);
      OfNode(s', d[k]);
    }
  }

  /** The map after a call. */
  ghost function After(d: Dict, call: Call): Dict {
    match call
    case Insert(x) => if x.key in d then d else d[x.key := x]
    case Erase(k) => d - {k}
    case EraseFirst => map k | k in d && !Lowest(d, k) :: d[k]
    case Find(_) => d
    case Range(_, _) => d
  }

  ghost predicate Lowest(d: Dict, k: int) {
    k in d && forall j :: j in d ==> k <= j
  }

  ghost function AfterAll(d: Dict, calls: seq<Call>): Dict
    decreases |calls|
  {
    if calls == [] then d else After(AfterAll(d, calls[..|calls| - 1]), calls[|calls| - 1])
  }

  /** What a call may answer; only a range query leaves a choice, among nodes of the same weight. */
  ghost predicate Answers(d: Dict, call: Call, r: Ptr) {
    match call
    case Insert(x) => r == if x.key in d then d[x.key] else x
    case Erase(k) => r == if k in d then d[k] else Null
    case EraseFirst => if d == map[] then r == Null else r.Ref? && Lowest(d, r.key) && r == d[r.key]
    case Find(k) => r == if k in d then d[k] else Null
    case Range(lo, up) =>
      if exists k :: k in d && lo <= k <= up
      then
        && r.Ref? && r.key in d && d[r.key] == r && lo <= r.key <= up
        && forall k :: k in d && lo <= k <= up ==> r.w <= d[k].w
      else r == Null
  }

  lemma Inserted(s: seq<Addr>, n: int, x: Addr, s': seq<Addr>)
    requires Sorted(s) && Sorted(s') && 0 <= n <= |s| && s' == s[..n] + [x] + s[n..] && !HasKey(s, x.key)
    ensures Keyed(s') == Keyed(s)[x.key := x] && x.key !in Keyed(s)
  {
    assert s == s[..n] + s[n..];
    assert forall q: Addr :: q in s' <==> q in s || q == x;
    OfKey(s, x.key);
    OfNode(s, x);
    OneMore(s, x, s');
  }

  /** A node out of the sequence is a key out of the map. */
  lemma Removed(s: seq<Addr>, n: int, s': seq<Addr>)
    requires Sorted(s) && Sorted(s') && 0 <= n < |s| && s' == s[..n] + s[n + 1..]
    ensures Keyed(s') == Keyed(s) - {s[n].key} && s[n].key in Keyed(s) && Keyed(s)[s[n].key] == s[n]
  {
    var x := s[n];
    assert s == s[..n] + [x] + s[n + 1..];
    assert forall q: Addr :: q in s <==> q in s' || q == x;
    SortedAround(s[..n], x, s[n + 1..]);
    assert x !in s';
    OfNode(s, x);
    OneMore(s', x, s);
  }

  lemma FirstIsLowest(s: seq<Addr>)
    requires Sorted(s) && s != []
    ensures Lowest(Keyed(s), s[0].key) && Keyed(s)[s[0].key] == s[0]
    ensures After(Keyed(s), EraseFirst) == Keyed(s) - {s[0].key} && Keyed(s) != map[]
  {
    var d := Keyed(s);
    OfNode(s, s[0]);
    hide Keyed;
    forall j | j in d ensures s[0].key <= j {
      OfKey(s, j);
    }
    AfterFirst(d, s[0].key);
  }

  lemma AfterFirst(d: Dict, k: int)
    requires Lowest(d, k)
    ensures After(d, EraseFirst) == d - {k}
  {
    forall j | j in d ensures Lowest(d, j) <==> j == k {
    }
  }

  /** Answers of the tree, read off its sequence of nodes. */
  lemma FoundInMap(s: seq<Addr>, k: int, r: Ptr)
    requires Sorted(s) && (if HasKey(s, k) then r in s && r.key == k else r == Null)
    ensures r == if k in Keyed(s) then Keyed(s)[k] else Null
  {
    OfKey(s, k);
    if HasKey(s, k) { OfNode(s, r); }
  }

  lemma RangeInMap(s: seq<Addr>, lo: int, up: int, r: Ptr)
    requires Sorted(s)
    requires r == Null <==> forall q :: q in s ==> !Within(q, lo, up)
    requires r != Null ==> r in s && Within(r, lo, up) && forall q :: q in s && Within(q, lo, up) ==> r.w <= q.w
    ensures Answers(Keyed(s), Range(lo, up), r)
  {
    var d := Keyed(s);
    hide Keyed;
    forall k | k in d && lo <= k <= up ensures r != Null && r.w <= d[k].w {
      OfKey(s, k);
      assert Within(d[k], lo, up);
    }
    if r != Null { OfNode(s, r); }
  }

  lemma NothingLowest(s: seq<Addr>)
    requires s == []
    ensures Keyed(s) == map[] && After(Keyed(s), EraseFirst) == map[]
  {
  }

  lemma ErasedKey(s: seq<Addr>, k: int, r: Ptr, cnt: int, s': seq<Addr>)
    requires Sorted(s) && Sorted(s') && Erased(s, Some(k), r, cnt, s')
    ensures Answers(Keyed(s), Erase(k), r) && Keyed(s') == After(Keyed(s), Erase(k)) && |s'| <= |s|
  {
    OfKey(s, k);
    if HasKey(s, k) {
      hide Keyed, HasKey, Sorted;
      Removed(s, cnt - 1, s');
    }
  }

  lemma ErasedFirst(s: seq<Addr>, r: Ptr, cnt: int, s': seq<Addr>)
    requires Sorted(s) && Sorted(s') && Erased(s, None, r, cnt, s')
    ensures Answers(Keyed(s), EraseFirst, r) && Keyed(s') == After(Keyed(s), EraseFirst) && |s'| <= |s|
  {
    hide Keyed, Sorted;
    FirstIsLowest(s);
    assert s[..0] + s[1..] == s[1..];
    Removed(s, 0, s');
  }

  // ---------------------------------------------------------------- runs

  /** One call of a run. */
  method One(t: KRmq, call: Call, fake: Addr, junk: Head) returns (r: Ptr)
    requires t.Valid() && |t.Nodes()| < MAX_SIZE && fake !in t.m && (call.Insert? ==> call.x != fake)
    modifies t
    ensures t.Valid() && fake !in t.m && |t.Nodes()| <= |old(t.Nodes())| + 1
    ensures Answers(Keyed(old(t.Nodes())), call, r)
    ensures Keyed(t.Nodes()) == After(Keyed(old(t.Nodes())), call)
  {
    ghost var s := t.Nodes();
    hide Keyed, Seq, HasKey, Heap, Sized, Balanced, Mins;
    match call {
      case Insert(x) =>
        var cnt;
        r, cnt := t.Insert(x);
        if HasKey(s, x.key) { FoundInMap(s, x.key, r); } else { Inserted(s, cnt, x, t.Nodes()); }
        OfKey(s, x.key);
      case Erase(k) => r := Take(t, k, fake, junk);
      case EraseFirst => r := TakeFirst(t, fake, junk);
      case Find(k) =>
        var cnt;
        r, cnt := t.Find(k);
        FoundInMap(s, k, r);
      case Range(lo, up) =>
        r := t.Rmq(lo, up);
        RangeInMap(s, lo, up, r);
    }
  }

  method Take(t: KRmq, k: int, fake: Addr, junk: Head) returns (r: Ptr)
    requires t.Valid() && fake !in t.m
    modifies t
    ensures t.Valid() && fake !in t.m && |t.Nodes()| <= |old(t.Nodes())|
    ensures Answers(Keyed(old(t.Nodes())), Erase(k), r)
    ensures Keyed(t.Nodes()) == After(Keyed(old(t.Nodes())), Erase(k))
  {
    ghost var s := t.Nodes();
    hide Keyed, Seq, HasKey, Heap, Sized, Balanced, Mins;
    hide Erased, Answers, After, Sorted;
    var cnt;
    r, cnt := t.Erase(Some(k), fake, junk);
    ErasedKey(s, k, r, cnt, t.Nodes());
  }

  method TakeFirst(t: KRmq, fake: Addr, junk: Head) returns (r: Ptr)
    requires t.Valid() && fake !in t.m
    modifies t
    ensures t.Valid() && fake !in t.m && |t.Nodes()| <= |old(t.Nodes())|
    ensures Answers(Keyed(old(t.Nodes())), EraseFirst, r)
    ensures Keyed(t.Nodes()) == After(Keyed(old(t.Nodes())), EraseFirst)
  {
    ghost var s := t.Nodes();
    EmptySeq(t.tree);
    hide Keyed, Seq, HasKey, Heap, Sized, Balanced, Mins;
    if t.root == Null {
      NothingLowest(s);
      return Null;
    }
    hide Erased, Answers, After, Sorted;
    var cnt;
    r, cnt := t.Erase(None, fake, junk);
    ErasedFirst(s, r, cnt, t.Nodes());
  }

  /** Every answer was right for the map that the calls before it gave. */
  ghost predicate Answered(d: Dict, calls: seq<Call>, rs: seq<Ptr>) {
    |rs| == |calls| && forall i :: 0 <= i < |calls| ==> Answers(AfterAll(d, calls[..i]), calls[i], rs[i])
  }

  lemma AnsweredMore(d: Dict, calls: seq<Call>, rs: seq<Ptr>, call: Call, r: Ptr)
    requires Answered(d, calls, rs) && Answers(AfterAll(d, calls), call, r)
    ensures Answered(d, calls + [call], rs + [r]) && AfterAll(d, calls + [call]) == After(AfterAll(d, calls), call)
  {
    var cs := calls + [call];
    assert cs[..|calls|] == calls;
    hide After, Answers;
    forall i | 0 <= i < |cs| ensures Answers(AfterAll(d, cs[..i]), cs[i], (rs + [r])[i]) {
      if i < |calls| { assert cs[..i] == calls[..i]; }
    }
  }

  /** Every answer of a run is right, and the tree it leaves holds what the calls say. */
  method Run(t: KRmq, calls: seq<Call>, fake: Addr, junk: Head) returns (rs: seq<Ptr>)
    requires t.Valid() && |t.Nodes()| + |calls| <= MAX_SIZE && fake !in t.m
    requires forall i :: 0 <= i < |calls| && calls[i].Insert? ==> calls[i].x != fake
    modifies t
    ensures t.Valid() && Keyed(t.Nodes()) == AfterAll(Keyed(old(t.Nodes())), calls)
    ensures Answered(Keyed(old(t.Nodes())), calls, rs)
  {
    rs := [];
    ghost var d := Keyed(t.Nodes());
    assert calls[..0] == [];
    hide After, Answers, Keyed, Seq, Answered;
    AnsweredNone(d);
    for i := 0 to |calls|
      invariant t.Valid() && |t.Nodes()| + |calls| - i <= MAX_SIZE && fake !in t.m
      invariant Keyed(t.Nodes()) == AfterAll(d, calls[..i]) && Answered(d, calls[..i], rs)
    {
      var r := One(t, calls[i], fake, junk);
      AnsweredMore(d, calls[..i], rs, calls[i], r);
      assert calls[..i + 1] == calls[..i] + [calls[i]];
      rs := rs + [r];
    }
    assert calls[..|calls|] == calls;
  }

  lemma AnsweredNone(d: Dict)
    ensures Answered(d, [], [])
  {
  }
}
