/**
  What a khash bucket array means, and what the in-place rehash keeps at every step.
  Source: liblinktool/klib/khash.h, lines 230-355.
 */
module KhashTable {
  import opened KhashFlags
  import opened KhashProbe

  /** The key and value types the macros are instantiated with; buckets start out with arbitrary contents. */
  type Key(==, 0, !new)
  type Val(0, !new)

  /** The probe for `hash` reaches bucket `x` through buckets that are not empty. */
  ghost predicate Reached(hash: nat, st: seq<Slot>, x: nat)
    requires 0 < |st|
  {
    exists p: nat :: Probe(hash, p, |st|) == x && Occupied(hash, st, p)
  }

  /** The first `p` probes all meet occupied buckets. */
  ghost predicate Occupied(hash: nat, st: seq<Slot>, p: nat)
    requires 0 < |st|
  {
    forall q: nat :: q < p ==> !st[Probe(hash, q, |st|)].Empty?
  }

  /** What the arrays hold, the map that stands for, and the bucket of each key. */
  datatype Buckets = Buckets(st: seq<Slot>, keys: seq<Key>, vals: seq<Val>, M: map<Key, Val>, pos: map<Key, nat>)

  /** A live bucket is the place of its key. */
  ghost predicate SlotOk(t: Buckets, i: int)
    requires 0 <= i < |t.st| == |t.keys|
  {
    !t.st[i].Both? && (t.st[i].Live? ==> t.keys[i] in t.pos && t.pos[t.keys[i]] == i)
  }

  /** A key of the map has its place, in a live bucket its probe can reach. */
  ghost predicate KeyOk(h: Key -> nat, t: Buckets, k: Key)
    requires |t.st| == |t.keys| == |t.vals|
  {
    && (k in t.M <==> k in t.pos)
    && (k in t.pos ==>
          var x := t.pos[k];
          x < |t.st| && t.st[x].Live? && t.keys[x] == k && t.vals[x] == t.M[k] && Reached(h(k), t.st, x))
  }

  /** The buckets hold exactly the map `M`. */
  ghost predicate Table(h: Key -> nat, t: Buckets) {
    && |t.keys| == |t.vals| == |t.st|
    && (forall i :: 0 <= i < |t.st| ==> SlotOk(t, i))
    && (forall k :: KeyOk(h, t, k))
  }

  // ---------------------------------------------------------------- look-up

  /** Bucket `i` does not hold `k`. */
  predicate NotAt(st: seq<Slot>, keys: seq<Key>, k: Key, i: nat)
    requires i < |st| <= |keys|
  {
    !st[i].Live? || keys[i] != k
  }

  /** The first `s` probes do not meet `k`. */
  ghost predicate NotMet(hash: nat, st: seq<Slot>, keys: seq<Key>, k: Key, s: nat)
    requires 0 < |st| <= |keys|
  {
    forall q: nat :: q < s ==> NotAt(st, keys, k, Probe(hash, q, |st|))
  }

  /** A probe for `k` has come to an empty bucket, or been everywhere, without meeting it. */
  ghost predicate Missed(hash: nat, st: seq<Slot>, keys: seq<Key>, k: Key)
    requires 0 < |st| <= |keys|
  {
    exists s: nat :: (|st| <= s || st[Probe(hash, s, |st|)].Empty?) && NotMet(hash, st, keys, k, s)
  }

  ghost predicate NoBoth(st: seq<Slot>) {
    forall i :: 0 <= i < |st| ==> !st[i].Both?
  }

  lemma TableNoBoth(h: Key -> nat, t: Buckets)
    requires Table(h, t)
    ensures NoBoth(t.st)
  {
    forall i | 0 <= i < |t.st| ensures !t.st[i].Both? { assert SlotOk(t, i); }
  }

  lemma IsMissed(hash: nat, st: seq<Slot>, keys: seq<Key>, k: Key, s: nat)
    requires 0 < |st| <= |keys| && NotMet(hash, st, keys, k, s)
    requires |st| <= s || st[Probe(hash, s, |st|)].Empty?
    ensures Missed(hash, st, keys, k)
  {
  }

  lemma IsReached(hash: nat, st: seq<Slot>, p: nat)
    requires 0 < |st| && Occupied(hash, st, p)
    ensures Reached(hash, st, Probe(hash, p, |st|))
  {
  }

  /** One more probe that finds an occupied bucket without the key. */
  lemma ProbedOn(hash: nat, st: seq<Slot>, keys: seq<Key>, k: Key, s: nat)
    requires 0 < |st| <= |keys| && NotMet(hash, st, keys, k, s) && Occupied(hash, st, s)
    requires !st[Probe(hash, s, |st|)].Empty? && NotAt(st, keys, k, Probe(hash, s, |st|))
    ensures NotMet(hash, st, keys, k, s + 1) && Occupied(hash, st, s + 1)
  {
  }

  /** The probe for a key that is present meets it before any empty bucket. */
  lemma MetBeforeEmpty(h: Key -> nat, t: Buckets, k: Key, s: nat)
    requires 0 < |t.st| && Table(h, t) && k in t.M
    requires t.st[Probe(h(k), s, |t.st|)].Empty?
    ensures !NotMet(h(k), t.st, t.keys, k, s)
  {
    assert KeyOk(h, t, k);
    var p: nat :| Probe(h(k), p, |t.st|) == t.pos[k] && Occupied(h(k), t.st, p);
    assert !NotAt(t.st, t.keys, k, Probe(h(k), p, |t.st|));
  }

  /** And it meets it within as many probes as there are buckets. */
  lemma MetInTime(h: Key -> nat, t: Buckets, k: Key, s: nat, b: nat)
    requires |t.st| == Pow2(b) && Table(h, t) && k in t.M && |t.st| <= s
    ensures !NotMet(h(k), t.st, t.keys, k, s)
  {
    assert KeyOk(h, t, k);
    var p := ProbesCover(h(k), b, t.pos[k]);
    assert !NotAt(t.st, t.keys, k, Probe(h(k), p, |t.st|));
  }

  /** So a key that was missed is absent. */
  lemma MissedIsAbsent(h: Key -> nat, t: Buckets, k: Key, b: nat)
    requires |t.st| == Pow2(b) && Table(h, t) && Missed(h(k), t.st, t.keys, k)
    ensures k !in t.M
  {
    var s: nat :| (|t.st| <= s || t.st[Probe(h(k), s, |t.st|)].Empty?) && NotMet(h(k), t.st, t.keys, k, s);
    if k in t.M {
      if |t.st| <= s { MetInTime(h, t, k, s, b); } else { MetBeforeEmpty(h, t, k, s); }
    }
  }

  // ---------------------------------------------------------------- insertion and deletion

  /** Occupied buckets may become live and live buckets deleted without losing anybody's path. */
  lemma ReachedKept(hash: nat, st: seq<Slot>, st': seq<Slot>, x: nat)
    requires 0 < |st| == |st'| && Reached(hash, st, x)
    requires forall i :: 0 <= i < |st| && !st[i].Empty? ==> !st'[i].Empty?
    ensures Reached(hash, st', x)
  {
    var p: nat :| Probe(hash, p, |st|) == x && Occupied(hash, st, p);
    assert Occupied(hash, st', p);
  }

  /** Bucket `x` becomes the place of `k`, with whatever value lies there. */
  function Insert(t: Buckets, k: Key, x: nat): Buckets
    requires x < |t.st| == |t.keys| == |t.vals|
  {
    Buckets(t.st[x := Live], t.keys[x := k], t.vals, t.M[k := t.vals[x]], t.pos[k := x])
  }

  lemma Inserted(h: Key -> nat, t: Buckets, k: Key, x: nat)
    requires Table(h, t) && x < |t.st|
    requires k !in t.M && !t.st[x].Live? && Reached(h(k), t.st, x)
    ensures Table(h, Insert(t, k, x))
  {
    var t' := Insert(t, k, x);
    assert KeyOk(h, t, k);
    forall i | 0 <= i < |t.st| ensures SlotOk(t', i) {
      assert SlotOk(t, i);
    }
    forall k' ensures KeyOk(h, t', k') {
      assert KeyOk(h, t, k');
      if k' in t'.pos { ReachedKept(h(k'), t.st, t'.st, t'.pos[k']); }
    }
  }

  function Remove(t: Buckets, x: nat): Buckets
    requires x < |t.st| == |t.keys|
  {
    t.(st := t.st[x := Deleted], M := t.M - {t.keys[x]}, pos := t.pos - {t.keys[x]})
  }

  lemma Removed(h: Key -> nat, t: Buckets, x: nat)
    requires Table(h, t) && x < |t.st| && t.st[x].Live?
    ensures Table(h, Remove(t, x))
  {
    var t' := Remove(t, x);
    assert SlotOk(t, x);
    forall i | 0 <= i < |t.st| ensures SlotOk(t', i) {
      assert SlotOk(t, i);
      assert i != x && t.st[i].Live? ==> t.pos[t.keys[i]] != t.pos[t.keys[x]];
    }
    forall k ensures KeyOk(h, t', k) {
      assert KeyOk(h, t, k);
      if k in t'.pos { ReachedKept(h(k), t.st, t'.st, t'.pos[k]); }
    }
  }

  lemma ValueSet(h: Key -> nat, t: Buckets, x: nat, v: Val)
    requires Table(h, t) && x < |t.st| && t.st[x].Live?
    ensures Table(h, t.(vals := t.vals[x := v], M := t.M[t.keys[x] := v])) && t.keys[x] in t.M
  {
    var t' := t.(vals := t.vals[x := v], M := t.M[t.keys[x] := v]);
    assert SlotOk(t, x);
    assert KeyOk(h, t, t.keys[x]);
    forall i | 0 <= i < |t.st| ensures SlotOk(t', i) { assert SlotOk(t, i); }
    forall k ensures KeyOk(h, t', k) { assert KeyOk(h, t, k); }
  }

  lemma EmptyTable(h: Key -> nat, st: seq<Slot>, keys: seq<Key>, vals: seq<Val>)
    requires |st| == |keys| == |vals| && forall i :: 0 <= i < |st| ==> st[i].Empty?
    ensures Table(h, Buckets(st, keys, vals, map[], map[])) && CountOccupied(st) == 0
  {
    CountEmpty(st);
  }

  // ---------------------------------------------------------------- counting

  /** Buckets that are not empty: `n_occupied`. */
  function CountOccupied(st: seq<Slot>): (c: nat)
    ensures c <= |st|
  {
    if st == [] then 0 else CountOccupied(st[1..]) + if st[0].Empty? then 0 else 1
  }

  lemma {:induction false} CountUpdate(st: seq<Slot>, x: nat, s: Slot)
    requires x < |st|
    ensures CountOccupied(st[x := s]) ==
        CountOccupied(st) - (if st[x].Empty? then 0 else 1) + (if s.Empty? then 0 else 1)
  {
    if x == 0 {
      assert st[x := s][1..] == st[1..];
    } else {
      assert st[x := s][1..] == st[1..][x - 1 := s];
      CountUpdate(st[1..], x - 1, s);
    }
  }

  lemma {:induction false} CountEmpty(st: seq<Slot>)
    requires forall i :: 0 <= i < |st| ==> st[i].Empty?
    ensures CountOccupied(st) == 0
  {
    if st != [] { CountEmpty(st[1..]); }
  }

  lemma {:induction false} SomeEmpty(st: seq<Slot>) returns (x: nat)
    requires CountOccupied(st) < |st|
    ensures x < |st| && st[x].Empty?
  {
    if st[0].Empty? {
      x := 0;
    } else {
      x := SomeEmpty(st[1..]);
      x := x + 1;
    }
  }

  /** The keys in live buckets. */
  function LiveKeys(st: seq<Slot>, keys: seq<Key>): set<Key>
    requires |st| <= |keys|
  {
    set i | 0 <= i < |st| && st[i].Live? :: keys[i]
  }

  lemma LiveSplit(st: seq<Slot>, keys: seq<Key>)
    requires 0 < |st| <= |keys|
    ensures LiveKeys(st, keys) == (if st[0].Live? then {keys[0]} else {}) + LiveKeys(st[1..], keys[1..])
  {
    var rest := LiveKeys(st[1..], keys[1..]);
    var first := if st[0].Live? then {keys[0]} else {};
    forall k | k in LiveKeys(st, keys) ensures k in first + rest {
      var i :| 0 <= i < |st| && st[i].Live? && keys[i] == k;
      if 0 < i { assert st[1..][i - 1].Live? && keys[1..][i - 1] == k; }
    }
    forall k | k in first + rest ensures k in LiveKeys(st, keys) {
      if k in rest {
        var i :| 0 <= i < |st[1..]| && st[1..][i].Live? && keys[1..][i] == k;
        assert st[i + 1].Live? && keys[i + 1] == k;
      }
    }
  }

  /** Live buckets hold distinct keys, so there are as many of them as keys. */
  lemma {:induction false} CountLive(st: seq<Slot>, keys: seq<Key>)
    requires |st| <= |keys|
    requires forall i :: 0 <= i < |st| ==> st[i].Live? || st[i].Empty?
    requires forall i, j :: 0 <= i < j < |st| && st[i].Live? && st[j].Live? ==> keys[i] != keys[j]
    ensures CountOccupied(st) == |LiveKeys(st, keys)|
  {
    if st != [] {
      CountLive(st[1..], keys[1..]);
      LiveSplit(st, keys);
      assert (if st[0].Live? then {keys[0]} else {}) !! LiveKeys(st[1..], keys[1..]);
    }
  }

  lemma {:induction false} CountAtLeast(st: seq<Slot>, keys: seq<Key>)
    requires |st| <= |keys|
    ensures |LiveKeys(st, keys)| <= CountOccupied(st)
  {
    if st != [] {
      CountAtLeast(st[1..], keys[1..]);
      LiveSplit(st, keys);
      assert |LiveKeys(st, keys)| <= |LiveKeys(st[1..], keys[1..])| + if st[0].Live? then 1 else 0;
    }
  }

  /** A table has at least as many occupied buckets as keys. */
  lemma TableCount(h: Key -> nat, t: Buckets)
    requires Table(h, t)
    ensures |t.M| <= CountOccupied(t.st)
  {
    CountAtLeast(t.st, t.keys);
    forall k | k in t.M.Keys ensures k in LiveKeys(t.st, t.keys) {
      assert KeyOk(h, t, k);
      assert t.st[t.pos[k]].Live? && t.keys[t.pos[k]] == k;
    }
    SubsetSize(t.M.Keys, LiveKeys(t.st, t.keys));
    assert |t.M.Keys| == |t.M|;
  }

  lemma {:induction false} SubsetSize<T>(a: set<T>, b: set<T>)
    requires a <= b
    ensures |a| <= |b|
  {
    if a != {} {
      var x :| x in a;
      SubsetSize(a - {x}, b - {x});
    }
  }

  // ---------------------------------------------------------------- the rehash, khash.h:268-294

  /** An entry taken out of the buckets and not put down yet. */
  datatype Hand = Nothing | Holding(key: Key, val: Val)

  /**
    One array, two layouts: `src` and `po` describe the entries still where the old table put them,
    `dst` and `pn` those already where the new table wants them.
   */
  datatype Layouts = Layouts(src: seq<Slot>, dst: seq<Slot>, keys: seq<Key>, vals: seq<Val>,
                             po: map<Key, nat>, pn: map<Key, nat>, hand: Hand)

  ghost predicate SrcOk(l: Layouts, i: int)
    requires 0 <= i < |l.src| <= |l.keys|
  {
    l.src[i].Live? ==> l.keys[i] in l.po && l.po[l.keys[i]] == i
  }

  ghost predicate DstOk(l: Layouts, i: int)
    requires 0 <= i < |l.dst| <= |l.keys|
  {
    (l.dst[i].Live? || l.dst[i].Empty?) && (l.dst[i].Live? ==> l.keys[i] in l.pn && l.pn[l.keys[i]] == i)
  }

  predicate InHand(l: Layouts, k: Key) {
    l.hand.Holding? && l.hand.key == k
  }

  /** Every entry of the map is in exactly one of three places. */
  ghost predicate EntryOk(h: Key -> nat, M: map<Key, Val>, l: Layouts, k: Key)
    requires |l.src| <= |l.keys| == |l.vals| && |l.dst| <= |l.keys|
  {
    && (k in M <==> k in l.po || k in l.pn || InHand(l, k))
    && !(k in l.po && k in l.pn)
    && (InHand(l, k) ==> k !in l.po && k !in l.pn && M[k] == l.hand.val)
    && (k in l.po ==>
          var x := l.po[k];
          x < |l.src| && l.src[x].Live? && l.keys[x] == k && l.vals[x] == M[k])
    && (k in l.pn ==>
          var x := l.pn[k];
          x < |l.dst| && l.dst[x].Live? && l.keys[x] == k && l.vals[x] == M[k] && Reached(h(k), l.dst, x))
  }

  /** Together with the entry in hand, the two layouts hold exactly `M`. */
  ghost predicate Rehashing(h: Key -> nat, M: map<Key, Val>, l: Layouts) {
    && |l.keys| == |l.vals| && |l.src| <= |l.keys| && |l.dst| <= |l.keys|
    && (forall i :: 0 <= i < |l.src| ==> SrcOk(l, i))
    && (forall i :: 0 <= i < |l.dst| ==> DstOk(l, i))
    && (forall k :: EntryOk(h, M, l, k))
  }

  /** Before the first bucket is visited nothing is in the new layout. */
  lemma RehashStart(h: Key -> nat, t: Buckets, dst: seq<Slot>, keys: seq<Key>, vals: seq<Val>)
    requires Table(h, t) && |t.keys| <= |keys| == |vals| && |dst| <= |keys|
    requires forall i :: 0 <= i < |t.keys| ==> keys[i] == t.keys[i] && vals[i] == t.vals[i]
    requires forall i :: 0 <= i < |dst| ==> dst[i].Empty?
    ensures Rehashing(h, t.M, Layouts(t.st, dst, keys, vals, t.pos, map[], Nothing))
  {
    var l := Layouts(t.st, dst, keys, vals, t.pos, map[], Nothing);
    forall i | 0 <= i < |l.src| ensures SrcOk(l, i) {
      assert SlotOk(t, i);
    }
    forall k ensures EntryOk(h, t.M, l, k) {
      assert KeyOk(h, t, k);
    }
  }

  /** khash.h:271-276: the entry of old bucket `j` is picked up. */
  function PickUp(l: Layouts, j: nat): Layouts
    requires j < |l.src| <= |l.keys| == |l.vals|
  {
    l.(src := l.src[j := Deleted], po := l.po - {l.keys[j]}, hand := Holding(l.keys[j], l.vals[j]))
  }

  lemma PickedUp(h: Key -> nat, M: map<Key, Val>, l: Layouts, j: nat)
    requires Rehashing(h, M, l) && l.hand.Nothing? && j < |l.src| && l.src[j].Live?
    ensures Rehashing(h, M, PickUp(l, j))
  {
    var l' := PickUp(l, j);
    assert SrcOk(l, j);
    forall i | 0 <= i < |l.src| ensures SrcOk(l', i) {
      assert SrcOk(l, i);
      assert i != j && l.src[i].Live? ==> l.po[l.keys[i]] != l.po[l.keys[j]];
    }
    forall i | 0 <= i < |l.dst| ensures DstOk(l', i) {
      assert DstOk(l, i);
    }
    forall k ensures EntryOk(h, M, l', k) {
      assert EntryOk(h, M, l, k);
    }
  }

  lemma ReachedPlaced(hash: nat, dst: seq<Slot>, i: nat, x: nat)
    requires i < |dst| && Reached(hash, dst, x)
    ensures Reached(hash, dst[i := Live], x)
  {
    ReachedKept(hash, dst, dst[i := Live], x);
  }

  /** khash.h:283-286: an old entry sits where the entry in hand belongs; the two change places. */
  function KickOut(l: Layouts, i: nat): Layouts
    requires l.hand.Holding? && i < |l.src| && i < |l.dst| && |l.src| <= |l.keys| == |l.vals|
  {
    Layouts(l.src[i := Deleted], l.dst[i := Live], l.keys[i := l.hand.key], l.vals[i := l.hand.val],
            l.po - {l.keys[i]}, l.pn[l.hand.key := i], Holding(l.keys[i], l.vals[i]))
  }

  lemma KickedOut(h: Key -> nat, M: map<Key, Val>, l: Layouts, i: nat)
    requires Rehashing(h, M, l) && l.hand.Holding?
    requires i < |l.dst| && l.dst[i].Empty? && Reached(h(l.hand.key), l.dst, i)
    requires i < |l.src| && l.src[i].Live?
    ensures Rehashing(h, M, KickOut(l, i))
    ensures KickOut(l, i).po.Keys < l.po.Keys
  {
    var l' := KickOut(l, i);
    assert SrcOk(l, i);
    assert EntryOk(h, M, l, l.keys[i]) && EntryOk(h, M, l, l.hand.key);
    forall x | 0 <= x < |l.src| ensures SrcOk(l', x) {
      assert SrcOk(l, x);
      assert x != i && l.src[x].Live? ==> l.po[l.keys[x]] != l.po[l.keys[i]];
    }
    forall x | 0 <= x < |l.dst| ensures DstOk(l', x) {
      assert DstOk(l, x);
    }
    forall k ensures EntryOk(h, M, l', k) {
      assert EntryOk(h, M, l, k);
      if k in l'.pn { ReachedPlaced(h(k), l.dst, i, l'.pn[k]); }
    }
    assert l.keys[i] in l.po.Keys && l.keys[i] !in l'.po.Keys;
  }

  /** khash.h:288-290: the bucket is free in both layouts. */
  function PutDown(l: Layouts, i: nat): Layouts
    requires l.hand.Holding? && i < |l.dst| <= |l.keys| == |l.vals|
  {
    l.(dst := l.dst[i := Live], keys := l.keys[i := l.hand.key], vals := l.vals[i := l.hand.val],
       pn := l.pn[l.hand.key := i], hand := Nothing)
  }

  lemma HasPutDown(h: Key -> nat, M: map<Key, Val>, l: Layouts, i: nat)
    requires Rehashing(h, M, l) && l.hand.Holding?
    requires i < |l.dst| && l.dst[i].Empty? && Reached(h(l.hand.key), l.dst, i)
    requires i < |l.src| ==> !l.src[i].Live?
    ensures Rehashing(h, M, PutDown(l, i))
  {
    var l' := PutDown(l, i);
    assert EntryOk(h, M, l, l.hand.key);
    forall x | 0 <= x < |l.src| ensures SrcOk(l', x) {
      assert SrcOk(l, x);
    }
    forall x | 0 <= x < |l.dst| ensures DstOk(l', x) {
      assert DstOk(l, x);
    }
    forall k ensures EntryOk(h, M, l', k) {
      assert EntryOk(h, M, l, k);
      if k in l'.pn { ReachedPlaced(h(k), l.dst, i, l'.pn[k]); }
    }
  }

  /** The new flags are live exactly where the new layout has an entry. */
  lemma CountPlaced(h: Key -> nat, M: map<Key, Val>, l: Layouts)
    requires Rehashing(h, M, l)
    ensures CountOccupied(l.dst) == |l.pn.Keys|
  {
    forall i | 0 <= i < |l.dst|
      ensures (l.dst[i].Live? || l.dst[i].Empty?) && (l.dst[i].Live? ==> l.keys[i] in l.pn && l.pn[l.keys[i]] == i) {
      assert DstOk(l, i);
    }
    CountLive(l.dst, l.keys);
    forall k | k in l.pn ensures k in LiveKeys(l.dst, l.keys) {
      assert EntryOk(h, M, l, k);
      assert l.dst[l.pn[k]].Live? && l.keys[l.pn[k]] == k;
    }
    assert LiveKeys(l.dst, l.keys) == l.pn.Keys;
  }

  lemma EmptyLeft(dst: seq<Slot>, placed: set<Key>, all: set<Key>, k: Key) returns (x: nat)
    requires CountOccupied(dst) == |placed| && placed <= all && k in all && k !in placed && |all| <= |dst|
    ensures x < |dst| && dst[x].Empty?
  {
    assert |placed + {k}| == |placed| + 1;
    SubsetSize(placed + {k}, all);
    x := SomeEmpty(dst);
  }

  lemma DstNoBoth(h: Key -> nat, M: map<Key, Val>, l: Layouts)
    requires Rehashing(h, M, l)
    ensures NoBoth(l.dst)
  {
    forall i | 0 <= i < |l.dst| ensures !l.dst[i].Both? { assert DstOk(l, i); }
  }

  /** While an entry is in hand the new table has an empty bucket, as long as it is as large as the map. */
  lemma RoomLeft(h: Key -> nat, M: map<Key, Val>, l: Layouts) returns (x: nat)
    requires Rehashing(h, M, l) && l.hand.Holding? && |M.Keys| <= |l.dst|
    ensures x < |l.dst| && l.dst[x].Empty?
  {
    CountPlaced(h, M, l);
    assert EntryOk(h, M, l, l.hand.key);
    forall k | k in l.pn ensures k in M { assert EntryOk(h, M, l, k); }
    x := EmptyLeft(l.dst, l.pn.Keys, M.Keys, l.hand.key);
  }

  /** When no old entry is left the new layout is the table. */
  lemma RehashEnd(h: Key -> nat, M: map<Key, Val>, l: Layouts)
    requires Rehashing(h, M, l) && l.hand.Nothing?
    requires forall i :: 0 <= i < |l.src| ==> !l.src[i].Live?
    ensures Table(h, Buckets(l.dst, l.keys[..|l.dst|], l.vals[..|l.dst|], M, l.pn))
    ensures CountOccupied(l.dst) == |M|
  {
    var t := Buckets(l.dst, l.keys[..|l.dst|], l.vals[..|l.dst|], M, l.pn);
    forall i | 0 <= i < |t.st| ensures SlotOk(t, i) {
      assert DstOk(l, i);
    }
    forall k ensures KeyOk(h, t, k) {
      assert EntryOk(h, M, l, k);
    }
    CountPlaced(h, M, l);
    forall k ensures k in M.Keys <==> k in l.pn.Keys { assert KeyOk(h, t, k); }
    assert M.Keys == l.pn.Keys;
    assert |M| == |M.Keys|;
  }
}
