/**
  khash: an open-addressing hash table with tombstones and a rehash that moves every entry within
  the one key array.
  Source: liblinktool/klib/khash.h, lines 192-355.
 */
module Khash {
  import opened KhashFlags
  import opened KhashProbe
  import opened KhashTable

  /** `(khint_t)(n * 0.77 + 0.5)`, with 0.77 as an exact fraction. */
  function UpperBound(n: nat): (u: nat)
    ensures 4 <= n ==> n < 2 * u && u < n
    ensures -50 <= 77 * n - 100 * u < 50
  {
    (77 * n + 50) / 100
  }

  /** The exponent of `kroundup32(x)`: the least power of two that is at least `x`. */
  function RoundUpLog(x: nat): (b: nat)
    ensures x <= Pow2(b) && (0 < b ==> Pow2(b - 1) < x)
  {
    RoundUpFrom(x, 0)
  }

  function RoundUpFrom(x: nat, b: nat): (c: nat)
    requires 0 < b ==> Pow2(b - 1) < x
    ensures x <= Pow2(c) && (0 < c ==> Pow2(c - 1) < x)
    decreases x - Pow2(b)
  {
    if x <= Pow2(b) then b else RoundUpFrom(x, b + 1)
  }

  /** khash.h:249-250: the number of buckets a resize to `x` asks for, as an exponent. */
  function TargetLog(x: nat): (b: nat)
    ensures 2 <= b && x <= Pow2(b) && (2 < b ==> Pow2(b - 1) < x)
  {
    if RoundUpLog(x) < 2 then Four(x) else RoundUpLog(x)
  }

  function Four(x: nat): (b: nat)
    requires RoundUpLog(x) < 2
    ensures b == 2 && x <= Pow2(b)
  {
    assert Pow2(2) == 2 * Pow2(1) == 4 * Pow2(0);
    2
  }

  lemma {:induction false} Pow2Monotone(a: nat, b: nat)
    requires a <= b
    ensures Pow2(a) <= Pow2(b)
    ensures a < b ==> 2 * Pow2(a) <= Pow2(b)
    decreases b - a
  {
    if a < b { Pow2Monotone(a, b - 1); }
  }

  lemma {:induction false} Pow2AtLeastFour(b: nat)
    requires 2 <= b
    ensures 4 <= Pow2(b)
  {
    if b == 2 { assert Pow2(2) == 2 * Pow2(1) == 4 * Pow2(0); } else { Pow2AtLeastFour(b - 1); }
  }

  lemma LogUnique(x: int, t: nat, b: nat)
    requires 2 <= t && x <= Pow2(t) && (2 < t ==> Pow2(t - 1) < x)
    requires 2 <= b && x <= Pow2(b) && Pow2(b - 1) < x
    ensures t == b
  {
    if t < b { Pow2Monotone(t, b - 1); }
    if b < t { Pow2Monotone(b, t - 1); }
  }

  lemma Pow2Doubles(b: nat)
    requires 1 <= b
    ensures Pow2(b) == 2 * Pow2(b - 1)
  {
  }

  /** khash.h:312: asking for one bucket less keeps the size. */
  lemma TargetBelow(b: nat, n: nat)
    requires 2 <= b && n == Pow2(b)
    ensures 1 <= n && TargetLog(n - 1) == b
  {
    Pow2AtLeastFour(b);
    Pow2Doubles(b);
    LogUnique(n - 1, TargetLog(n - 1), b);
  }

  /** khash.h:315: asking for one bucket more doubles it. */
  lemma TargetAbove(b: nat, n: nat)
    requires 2 <= b && n == Pow2(b)
    ensures TargetLog(n + 1) == b + 1
  {
    Pow2Doubles(b + 1);
    LogUnique(n + 1, TargetLog(n + 1), b + 1);
  }

  /** khash.h:311-315: the new size asked for when the table is full. */
  function Request(n: nat, size: nat): nat {
    if n > 2 * size then n - 1 else n + 1
  }

  /** The first four buckets; as many as before if more than half of them hold nothing; else twice as many. */
  function NextSize(n: nat, size: nat): nat {
    if n == 0 then 4 else if 2 * size < n then n else 2 * n
  }

  lemma RequestIs(n: nat, size: nat, bits: nat)
    requires if n == 0 then size == 0 else 2 <= bits && n == Pow2(bits)
    ensures Pow2(TargetLog(Request(n, size))) == NextSize(n, size)
  {
    if n == 0 {
      assert Pow2(2) == 2 * Pow2(1) == 4 * Pow2(0);
    } else if n > 2 * size {
      TargetBelow(bits, n);
    } else {
      TargetAbove(bits, n);
      Pow2Doubles(bits + 1);
    }
  }

  /** It is large enough. */
  lemma RequestFits(n: nat, size: nat, bits: nat)
    requires if n == 0 then size == 0 else 2 <= bits && n == Pow2(bits) && size <= UpperBound(n)
    ensures size < UpperBound(Pow2(TargetLog(Request(n, size))))
  {
    if n == 0 {
      Pow2AtLeastFour(TargetLog(1));
    } else {
      Pow2AtLeastFour(bits);
      if n > 2 * size {
        TargetBelow(bits, n);
      } else {
        TargetAbove(bits, n);
        Pow2Doubles(bits + 1);
      }
    }
  }

  /** Sixteen flags to a word: a power of two of at least sixteen fills whole words. */
  lemma {:induction false} WholeWords(b: nat)
    ensures Pow2(b) < 16 || Pow2(b) % 16 == 0
  {
    if 4 < b {
      WholeWords(b - 1);
      Pow2Monotone(4, b - 1);
    } else {
      assert Pow2(4) == 2 * Pow2(3) == 4 * Pow2(2) == 8 * Pow2(1) == 16 * Pow2(0);
      if b < 4 { Pow2Monotone(b, 3); }
    }
  }

  /** `krealloc`: the common prefix is kept, the rest is arbitrary. */
  method Realloc<T(0)>(a: array<T>, n: nat) returns (r: array<T>)
    ensures fresh(r) && r.Length == n
    ensures forall i :: 0 <= i < n && i < a.Length ==> r[i] == a[i]
  {
    r := new T[n];
    var m := if n < a.Length then n else a.Length;
    for i := 0 to m
      invariant forall j :: 0 <= j < i ==> r[j] == a[j]
    {
      r[i] := a[i];
    }
  }

  /** khash.h:233-241: the search loop; `n` is returned when the key is not met. */
  method Search(hash: nat, flags: array<bv32>, keys: array<Key>, n: nat, key: Key, ghost st: seq<Slot>, ghost b: nat)
      returns (x: nat)
    requires 0 < n == |st| == Pow2(b) && n <= keys.Length && Shows(flags[..], st)
    requires NoBoth(st)
    ensures x <= n
    ensures x < n ==> st[x].Live? && keys[x] == key
    ensures x == n ==> Missed(hash, st, keys[..], key)
  {
    ghost var ks := keys[..];
    var i := Mask(hash, n);
    var last, step := i, 0;
    while true
      invariant step < 2 * n - 1 && i == Probe(hash, step, n)
      invariant NotMet(hash, st, ks, key, step)
      decreases 2 * n - step
    {
      var empty := IsEmpty(flags, i, st);
      if empty { break; }
      var del := IsDel(flags, i, st);
      if !del && keys[i] == key { break; }
      assert NotAt(st, ks, key, Probe(hash, step, n));
      step := step + 1;
      i := Mask(i + step, n);
      BackAtStart(hash, step, n, b);
      if i == last {
        IsMissed(hash, st, ks, key, step);
        return n;
      }
    }
    var either := IsEither(flags, i, st);
    if st[i].Empty? { IsMissed(hash, st, ks, key, step); }
    x := if either then n else i;
  }

  /** The probe for `hash` comes to an empty bucket past live ones only. */
  ghost predicate PastLive(hash: nat, st: seq<Slot>, x: nat)
    requires st != []
  {
    exists step: nat :: Probe(hash, step, |st|) == x && AllLive(hash, st, step)
  }

  ghost predicate AllLive(hash: nat, st: seq<Slot>, step: nat)
    requires st != []
  {
    forall p :: 0 <= p < step ==> st[Probe(hash, p, |st|)].Live?
  }

  lemma LiveSoFar(hash: nat, st: seq<Slot>, step: nat)
    requires st != [] && AllLive(hash, st, step)
    ensures st[Probe(hash, step, |st|)].Live? ==> AllLive(hash, st, step + 1)
    ensures PastLive(hash, st, Probe(hash, step, |st|))
  {
  }

  lemma LiveAtFirst(hash: nat, st: seq<Slot>)
    requires st != []
    ensures AllLive(hash, st, 0)
  {
  }

  /** khash.h:324-333: the loop of kh_put when the home bucket is taken.  Some bucket, `y`, is not live. */
  method ScanForSlot(hash: nat, flags: array<bv32>, keys: array<Key>, n: nat, key: Key, ghost st: seq<Slot>,
                     ghost b: nat, ghost y: nat)
    returns (x: nat)
    requires 0 < n == |st| == Pow2(b) && n <= keys.Length && Shows(flags[..], st)
    requires NoBoth(st)
    requires y < n && !st[y].Live?
    ensures x < n
    ensures st[x].Live? ==> keys[x] == key
    ensures !st[x].Live? ==> Missed(hash, st, keys[..], key) && Reached(hash, st, x)
    ensures st[x].Empty? ==> PastLive(hash, st, x)
  {
    ghost var ks := keys[..];
    var site := n;
    var i := Mask(hash, n);
    var last, step := i, 0;
    ghost var py := ProbesCover(hash, b, y);
    ProbeStart(hash, n);
    LiveAtFirst(hash, st);
    hide Pow2, Mask, Probe, AllLive, PastLive;
    while true
      invariant step < 2 * n - 1 && i == Probe(hash, step, n)
      invariant NotMet(hash, st, ks, key, step) && Occupied(hash, st, step)
      invariant 0 <= site <= n && (site < n ==> st[site].Deleted? && Reached(hash, st, site))
      invariant py < step ==> site < n
      invariant site == n ==> AllLive(hash, st, step)
      decreases 2 * n - step
    {
      var empty := IsEmpty(flags, i, st);
      if empty {
        IsMissed(hash, st, ks, key, step);
        IsReached(hash, st, step);
        if site == n { LiveSoFar(hash, st, step); }
        return if site != n then site else i;
      }
      var del := IsDel(flags, i, st);
      if !del && keys[i] == key { return i; }
      if del {
        site := i;
        IsReached(hash, st, step);
      } else if site == n {
        LiveSoFar(hash, st, step);
      }
      ProbedOn(hash, st, ks, key, step);
      ProbeNext(hash, step, n);
      step := step + 1;
      i := Mask(i + step, n);
      BackAtStart(hash, step, n, b);
      if i == last {
        IsMissed(hash, st, ks, key, step);
        return site;
      }
    }
  }

  /** khash.h:320-334: the bucket for `key`: where it is, or else where it goes. */
  method FindSlot(hash: nat, flags: array<bv32>, keys: array<Key>, n: nat, key: Key, ghost st: seq<Slot>,
                  ghost b: nat, ghost y: nat)
    returns (x: nat)
    requires 0 < n == |st| == Pow2(b) && n <= keys.Length && Shows(flags[..], st)
    requires NoBoth(st)
    requires y < n && !st[y].Live?
    ensures x < n
    ensures st[x].Live? ==> keys[x] == key
    ensures !st[x].Live? ==> Missed(hash, st, keys[..], key) && Reached(hash, st, x)
    ensures st[x].Empty? ==> PastLive(hash, st, x)
  {
    var i := Mask(hash, n);
    var empty := IsEmpty(flags, i, st);
    if empty {
      IsMissed(hash, st, keys[..], key, 0);
      IsReached(hash, st, 0);
      LiveAtFirst(hash, st);
      LiveSoFar(hash, st, 0);
      x := i;
    } else {
      x := ScanForSlot(hash, flags, keys, n, key, st, b, y);
    }
  }

  /** khash.h:278-281: the first empty bucket of the new layout on the probe for `hash`.  Some bucket, `y`, is empty. */
  method FindEmpty(hash: nat, flags: array<bv32>, n: nat, ghost st: seq<Slot>, ghost b: nat, ghost y: nat)
      returns (i: nat)
    requires 0 < n == |st| == Pow2(b) && Shows(flags[..], st)
    requires y < n && st[y].Empty?
    requires NoBoth(st)
    ensures i < n && st[i].Empty? && Reached(hash, st, i)
  {
    ghost var py := ProbesCover(hash, b, y);
    var step := 0;
    i := Mask(hash, n);
    while true
      invariant step <= py && i == Probe(hash, step, n) && Occupied(hash, st, step)
      decreases py - step
    {
      var empty := IsEmpty(flags, i, st);
      if empty { break; }
      step := step + 1;
      i := Mask(i + step, n);
    }
  }

  /** The arrays of a rehash hold what `l` says. */
  ghost predicate Holds(flags: array<bv32>, newFlags: array<bv32>, keys: array<Key>, vals: array<Val>, l: Layouts)
    reads flags, newFlags, keys, vals
  {
    Shows(flags[..], l.src) && Shows(newFlags[..], l.dst) && keys[..] == l.keys && vals[..] == l.vals
  }

  /** Four arrays, no two of them the same. */
  ghost predicate Apart(flags: array<bv32>, newFlags: array<bv32>, keys: array<Key>, vals: array<Val>) {
    && flags != newFlags
    && keys as object != vals as object
    && keys as object != flags as object && keys as object != newFlags as object
    && vals as object != flags as object && vals as object != newFlags as object
  }

  /** khash.h:283-286. */
  method Swap(flags: array<bv32>, newFlags: array<bv32>, keys: array<Key>, vals: array<Val>, i: nat, key: Key,
              val: Val, ghost l: Layouts)
    returns (key': Key, val': Val)
    requires Apart(flags, newFlags, keys, vals) && |l.src| <= |l.keys| == |l.vals|
    requires i < |l.src| && i < |l.dst| && Holds(flags, newFlags, keys, vals, l.(dst := l.dst[i := Live]))
    requires l.hand == Holding(key, val) && l.src[i].Live?
    modifies flags, keys, vals
    ensures Holds(flags, newFlags, keys, vals, KickOut(l, i))
    ensures KickOut(l, i).hand == Holding(key', val')
  {
    key', val' := keys[i], vals[i];
    keys[i] := key;
    vals[i] := val;
    SetIsDelTrue(flags, i, l.src);
  }

  /** khash.h:277-292: put one entry where the new layout wants it, moving on with whoever was there. */
  method Relocate(h: Key -> nat, flags: array<bv32>, newFlags: array<bv32>, keys: array<Key>, vals: array<Val>,
                  nb: nat, n: nat, key0: Key, val0: Val, ghost M: map<Key, Val>, ghost l0: Layouts, ghost b: nat)
    returns (ghost l: Layouts)
    requires Apart(flags, newFlags, keys, vals) && Holds(flags, newFlags, keys, vals, l0)
    requires Rehashing(h, M, l0) && l0.hand == Holding(key0, val0)
    requires nb == |l0.src| && 0 < n == |l0.dst| == Pow2(b) && |M.Keys| <= n
    modifies flags, newFlags, keys, vals
    ensures Holds(flags, newFlags, keys, vals, l) && Rehashing(h, M, l) && l.hand.Nothing?
    ensures |l.src| == |l0.src| && |l.dst| == |l0.dst|
    ensures forall i :: 0 <= i < |l.src| && l.src[i].Live? ==> l0.src[i].Live?
  {
    l := l0;
    var key, val := key0, val0;
    while true
      invariant Holds(flags, newFlags, keys, vals, l) && Rehashing(h, M, l) && l.hand == Holding(key, val)
      invariant |l.src| == |l0.src| && |l.dst| == |l0.dst|
      invariant forall i :: 0 <= i < |l.src| && l.src[i].Live? ==> l0.src[i].Live?
      decreases l.po.Keys
    {
      ghost var y := RoomLeft(h, M, l);
      DstNoBoth(h, M, l);
      var i := FindEmpty(h(key), newFlags, n, l.dst, b, y);
      SetIsEmptyFalse(newFlags, i, l.dst);
      var kick := false;
      if i < nb {
        var either := IsEither(flags, i, l.src);
        kick := !either;
      }
      if kick {
        KickedOut(h, M, l, i);
        key, val := Swap(flags, newFlags, keys, vals, i, key, val, l);
        l := KickOut(l, i);
      } else {
        HasPutDown(h, M, l, i);
        keys[i] := key;
        vals[i] := val;
        l := PutDown(l, i);
        break;
      }
    }
  }

  /** khash.h:269-294: every old bucket in turn. */
  method Rehash(h: Key -> nat, flags: array<bv32>, newFlags: array<bv32>, keys: array<Key>, vals: array<Val>,
                nb: nat, n: nat, ghost M: map<Key, Val>, ghost l0: Layouts, ghost b: nat)
    returns (ghost l: Layouts)
    requires Apart(flags, newFlags, keys, vals) && Holds(flags, newFlags, keys, vals, l0)
    requires Rehashing(h, M, l0) && l0.hand.Nothing?
    requires nb == |l0.src| && 0 < n == |l0.dst| == Pow2(b) && |M.Keys| <= n
    modifies flags, newFlags, keys, vals
    ensures Holds(flags, newFlags, keys, vals, l) && Rehashing(h, M, l) && l.hand.Nothing?
    ensures |l.src| == |l0.src| && |l.dst| == |l0.dst|
    ensures forall i :: 0 <= i < |l.src| ==> !l.src[i].Live?
  {
    l := l0;
    var j := 0;
    while j != nb
      invariant 0 <= j <= nb
      invariant Holds(flags, newFlags, keys, vals, l) && Rehashing(h, M, l) && l.hand.Nothing?
      invariant |l.src| == |l0.src| && |l.dst| == |l0.dst|
      invariant forall i :: 0 <= i < j ==> !l.src[i].Live?
    {
      var either := IsEither(flags, j, l.src);
      if !either {
        var key, val := keys[j], vals[j];
        PickedUp(h, M, l, j);
        SetIsDelTrue(flags, j, l.src);
        l := PickUp(l, j);
        l := Relocate(h, flags, newFlags, keys, vals, nb, n, key, val, M, l, b);
      }
      j := j + 1;
    }
  }

  /** khash.h:253-298: new flags, larger arrays if need be, the rehash, smaller arrays if need be. */
  method Rebuild(h: Key -> nat, flags: array<bv32>, keys: array<Key>, vals: array<Val>, nb: nat, n: nat,
                 ghost t: Buckets, ghost b: nat)
    returns (newFlags: array<bv32>, newKeys: array<Key>, newVals: array<Val>, ghost t': Buckets)
    requires keys as object != vals as object && keys as object != flags as object && vals as object != flags as object
    requires Shows(flags[..], t.st) && keys[..] == t.keys && vals[..] == t.vals
    requires nb == |t.st| && n == Pow2(b) && |t.M| <= n && Table(h, t)
    modifies flags, keys, vals
    ensures fresh(newFlags) && (newKeys == keys || fresh(newKeys)) && (newVals == vals || fresh(newVals))
    ensures newKeys as object != newVals as object && newKeys as object != newFlags as object
        && newVals as object != newFlags as object
    ensures Shows(newFlags[..], t'.st) && newKeys[..] == t'.keys && newVals[..] == t'.vals
    ensures |t'.st| == n && Table(h, t') && t'.M == t.M && CountOccupied(t'.st) == |t.M|
  {
    WholeWords(b);
    newFlags := new bv32[FSize(n)];
    FillEmpty(newFlags, n);
    newKeys, newVals := keys, vals;
    if nb < n {
      newKeys := Realloc(keys, n);
      newVals := Realloc(vals, n);
    }
    ghost var l := Layouts(t.st, Empties(n), newKeys[..], newVals[..], t.pos, map[], Nothing);
    RehashStart(h, t, l.dst, l.keys, l.vals);
    assert |t.M.Keys| == |t.M|;
    l := Rehash(h, flags, newFlags, newKeys, newVals, nb, n, t.M, l, b);
    RehashEnd(h, t.M, l);
    t' := Buckets(l.dst, l.keys[..n], l.vals[..n], t.M, l.pn);
    if nb > n {
      newKeys := Realloc(newKeys, n);
      newVals := Realloc(newVals, n);
    }
  }

  /** What a client does: store, look up and delete a key, ask for a size, clear. */
  datatype Op = Store(key: Key, val: Val) | Erase(key: Key) | Ask(n: nat) | Wipe

  function Apply(m: map<Key, Val>, op: Op): map<Key, Val> {
    match op
    case Store(k, v) => m[k := v]
    case Erase(k) => m - {k}
    case Ask(_) => m
    case Wipe => map[]
  }

  function ApplyAll(ops: seq<Op>): map<Key, Val> {
    if ops == [] then map[] else Apply(ApplyAll(ops[..|ops| - 1]), ops[|ops| - 1])
  }

  class KHash {
    const hash: Key -> nat
    var nBuckets: nat
    var size: nat
    var nOccupied: nat
    var upperBound: nat
    /** Empty arrays stand for the NULL pointers of a table that has never been resized. */
    var flags: array<bv32>
    var keys: array<Key>
    var vals: array<Val>

    /** What the arrays hold and the map that stands for. */
    ghost var t: Buckets
    ghost var bits: nat

    ghost predicate Valid()
      reads this, flags, keys, vals
    {
      && keys as object != vals as object && keys as object != flags as object && vals as object != flags as object
      && |t.st| == nBuckets && Shows(flags[..], t.st) && keys[..] == t.keys && vals[..] == t.vals
      && Table(hash, t)
      && size == |t.M| && nOccupied == CountOccupied(t.st) && nOccupied <= upperBound
      && (if nBuckets == 0 then upperBound == 0 && t.M == map[]
          else 2 <= bits && nBuckets == Pow2(bits) && 4 <= nBuckets && upperBound == UpperBound(nBuckets))
    }

    /** The finite map the table stands for. */
    ghost function Map(): map<Key, Val>
      reads this
    {
      t.M
    }

    /** kh_init, khash.h:212-214. */
    constructor (hash: Key -> nat)
      ensures Valid() && fresh(flags) && fresh(keys) && fresh(vals) && Map() == map[] && this.hash == hash
    {
      this.hash := hash;
      nBuckets, size, nOccupied, upperBound := 0, 0, 0, 0;
      var f := new bv32[0];
      var k := new Key[0];
      var v := new Val[0];
      flags, keys, vals := f, k, v;
      t, bits := Buckets([], [], [], map[], map[]), 0;
    }

    /** kh_clear, khash.h:223-229. */
    method Clear()
      requires Valid()
      modifies this, flags
      ensures Valid() && flags == old(flags) && keys == old(keys) && vals == old(vals)
      ensures Map() == map[] && nBuckets == old(nBuckets)
    {
      if nBuckets != 0 {
        FillEmpty(flags, nBuckets);
        t := Buckets(Empties(nBuckets), t.keys, t.vals, map[], map[]);
        size, nOccupied := 0, 0;
        EmptyTable(hash, t.st, t.keys, t.vals);
      }
    }

    /** kh_get, khash.h:230-243: the bucket of `key`, or `nBuckets`. */
    method Get(key: Key) returns (x: nat)
      requires Valid()
      ensures key in Map() ==> x < nBuckets && t.st[x].Live? && keys[x] == key && vals[x] == Map()[key]
      ensures key !in Map() ==> x == nBuckets
    {
      if nBuckets == 0 { return 0; }
      TableNoBoth(hash, t);
      x := Search(hash(key), flags, keys, nBuckets, key, t.st, bits);
      if x == nBuckets { MissedIsAbsent(hash, t, key, bits); }
      assert KeyOk(hash, t, key);
      if x < nBuckets { assert SlotOk(t, x) && keys[x] == t.keys[x] && vals[x] == t.vals[x]; }
    }

    /** kh_del, khash.h:349-355. */
    method Del(x: nat)
      requires Valid() && x <= nBuckets
      modifies this, flags
      ensures Valid() && nBuckets == old(nBuckets) && flags == old(flags) && keys == old(keys) && vals == old(vals)
      ensures Map() == if x < nBuckets && old(t.st[x].Live?) then old(Map()) - {old(keys[x])} else old(Map())
    {
      if x != nBuckets {
        var either := IsEither(flags, x, t.st);
        if !either {
          Removed(hash, t, x);
          CountUpdate(t.st, x, Deleted);
          assert SlotOk(t, x) && KeyOk(hash, t, t.keys[x]);
          SetIsDelTrue(flags, x, t.st);
          t := Remove(t, x);
          size := size - 1;
        }
      }
    }

    /** The test of khash.h:251: is the requested size too small for what is stored? */
    predicate TooSmall(newN: nat)
      reads this
    {
      size >= UpperBound(Pow2(TargetLog(newN)))
    }

    /** kh_resize, khash.h:244-306. */
    method Resize(newN: nat)
      requires Valid()
      modifies this, flags, keys, vals
      ensures Valid() && Map() == old(Map()) && size == old(size)
      ensures flags == old(flags) || fresh(flags)
      ensures keys == old(keys) || fresh(keys)
      ensures vals == old(vals) || fresh(vals)
      ensures old(TooSmall(newN)) ==> t == old(t) && nBuckets == old(nBuckets) && nOccupied == old(nOccupied)
      ensures !old(TooSmall(newN)) ==> nBuckets == Pow2(TargetLog(newN)) && nOccupied == size < upperBound
    {
      var b := TargetLog(newN);
      var n := Pow2(b);
      Pow2Monotone(2, b);
      if size >= UpperBound(n) { return; }
      flags, keys, vals, t := Rebuild(hash, flags, keys, vals, nBuckets, n, t, b);
      bits := b;
      nBuckets := n;
      nOccupied := size;
      upperBound := UpperBound(n);
    }

    /** khash.h:310-318: afterwards fewer buckets are occupied than the bound allows. */
    method MakeRoom()
      requires Valid()
      modifies this, flags, keys, vals
      ensures Valid() && Map() == old(Map()) && size == old(size) && nOccupied < upperBound
      ensures old(nOccupied < upperBound) ==> t == old(t) && nBuckets == old(nBuckets) && nOccupied == old(nOccupied)
      ensures old(nOccupied >= upperBound) ==> nBuckets == NextSize(old(nBuckets), size) && nOccupied == size
      ensures flags == old(flags) || fresh(flags)
      ensures keys == old(keys) || fresh(keys)
      ensures vals == old(vals) || fresh(vals)
    {
      if nOccupied >= upperBound {
        RoomNeeded();
        RequestIs(nBuckets, size, bits);
        hide UpperBound, TargetLog, Pow2, Shows, Table, CountOccupied, TooSmall, Request;
        Resize(Request(nBuckets, size));
      }
    }

    /** The size asked for leaves room for one key more, so the table is rebuilt. */
    lemma RoomNeeded()
      requires Valid()
      ensures !TooSmall(Request(nBuckets, size))
    {
      TableCount(hash, t);
      RequestFits(nBuckets, size, bits);
    }

    /** khash.h:336-347: take bucket `x` for `key`, or leave it alone when `key` is there. */
    method Take(key: Key, x: nat) returns (ret: int)
      requires Valid() && x < nBuckets && nOccupied < upperBound
      requires t.st[x].Live? ==> keys[x] == key
      requires !t.st[x].Live? ==> key !in Map() && Reached(hash(key), t.st, x)
      modifies this, flags, keys
      ensures Valid() && nBuckets == old(nBuckets) && t.st[x].Live? && keys[x] == key
      ensures flags == old(flags) && keys == old(keys) && vals == old(vals)
      ensures ret == 0 <==> key in old(Map())
      ensures ret == 0 ==> Map() == old(Map()) && vals[x] == Map()[key]
      ensures ret != 0 ==> Map() == old(Map())[key := vals[x]]
      ensures ret == match old(t.st[x]) case Live => 0 case Empty => 1 case _ => 2
      ensures nOccupied == old(nOccupied) + (if ret == 1 then 1 else 0)
      ensures size == old(size) + if ret == 0 then 0 else 1
    {
      assert SlotOk(t, x);
      assert KeyOk(hash, t, key);
      var empty := IsEmpty(flags, x, t.st);
      var del := IsDel(flags, x, t.st);
      if empty || del {
        Inserted(hash, t, key, x);
        CountUpdate(t.st, x, Live);
        keys[x] := key;
        SetIsBothFalse(flags, x, t.st);
        t := Insert(t, key, x);
        size := size + 1;
        if empty {
          nOccupied := nOccupied + 1;
          ret := 1;
        } else {
          ret := 2;
        }
      } else {
        ret := 0;
      }
    }

    /** kh_put, khash.h:307-348: `ret` is 0 when the key was there, 1 when it takes an empty bucket, 2 when it
    takes a deleted one. */
    method Put(key: Key) returns (x: nat, ret: int)
      requires Valid()
      modifies this, flags, keys, vals
      ensures Valid() && x < nBuckets && t.st[x].Live? && keys[x] == key
      ensures flags == old(flags) || fresh(flags)
      ensures keys == old(keys) || fresh(keys)
      ensures vals == old(vals) || fresh(vals)
      ensures ret == 0 || ret == 1 || ret == 2
      ensures old(nOccupied < upperBound) ==>
                && nBuckets == old(nBuckets) && nOccupied == old(nOccupied) + (if ret == 1 then 1 else 0)
                && ret == (match old(t.st[x]) case Live => 0 case Empty => 1 case _ => 2)
                && (ret == 1 ==> PastLive(hash(key), old(t.st), x))
      ensures old(nOccupied >= upperBound) ==>
                nBuckets == NextSize(old(nBuckets), old(size)) && ret != 2 && nOccupied == old(size) + ret
      ensures ret == 0 <==> key in old(Map())
      ensures ret == 0 ==> Map() == old(Map()) && vals[x] == Map()[key]
      ensures ret != 0 ==> Map() == old(Map())[key := vals[x]]
    {
      MakeRoom();
      TableNoBoth(hash, t);
      ghost var y := SomeEmpty(t.st);
      x := FindSlot(hash(key), flags, keys, nBuckets, key, t.st, bits, y);
      if t.st[x].Live? {
        assert SlotOk(t, x);
      } else {
        MissedIsAbsent(hash, t, key, bits);
      }
      ret := Take(key, x);
      TableCount(hash, t);
    }

    /** `kh_value(h, x) = v`, khash.h:521: the caller fills in the value of a bucket it was given. */
    method SetValue(x: nat, v: Val)
      requires Valid() && x < nBuckets && t.st[x].Live?
      modifies this, vals
      ensures Valid() && nBuckets == old(nBuckets) && vals[x] == v && Map() == old(Map())[keys[x] := v]
      ensures flags == old(flags) && keys == old(keys) && vals == old(vals)
    {
      assert SlotOk(t, x) && KeyOk(hash, t, t.keys[x]);
      ValueSet(hash, t, x, v);
      vals[x] := v;
      t := t.(vals := t.vals[x := v], M := t.M[t.keys[x] := v]);
      assert |t.M.Keys| == |t.M|;
    }

    /** One client operation. */
    method Perform(op: Op)
      requires Valid()
      modifies this, flags, keys, vals
      ensures Valid() && Map() == Apply(old(Map()), op)
      ensures flags == old(flags) || fresh(flags)
      ensures keys == old(keys) || fresh(keys)
      ensures vals == old(vals) || fresh(vals)
    {
      match op {
        case Store(k, v) =>
          ghost var m := Map();
          var x, ret := Put(k);
          SetValue(x, v);
          assert m[k := v] == m[k := old(Map())[k := v][k]];
        case Erase(k) =>
          var x := Get(k);
          Del(x);
          if k !in old(Map()) { assert old(Map()) - {k} == old(Map()); }
        case Ask(n) => Resize(n);
        case Wipe => Clear();
      }
    }
  }

  /** Over every run of operations the table is the finite map that the run describes. */
  method Replay(hash: Key -> nat, ops: seq<Op>) returns (h: KHash)
    ensures fresh(h) && h.Valid() && h.Map() == ApplyAll(ops)
  {
    h := new KHash(hash);
    for i := 0 to |ops|
      invariant fresh(h) && fresh(h.flags) && fresh(h.keys) && fresh(h.vals)
      invariant h.Valid() && h.Map() == ApplyAll(ops[..i])
    {
      assert ops[..i + 1][..i] == ops[..i];
      h.Perform(ops[i]);
    }
    assert ops[..|ops|] == ops;
  }
}
