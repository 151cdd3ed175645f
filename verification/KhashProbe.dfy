/**
  The probe sequence of khash: from the home bucket, the k-th step moves k buckets on, modulo a
  power of two.
  Source: liblinktool/klib/khash.h, lines 233-240, 278-281 and 320-329.
 */
module KhashProbe {
  import opened Arithmetic

  function Pow2(b: nat): (r: nat)
    ensures 1 <= r
  {
    if b == 0 then 1 else 2 * Pow2(b - 1)
  }

  /** `x & (n - 1)` for a power of two `n`: the remainder of `x` modulo `n`. */
  function Mask(x: nat, n: nat): (i: nat)
    requires 0 < n
    ensures i < n && i <= x
  {
    if x < n then x else Mask(x - n, n)
  }

  /** The bucket looked at after `p` steps; `n` is the number of buckets. */
  function Probe(hash: nat, p: nat, n: nat): (i: nat)
    requires 0 < n
    ensures i < n
  {
    if p == 0 then Mask(hash, n) else Mask(Probe(hash, p - 1, n) + p, n)
  }

  lemma ProbeStart(hash: nat, n: nat)
    requires 0 < n
    ensures Probe(hash, 0, n) == Mask(hash, n)
  {
  }

  lemma ProbeNext(hash: nat, p: nat, n: nat)
    requires 0 < n
    ensures Probe(hash, p + 1, n) == Mask(Probe(hash, p, n) + (p + 1), n)
  {
  }

  /** 1 + 2 + ... + p. */
  function Triangle(p: nat): nat {
    if p == 0 then 0 else Triangle(p - 1) + p
  }

  lemma {:induction false} TwiceTriangle(p: nat)
    ensures 2 * Triangle(p) == p * (p + 1)
  {
    if p > 0 {
      TwiceTriangle(p - 1);
      assert p * (p + 1) == (p - 1) * p + 2 * p;
    }
  }

  lemma {:induction false} Wrap(x: nat, n: nat) returns (m: nat)
    requires 0 < n
    ensures x == Mask(x, n) + Times(n, m)
  {
    if x < n {
      m := 0;
    } else {
      m := Wrap(x - n, n);
      m := m + 1;
    }
  }

  lemma {:induction false} TimesAdd(n: nat, a: nat, b: nat)
    ensures Times(n, a + b) == Times(n, a) + Times(n, b)
  {
    if b > 0 { TimesAdd(n, a, b - 1); }
  }

  /** Unrolled, the probe is the home bucket plus a triangular number, minus whole rounds. */
  lemma {:induction false} Unroll(hash: nat, p: nat, n: nat) returns (m: nat)
    requires 0 < n
    ensures Mask(hash, n) + Triangle(p) == Probe(hash, p, n) + Times(n, m)
  {
    if p == 0 {
      m := 0;
    } else {
      var m0 := Unroll(hash, p - 1, n);
      var m1 := Wrap(Probe(hash, p - 1, n) + p, n);
      m := m0 + m1;
      TimesAdd(n, m0, m1);
    }
  }

  /** An odd factor cannot supply any of the twos. */
  lemma {:induction false} OddFactor(b: nat, a: int, x: int, m: int) returns (c: int)
    requires a % 2 == 1 && a * x == Pow2(b) * m
    ensures x == Pow2(b) * c
  {
    if b == 0 {
      c := x;
    } else {
      var h := Pow2(b - 1) * m;
      assert a * x == 2 * h by { assert Pow2(b) * m == 2 * (Pow2(b - 1) * m); }
      var x' := EvenFactor(a, x, h);
      assert a * x' == h by { assert 2 * (a * x') == a * (2 * x'); }
      c := OddFactor(b - 1, a, x', m);
      assert x == 2 * (Pow2(b - 1) * c) == Pow2(b) * c;
    }
  }

  lemma EvenFactor(a: int, x: int, h: int) returns (x': int)
    requires a % 2 == 1 && a * x == 2 * h
    ensures x == 2 * x'
  {
    var a' := a / 2;
    assert a == 2 * a' + 1;
    assert a * x == 2 * (a' * x) + x by { assert (2 * a' + 1) * x == 2 * a' * x + x; }
    x' := h - a' * x;
  }

  /** A positive multiple is at least the modulus. */
  lemma PositiveMultiple(n: nat, c: int, x: int)
    requires 0 < n && x == n * c && 0 < x
    ensures n <= x
  {
    assert 1 <= c by { if c <= 0 { NonPositive(n, c); } }
    assert n * c == n * (c - 1) + n;
  }

  lemma NonPositive(n: nat, c: int)
    requires c <= 0
    ensures n * c <= 0
  {
  }

  lemma Difference(n: nat, a: nat, b: nat)
    ensures Times(n, a) - Times(n, b) == n * (a - b)
  {
    TimesIsProduct(n, a);
    TimesIsProduct(n, b);
  }

  /** Twice the difference of two triangular numbers, as a product. */
  lemma Factor(p: nat, q: nat)
    ensures 2 * (Triangle(q) - Triangle(p)) == (q - p) * (q + p + 1)
  {
    TwiceTriangle(p);
    TwiceTriangle(q);
    assert (q - p) * (q + p + 1) == q * (q + p + 1) - p * (q + p + 1);
    assert q * (q + p + 1) == q * (q + 1) + q * p;
    assert p * (q + p + 1) == p * (p + 1) + p * q;
  }

  /** When two probes meet, the product of the index difference and the index sum plus one is divisible by `2n`. */
  lemma Meet(hash: nat, p: nat, q: nat, b: nat) returns (m: int)
    requires p <= q && Probe(hash, p, Pow2(b)) == Probe(hash, q, Pow2(b))
    ensures (q - p) * (q + p + 1) == Pow2(b + 1) * m
  {
    var n := Pow2(b);
    var mp: int := Unroll(hash, p, n);
    var mq: int := Unroll(hash, q, n);
    m := mq - mp;
    Difference(n, mq, mp);
    Factor(p, q);
    Double(n, m);
  }

  lemma Double(n: int, m: int)
    ensures (2 * n) * m == 2 * (n * m)
  {
  }

  /** A product divisible by a power of two, one factor of which is odd. */
  lemma OddDivides(b: nat, a: int, x: int, m: int)
    requires a % 2 == 1 && a * x == Pow2(b) * m && 0 < x
    ensures Pow2(b) <= x
  {
    var c := OddFactor(b, a, x, m);
    PositiveMultiple(Pow2(b), c, x);
  }

  /** Of two factors of different parity, the even one supplies all the twos. */
  lemma OneFactorDivides(b: nat, d: int, e: int, m: int)
    requires 0 < d && 0 < e && (d % 2 == 1 <==> e % 2 == 0) && d * e == Pow2(b) * m
    ensures Pow2(b) <= d || Pow2(b) <= e
  {
    if d % 2 == 1 {
      OddDivides(b, d, e, m);
    } else {
      assert e * d == d * e;
      OddDivides(b, e, d, m);
    }
  }

  /** Probes that meet are `2n` or more apart, or their indices add up to at least one less. */
  lemma MeetingDistance(hash: nat, p: nat, q: nat, b: nat)
    requires p < q && Probe(hash, p, Pow2(b)) == Probe(hash, q, Pow2(b))
    ensures 2 * Pow2(b) <= q - p || 2 * Pow2(b) <= q + p + 1
  {
    var m := Meet(hash, p, q, b);
    Parity(p, q);
    OneFactorDivides(b + 1, q - p, q + p + 1, m);
  }

  lemma Parity(p: int, q: int)
    ensures (q - p) % 2 == 1 <==> (q + p + 1) % 2 == 0
  {
    assert q + p + 1 == (q - p) + 2 * p + 1;
  }

  /** The first `n` probes are pairwise distinct. */
  lemma ProbesDistinct(hash: nat, p: nat, q: nat, b: nat)
    requires p < q < Pow2(b)
    ensures Probe(hash, p, Pow2(b)) != Probe(hash, q, Pow2(b))
  {
    if Probe(hash, p, Pow2(b)) == Probe(hash, q, Pow2(b)) {
      MeetingDistance(hash, p, q, b);
    }
  }

  /** The probe does not come back to its start before step `2n - 1`. */
  lemma FirstReturn(hash: nat, q: nat, b: nat)
    requires 1 <= q && Probe(hash, q, Pow2(b)) == Probe(hash, 0, Pow2(b))
    ensures 2 * Pow2(b) - 1 <= q
  {
    MeetingDistance(hash, 0, q, b);
  }

  /** At step `2n - 1` it does come back. */
  lemma ReturnsEventually(hash: nat, b: nat)
    ensures Probe(hash, 2 * Pow2(b) - 1, Pow2(b)) == Probe(hash, 0, Pow2(b))
  {
    var n := Pow2(b);
    var m := Unroll(hash, 2 * n - 1, n);
    HalfRounds(n);
    SameRemainder(n, Mask(hash, n), 2 * n - 1, Probe(hash, 2 * n - 1, n), m);
  }

  lemma SameRemainder(n: nat, r: nat, a: nat, r': nat, a': nat)
    requires r < n && r' < n && r + Times(n, a) == r' + Times(n, a')
    ensures r == r'
  {
    if a < a' { TimesMonotone(n, a, a'); }
    if a' < a { TimesMonotone(n, a', a); }
  }

  /** Within the first `2n - 1` steps the probe is back at its start exactly at the last one. */
  lemma BackAtStart(hash: nat, step: nat, n: nat, b: nat)
    requires n == Pow2(b) && 1 <= step < 2 * n
    ensures Probe(hash, step, n) == Probe(hash, 0, n) <==> step == 2 * n - 1
  {
    ReturnsEventually(hash, b);
    if Probe(hash, step, n) == Probe(hash, 0, n) { FirstReturn(hash, step, b); }
  }

  lemma HalfRounds(n: nat)
    requires 1 <= n
    ensures Triangle(2 * n - 1) == Times(n, 2 * n - 1)
  {
    TwiceTriangle(2 * n - 1);
    TimesIsProduct(n, 2 * n - 1);
  }

  // ---------------------------------------------------------------- pigeonhole

  function Range(n: nat): (s: set<nat>)
    ensures forall i :: i in s <==> 0 <= i < n
    ensures |s| == n
  {
    if n == 0 then {} else Range(n - 1) + {n - 1}
  }

  /** Distinct values drawn from `s` are at most as many as `s` has elements. */
  lemma {:induction false} Pigeonhole<T>(f: seq<T>, s: set<T>)
    requires forall i :: 0 <= i < |f| ==> f[i] in s
    requires forall i, j :: 0 <= i < j < |f| ==> f[i] != f[j]
    ensures |f| <= |s|
    ensures |f| == |s| ==> forall x :: x in s ==> x in f
  {
    if f == [] {
      assert |s| == 0 ==> s == {};
    } else {
      var last, rest := f[|f| - 1], f[..|f| - 1];
      Pigeonhole(rest, s - {last});
      forall x | |f| == |s| && x in s ensures x in f {
        if x != last { assert x in s - {last} && x in rest; }
      }
    }
  }

  /** The first `n` probes visit every bucket. */
  lemma ProbesCover(hash: nat, b: nat, x: nat) returns (p: nat)
    requires x < Pow2(b)
    ensures p < Pow2(b) && Probe(hash, p, Pow2(b)) == x
  {
    var n := Pow2(b);
    var f := seq(n, i requires 0 <= i < n => Probe(hash, i, n));
    forall i, j | 0 <= i < j < |f| ensures f[i] != f[j] {
      ProbesDistinct(hash, i, j, b);
    }
    Pigeonhole<nat>(f, Range(n));
    assert x in Range(n);
    p :| 0 <= p < n && f[p] == x;
  }
}
