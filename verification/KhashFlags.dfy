/**
  The two-bit bucket flags of khash, sixteen to a 32-bit word: bit 1 is "empty", bit 0 is "deleted".
  Source: liblinktool/klib/khash.h, lines 165-173.
 */
module KhashFlags {

  datatype Slot = Live | Deleted | Empty | Both

  /** `(i & 0xfU) << 1`: where the two bits of bucket `i` sit in their word. */
  function Lane(i: nat): (k: bv32)
    ensures k <= 30 && k & 1 == 0
  {
    var r := i % 16;
    if r == 0 then 0 else if r == 1 then 2 else if r == 2 then 4 else if r == 3 then 6
    else if r == 4 then 8 else if r == 5 then 10 else if r == 6 then 12 else if r == 7 then 14
    else if r == 8 then 16 else if r == 9 then 18 else if r == 10 then 20 else if r == 11 then 22
    else if r == 12 then 24 else if r == 13 then 26 else if r == 14 then 28 else 30
  }

  lemma LaneIs(i: nat)
    ensures Lane(i) == (2 * (i % 16)) as bv32
  {
  }

  lemma LaneInjective(i: nat, j: nat)
    requires i / 16 == j / 16 && i != j
    ensures Lane(i) != Lane(j)
  {
    assert i % 16 != j % 16;
  }

  /** The two bits at `k`. */
  function Bits(w: bv32, k: bv32): bv32
    requires k <= 30
  {
    (w >> k) & 3
  }

  function Decode(bits: bv32): Slot {
    if bits & 2 != 0 then (if bits & 1 != 0 then Both else Empty)
    else (if bits & 1 != 0 then Deleted else Live)
  }

  /** What the flag words say about bucket `i`. */
  function SlotAt(words: seq<bv32>, i: nat): Slot
    requires i / 16 < |words|
  {
    Decode(Bits(words[i / 16], Lane(i)))
  }

  /** The first `|st|` buckets of `words` are as `st` says. */
  ghost predicate Shows(words: seq<bv32>, st: seq<Slot>) {
    |st| <= 16 * |words| && forall i {:trigger SlotAt(words, i)} :: 0 <= i < |st| ==> SlotAt(words, i) == st[i]
  }

  // -------- one word

  lemma OrDel(w: bv32, k: bv32, l: bv32)
    requires k <= 30 && l <= 30 && k & 1 == 0 && l & 1 == 0
    ensures Bits(w | (1 << k), k) == Bits(w, k) | 1
    ensures k != l ==> Bits(w | (1 << k), l) == Bits(w, l)
  {
  }

  lemma AndNotEmpty(w: bv32, k: bv32, l: bv32)
    requires k <= 30 && l <= 30 && k & 1 == 0 && l & 1 == 0
    ensures Bits(w & !(2 << k), k) == Bits(w, k) & 1
    ensures k != l ==> Bits(w & !(2 << k), l) == Bits(w, l)
  {
  }

  lemma AndNotBoth(w: bv32, k: bv32, l: bv32)
    requires k <= 30 && l <= 30 && k & 1 == 0 && l & 1 == 0
    ensures Bits(w & !(3 << k), k) == 0
    ensures k != l ==> Bits(w & !(3 << k), l) == Bits(w, l)
  {
  }

  lemma AllEmptyWord(k: bv32)
    requires k <= 30 && k & 1 == 0
    ensures Decode(Bits(0xaaaa_aaaa, k)) == Empty
  {
  }

  lemma DecodeSet(bits: bv32)
    ensures Decode(bits | 1) == WithDeleted(Decode(bits))
    ensures Decode(bits & 1) == WithoutEmpty(Decode(bits))
    ensures Decode(0) == Live
  {
  }

  function WithDeleted(s: Slot): Slot {
    match s case Live => Deleted case Deleted => Deleted case Empty => Both case Both => Both
  }

  function WithoutEmpty(s: Slot): Slot {
    match s case Live => Live case Deleted => Deleted case Empty => Live case Both => Deleted
  }

  // -------- the macros

  /** `__ac_isempty`. */
  method IsEmpty(flags: array<bv32>, i: nat, ghost st: seq<Slot>) returns (r: bool)
    requires i < |st| && Shows(flags[..], st)
    ensures r <==> st[i].Empty? || st[i].Both?
  {
    r := (flags[i / 16] >> Lane(i)) & 2 != 0;
    assert SlotAt(flags[..], i) == st[i];
    TestBits(flags[i / 16], Lane(i));
  }

  /** `__ac_isdel`. */
  method IsDel(flags: array<bv32>, i: nat, ghost st: seq<Slot>) returns (r: bool)
    requires i < |st| && Shows(flags[..], st)
    ensures r <==> st[i].Deleted? || st[i].Both?
  {
    r := (flags[i / 16] >> Lane(i)) & 1 != 0;
    assert SlotAt(flags[..], i) == st[i];
    TestBits(flags[i / 16], Lane(i));
  }

  /** `__ac_iseither`. */
  method IsEither(flags: array<bv32>, i: nat, ghost st: seq<Slot>) returns (r: bool)
    requires i < |st| && Shows(flags[..], st)
    ensures r <==> !st[i].Live?
  {
    r := (flags[i / 16] >> Lane(i)) & 3 != 0;
    assert SlotAt(flags[..], i) == st[i];
    TestBits(flags[i / 16], Lane(i));
  }

  lemma TestBits(w: bv32, k: bv32)
    requires k <= 30
    ensures (w >> k) & 2 != 0 <==> Decode(Bits(w, k)).Empty? || Decode(Bits(w, k)).Both?
    ensures (w >> k) & 1 != 0 <==> Decode(Bits(w, k)).Deleted? || Decode(Bits(w, k)).Both?
    ensures (w >> k) & 3 != 0 <==> !Decode(Bits(w, k)).Live?
  {
  }

  /** Words `w` and `x` agree on every lane other than `k`. */
  ghost predicate AgreeBut(w: bv32, x: bv32, k: bv32) {
    forall l: bv32 :: l <= 30 && l & 1 == 0 && l != k ==> Bits(x, l) == Bits(w, l)
  }

  lemma WordDel(w: bv32, k: bv32)
    requires k <= 30 && k & 1 == 0
    ensures Decode(Bits(w | (1 << k), k)) == WithDeleted(Decode(Bits(w, k)))
    ensures AgreeBut(w, w | (1 << k), k)
  {
    OrDel(w, k, k);
    DecodeSet(Bits(w, k));
    forall l: bv32 | l <= 30 && l & 1 == 0 && l != k ensures Bits(w | (1 << k), l) == Bits(w, l) {
      OrDel(w, k, l);
    }
  }

  lemma WordNotEmpty(w: bv32, k: bv32)
    requires k <= 30 && k & 1 == 0
    ensures Decode(Bits(w & !(2 << k), k)) == WithoutEmpty(Decode(Bits(w, k)))
    ensures AgreeBut(w, w & !(2 << k), k)
  {
    AndNotEmpty(w, k, k);
    DecodeSet(Bits(w, k));
    forall l: bv32 | l <= 30 && l & 1 == 0 && l != k ensures Bits(w & !(2 << k), l) == Bits(w, l) {
      AndNotEmpty(w, k, l);
    }
  }

  lemma WordLive(w: bv32, k: bv32)
    requires k <= 30 && k & 1 == 0
    ensures Decode(Bits(w & !(3 << k), k)) == Live
    ensures AgreeBut(w, w & !(3 << k), k)
  {
    AndNotBoth(w, k, k);
    DecodeSet(0);
    forall l: bv32 | l <= 30 && l & 1 == 0 && l != k ensures Bits(w & !(3 << k), l) == Bits(w, l) {
      AndNotBoth(w, k, l);
    }
  }

  /** Rewriting the bits of one bucket changes that bucket only. */
  lemma OneBucket(words: seq<bv32>, x: bv32, i: nat, st: seq<Slot>, slot: Slot)
    requires i < |st| && Shows(words, st)
    requires AgreeBut(words[i / 16], x, Lane(i)) && Decode(Bits(x, Lane(i))) == slot
    ensures Shows(words[i / 16 := x], st[i := slot])
  {
    var words' := words[i / 16 := x];
    forall j | 0 <= j < |st| ensures SlotAt(words', j) == st[i := slot][j] {
      assert SlotAt(words, j) == st[j];
      if j != i && j / 16 == i / 16 { LaneInjective(i, j); }
    }
  }

  /** `__ac_set_isdel_true`. */
  method SetIsDelTrue(flags: array<bv32>, i: nat, ghost st: seq<Slot>)
    requires i < |st| && Shows(flags[..], st)
    modifies flags
    ensures Shows(flags[..], st[i := WithDeleted(st[i])])
  {
    ghost var was := flags[..];
    var x := flags[i / 16] | (1 << Lane(i));
    WordDel(was[i / 16], Lane(i));
    OneBucket(was, x, i, st, WithDeleted(SlotAt(was, i)));
    flags[i / 16] := x;
    assert flags[..] == was[i / 16 := x];
  }

  /** `__ac_set_isempty_false`. */
  method SetIsEmptyFalse(flags: array<bv32>, i: nat, ghost st: seq<Slot>)
    requires i < |st| && Shows(flags[..], st)
    modifies flags
    ensures Shows(flags[..], st[i := WithoutEmpty(st[i])])
  {
    ghost var was := flags[..];
    var x := flags[i / 16] & !(2 << Lane(i));
    WordNotEmpty(was[i / 16], Lane(i));
    OneBucket(was, x, i, st, WithoutEmpty(SlotAt(was, i)));
    flags[i / 16] := x;
    assert flags[..] == was[i / 16 := x];
  }

  /** `__ac_set_isboth_false`. */
  method SetIsBothFalse(flags: array<bv32>, i: nat, ghost st: seq<Slot>)
    requires i < |st| && Shows(flags[..], st)
    modifies flags
    ensures Shows(flags[..], st[i := Live])
  {
    ghost var was := flags[..];
    var x := flags[i / 16] & !(3 << Lane(i));
    WordLive(was[i / 16], Lane(i));
    OneBucket(was, x, i, st, Live);
    flags[i / 16] := x;
    assert flags[..] == was[i / 16 := x];
  }

  /** `__ac_fsize`: the number of flag words for `m` buckets. */
  function FSize(m: nat): (w: nat)
    ensures m % 16 == 0 || m < 16 ==> m <= 16 * w
    ensures w == 1 || 16 * w <= m
  {
    if m < 16 then 1 else m / 16
  }

  /** `n` empty buckets. */
  function Empties(n: nat): (st: seq<Slot>)
    ensures |st| == n && forall i :: 0 <= i < n ==> st[i].Empty?
  {
    if n == 0 then [] else Empties(n - 1) + [Empty]
  }

  /** `memset(flags, 0xaa, ...)`. */
  method FillEmpty(flags: array<bv32>, n: nat)
    requires n <= 16 * flags.Length
    modifies flags
    ensures Shows(flags[..], Empties(n))
  {
    for i := 0 to flags.Length
      invariant forall j :: 0 <= j < i ==> flags[j] == 0xaaaa_aaaa
    {
      flags[i] := 0xaaaa_aaaa;
    }
    forall j | 0 <= j < n ensures SlotAt(flags[..], j) == Empty {
      AllEmptyWord(Lane(j));
    }
  }
}
