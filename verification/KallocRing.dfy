/**
  The free list in memory: headers with sizes and pointers, and the circular list through a sequence
  of addresses.
  Source: liblinktool/klib/kalloc.c, lines 24-32 and 102-117.
 */
module KallocRing {

  /** A block header; the size word precedes the block's memory, the pointer overlaps it. */
  datatype Header = Header(size: int, ptr: int)

  type Memory = map<int, Header>

  ghost function Succ(i: int, n: int): int {
    if i + 1 < n then i + 1 else 0
  }

  ghost predicate PtrOk(m: Memory, ring: seq<int>, i: int)
    requires 0 <= i < |ring|
  {
    ring[i] in m && m[ring[i]].ptr == ring[Succ(i, |ring|)]
  }

  /** Every address in the sequence points to the next one, the last to the first. */
  ghost predicate Linked(m: Memory, ring: seq<int>) {
    forall i :: 0 <= i < |ring| ==> PtrOk(m, ring, i)
  }

  /** The neighbours, around the circle, of the gap between `a` and `b`. */
  ghost function Prev(a: seq<int>, b: seq<int>): int
    requires a != [] || b != []
  {
    if a != [] then a[|a| - 1] else b[|b| - 1]
  }

  ghost function Next(a: seq<int>, b: seq<int>): int
    requires a != [] || b != []
  {
    if b != [] then b[0] else a[0]
  }

  ghost predicate Distinct(s: seq<int>) {
    forall i, j :: 0 <= i < j < |s| ==> s[i] != s[j]
  }

  lemma PrevPointsToNext(m: Memory, a: seq<int>, b: seq<int>)
    requires Linked(m, a + b) && (a != [] || b != [])
    ensures Prev(a, b) in m && m[Prev(a, b)].ptr == Next(a, b)
  {
    var ring := a + b;
    var i := if a != [] then |a| - 1 else |b| - 1;
    assert PtrOk(m, ring, i);
  }

  /** The addresses in `s`, except `q`, keep their pointers. */
  ghost predicate SamePtrs(m: Memory, m': Memory, s: seq<int>, q: int) {
    forall x :: x in s && x != q ==> x in m && x in m' && m'[x].ptr == m[x].ptr
  }

  ghost function PrevAt(a: seq<int>, b: seq<int>): int {
    if a != [] then |a| - 1 else |b| - 1
  }

  /** Inserting `p` in the gap. */
  lemma RingInsert(m: Memory, m': Memory, a: seq<int>, p: int, b: seq<int>)
    requires Linked(m, a + b) && Distinct(a + b) && (a != [] || b != [])
    requires p in m' && m'[p].ptr == Next(a, b) && Prev(a, b) in m' && m'[Prev(a, b)].ptr == p
    requires SamePtrs(m, m', a + b, Prev(a, b))
    ensures Linked(m', a + [p] + b)
  {
    var ring, ring', n, q := a + b, a + [p] + b, |a|, PrevAt(a, b);
    assert ring[q] == Prev(a, b);
    forall i | 0 <= i < |ring'| && i != n ensures PtrOk(m', ring', i) {
      var j := if i < n then i else i - 1;
      assert ring'[i] == ring[j] && ring[j] in ring;
      if j != q {
        assert PtrOk(m, ring, j) && ring[j] != ring[q];
        assert ring'[Succ(i, |ring'|)] == ring[Succ(j, |ring|)];
      }
    }
    assert PtrOk(m', ring', n);
  }

  /** Taking `p` out. */
  lemma RingRemove(m: Memory, m': Memory, a: seq<int>, p: int, b: seq<int>)
    requires Linked(m, a + [p] + b) && Distinct(a + b) && (a != [] || b != []) && p in m
    requires Prev(a, b) in m' && m'[Prev(a, b)].ptr == m[p].ptr
    requires SamePtrs(m, m', a + b, Prev(a, b))
    ensures Linked(m', a + b)
  {
    var ring, ring', n, q := a + [p] + b, a + b, |a|, PrevAt(a, b);
    assert ring'[q] == Prev(a, b);
    assert PtrOk(m, ring, n);
    forall i | 0 <= i < |ring'| ensures PtrOk(m', ring', i) {
      var j := if i < n then i else i + 1;
      assert ring'[i] == ring[j] && ring'[i] in ring';
      if i != q {
        assert PtrOk(m, ring, j) && ring'[i] != ring'[q];
        assert ring'[Succ(i, |ring'|)] == ring[Succ(j, |ring|)];
      }
    }
  }
}
