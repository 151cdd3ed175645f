/**
  What one step of the allocator does to the headers in memory, the free list and the blocks: freeing
  with merging on both sides, taking a block, adding a core.
  Source: liblinktool/klib/kalloc.c, lines 57-147 and 179-198.
 */
module KallocState {
  import opened KallocBlocks
  import opened KallocRing

  // ---------------------------------------------------------------- the list around a freed block

  lemma IncreasingDistinct(s: seq<int>)
    requires Increasing(s)
    ensures Distinct(s)
  {
  }

  lemma FreeParts(l: seq<Blk>, p: Blk, r: seq<Blk>)
    ensures FreeAddrs(l) == FreeAddrs(FarLeft(l, p)) + (if MeetsLeft(l, p) then [l[|l| - 1].addr] else [])
    ensures FreeAddrs(r) == (if MeetsRight(p, r) then [r[0].addr] else []) + FreeAddrs(FarRight(p, r))
    ensures FreeAddrs(Freed(l, p, r))
            == FreeAddrs(FarLeft(l, p)) + (if MeetsLeft(l, p) || p.free then [Merged(l, p, r).addr] else [p.addr])
               + FreeAddrs(FarRight(p, r))
  {
    NearAndFar(l, p, r);
    FreeAddrsAppend(FarLeft(l, p), NearLeft(l, p));
    FreeAddrsAppend(NearRight(p, r), FarRight(p, r));
    NearSums(NearLeft(l, p));
    NearSums(NearRight(p, r));
    FreeAddrsOne(Merged(l, p, r));
    FreeAddrsThree(FarLeft(l, p), [Merged(l, p, r)], FarRight(p, r));
  }

  ghost predicate Sized(m: Memory, s: seq<Blk>) {
    forall b :: b in s ==> b.addr in m && m[b.addr].size == b.size
  }

  /** The list without the live block `p`, and its order. */
  lemma RingAround(l: seq<Blk>, p: Blk, r: seq<Blk>, base: int)
    requires Tiled(l + [p] + r, base) && !p.free
    ensures FreeAddrs(l + [p] + r) == FreeAddrs(l) + FreeAddrs(r) && Increasing(FreeAddrs(l) + FreeAddrs(r))
    ensures forall k :: 0 <= k < |FreeAddrs(l)| ==> FreeAddrs(l)[k] < p.addr
    ensures forall k :: 0 <= k < |FreeAddrs(r)| ==> p.addr < FreeAddrs(r)[k]
  {
    FreeAddrsThree(l, [p], r);
    FreeAddrsOne(p);
    assert FreeAddrs(l) + [] == FreeAddrs(l);
    TiledSorted(l + [p] + r, base);
    FreeSorted(l + [p] + r);
    FreeAround(l, p, r);
  }

  lemma BaseInRing(s: seq<Blk>, base: int)
    requires BaseBlk(base) in s
    ensures base in FreeAddrs(s)
  {
    var i :| 0 <= i < |s| && s[i] == BaseBlk(base);
    InFree(s, i);
  }

  /** The first free block of `r`: its first block, or one behind that. */
  lemma FirstFree(r: seq<Blk>) returns (i: int)
    requires FreeAddrs(r) != []
    ensures 0 <= i < |r| && r[i].free && r[i].addr == FreeAddrs(r)[0] && (r[0].free ==> i == 0)
  {
    if r[0].free { i := 0; } else { i := FreeIndex(r, 0); }
  }

  lemma LastFree(l: seq<Blk>) returns (i: int)
    requires FreeAddrs(l) != []
    ensures 0 <= i < |l| && l[i].free && l[i].addr == FreeAddrs(l)[|FreeAddrs(l)| - 1]
    ensures l[|l| - 1].free ==> i == |l| - 1
  {
    var n := |l| - 1;
    if l[n].free {
      i := n;
      assert l == l[..n] + [l[n]];
      FreeAddrsAppend(l[..n], [l[n]]);
      FreeAddrsOne(l[n]);
    } else {
      i := FreeIndex(l, |FreeAddrs(l)| - 1);
    }
  }

  /** A block behind the live block `p` starts where `p` ends exactly when it is the next one in its core. */
  lemma BehindBlock(l: seq<Blk>, p: Blk, r: seq<Blk>, base: int, i: int)
    requires Tiled(l + [p] + r, base) && !p.free && 0 <= i < |r|
    requires r[0].free ==> i == 0
    ensures p.addr + p.size <= r[i].addr
    ensures p.addr + p.size == r[i].addr && r[i].free ==> i == 0 && r[0].home == p.home
    ensures r[0].home == p.home ==> p.addr + p.size == r[0].addr
  {
    var s, n := l + [p] + r, |l|;
    assert s[n] == p && s[n + 1] == r[0] && s[n + 1 + i] == r[i];
    assert Link(s, n + 1) && BlkOk(s[n], base) && BlkOk(s[n + 1], base);
    if i > 0 { ChainOrder(s, base, n + 1, n + 1 + i); }
  }

  /** The same for a block before `p`. */
  lemma BeforeBlock(l: seq<Blk>, p: Blk, r: seq<Blk>, base: int, i: int)
    requires Tiled(l + [p] + r, base) && !p.free && 0 <= i < |l|
    requires l[|l| - 1].free ==> i == |l| - 1
    ensures l[i].addr < p.addr && l[i].addr + l[i].size <= p.addr
    ensures l[i].addr + l[i].size == p.addr && l[i].free ==> i == |l| - 1 && l[i].home == p.home
    ensures l[|l| - 1].home == p.home ==> l[|l| - 1].addr + l[|l| - 1].size == p.addr
  {
    var s, n := l + [p] + r, |l|;
    assert s[n] == p && s[n - 1] == l[n - 1] && s[i] == l[i];
    assert Link(s, n) && BlkOk(s[n], base) && BlkOk(s[n - 1], base);
    if i < n - 1 { ChainOrder(s, base, i, n - 1); }
    ChainOrder(s, base, i, n);
  }

  /** The test on the right, of `nx`, succeeds exactly when a free block follows in the same core, and never panics. */
  ghost predicate RightTest(nx: int, p: Blk, r: seq<Blk>) {
    && nx != p.addr
    && (p.addr + p.size == nx <==> MeetsRight(p, r)) && !(p.addr + p.size > nx && nx >= p.addr)
    && (MeetsRight(p, r) ==> nx == r[0].addr)
  }

  lemma RightMeets(l: seq<Blk>, p: Blk, r: seq<Blk>, base: int)
    requires Tiled(l + [p] + r, base) && !p.free
    requires FreeAddrs(l) != [] || FreeAddrs(r) != []
    ensures RightTest(Next(FreeAddrs(l), FreeAddrs(r)), p, r)
  {
    RingAround(l, p, r, base);
    assert BlkOk(p, base) by { assert (l + [p] + r)[|l|] == p; }
    if FreeAddrs(r) != [] {
      var i := FirstFree(r);
      BehindBlock(l, p, r, base, i);
    } else if r != [] && r[0].free {
      InFree(r, 0);
    }
  }

  /** The test on the left, at `q`, succeeds exactly when a free block precedes in the same core, and never panics. */
  ghost predicate LeftTest(m: Memory, q: int, l: seq<Blk>, p: Blk) {
    && q in m && q != p.addr
    && (q + m[q].size == p.addr <==> MeetsLeft(l, p)) && !(q + m[q].size > p.addr && p.addr >= q)
    && (MeetsLeft(l, p) ==> q == l[|l| - 1].addr)
  }

  lemma LeftMeetsBefore(m: Memory, l: seq<Blk>, p: Blk, r: seq<Blk>, base: int)
    requires Tiled(l + [p] + r, base) && !p.free && Sized(m, l) && FreeAddrs(l) != []
    ensures LeftTest(m, FreeAddrs(l)[|FreeAddrs(l)| - 1], l, p)
  {
    var i := LastFree(l);
    assert l[i] in l;
    BeforeBlock(l, p, r, base, i);
  }

  /** Nothing is free below `p`: the list wraps around to the highest free block. */
  lemma LeftMeetsWrapped(m: Memory, l: seq<Blk>, p: Blk, r: seq<Blk>, base: int)
    requires Tiled(l + [p] + r, base) && !p.free && Sized(m, r) && FreeAddrs(l) == [] && FreeAddrs(r) != []
    ensures LeftTest(m, FreeAddrs(r)[|FreeAddrs(r)| - 1], l, p)
  {
    hide Edges;
    var s := l + [p] + r;
    var i := FreeIndex(r, |FreeAddrs(r)| - 1);
    if l != [] && l[|l| - 1].free { InFree(l, |l| - 1); }
    assert s[|l|] == p && s[|l| + 1 + i] == r[i] && r[i] in r && BlkOk(s[|l| + 1 + i], base);
    ChainOrder(s, base, |l|, |l| + 1 + i);
  }

  lemma LeftMeets(m: Memory, l: seq<Blk>, p: Blk, r: seq<Blk>, base: int)
    requires Tiled(l + [p] + r, base) && !p.free && Sized(m, l) && Sized(m, r)
    requires FreeAddrs(l) != [] || FreeAddrs(r) != []
    ensures LeftTest(m, Prev(FreeAddrs(l), FreeAddrs(r)), l, p)
  {
    if FreeAddrs(l) != [] { LeftMeetsBefore(m, l, p, r, base); } else { LeftMeetsWrapped(m, l, p, r, base); }
  }

  // ---------------------------------------------------------------- the headers after freeing

  /** What kfree leaves in the list: `q` before and `nx` behind the freed block, whose own header is rewritten too. */
  ghost predicate FreeWrites(m: Memory, m': Memory, l: seq<Blk>, p: Blk, r: seq<Blk>)
    requires FreeAddrs(l) != [] || FreeAddrs(r) != []
  {
    var q, nx := Prev(FreeAddrs(l), FreeAddrs(r)), Next(FreeAddrs(l), FreeAddrs(r));
    && q in m && nx in m && q in m' && p.addr in m'
    && (var pp := if MeetsRight(p, r) then m[nx].ptr else nx;
        if MeetsLeft(l, p) then m'[q] == Header(Merged(l, p, r).size, pp)
        else m'[p.addr] == Header(Merged(l, p, r).size, pp) && m'[q] == m[q].(ptr := p.addr))
    && WrittenAt(m, m', q, p.addr)
  }

  /** Freeing `p` between `a` and `[nx] + b`, with the block at `nx` merged into it. */
  lemma RingReplace(m: Memory, m': Memory, a: seq<int>, p: int, nx: int, b: seq<int>)
    requires Linked(m, a + [nx] + b) && Distinct(a + [nx] + b) && p !in a + [nx] + b && a + b != []
    requires nx in m && p in m' && Prev(a, b) in m && Prev(a, b) in m'
    requires m'[p].ptr == m[nx].ptr && m'[Prev(a, b)].ptr == p && SamePtrs(m, m', a + b, Prev(a, b))
    ensures Linked(m', a + [p] + b)
  {
    var ring, q := a + [nx] + b, Prev(a, b);
    var m1 := m[q := m[q].(ptr := m[nx].ptr)];
    DistinctParts(a, nx, b);
    RingRemove(m, m1, a, nx, b);
    assert PtrOk(m, ring, |a|);
    assert m[nx].ptr == Next(a, b);
    RingInsert(m1, m', a, p, b);
  }

  lemma DistinctParts(a: seq<int>, x: int, b: seq<int>)
    requires Distinct(a + [x] + b)
    ensures Distinct(a + b)
  {
    var s, s' := a + [x] + b, a + b;
    forall i, j | 0 <= i < j < |s'| ensures s'[i] != s'[j] {
      assert s'[i] == s[if i < |a| then i else i + 1] && s'[j] == s[if j < |a| then j else j + 1];
    }
  }

  lemma RingSame(m: Memory, m': Memory, ring: seq<int>)
    requires Linked(m, ring) && forall x :: x in ring ==> x in m && x in m' && m'[x].ptr == m[x].ptr
    ensures Linked(m', ring)
  {
    forall i | 0 <= i < |ring| ensures PtrOk(m', ring, i) {
      var x := ring[i];
      assert x in ring;
      assert PtrOk(m, ring, i);
    }
  }

  /** The list after freeing, by pointers only: `x` and `y` are the neighbours that merge. */
  lemma FreedRing(m: Memory, m': Memory, lf: seq<int>, x: seq<int>, p: int, y: seq<int>, rf: seq<int>)
    requires |x| <= 1 && |y| <= 1 && Linked(m, (lf + x) + (y + rf)) && Distinct((lf + x) + (y + rf))
    requires p !in (lf + x) + (y + rf) && lf + x + rf != []
    requires p in m' && Prev(lf + x, y + rf) in m && Prev(lf + x, y + rf) in m'
    requires SamePtrs(m, m', (lf + x) + (y + rf), Prev(lf + x, y + rf))
    requires y != [] ==> y[0] in m
    requires var q, pp := Prev(lf + x, y + rf), if y != [] then m[y[0]].ptr else Next(lf + x, y + rf);
             if x != [] then m'[q].ptr == pp else m'[p].ptr == pp && m'[q].ptr == p
    ensures Linked(m', lf + (if x != [] then x else [p]) + rf)
  {
    var a, b := lf + x, y + rf;
    if y == [] {
      assert b == rf;
      if x == [] {
        assert a == lf;
        RingInsert(m, m', a, p, b);
      } else {
        PrevPointsToNext(m, a, b);
        RingSame(m, m', a + b);
      }
    } else {
      var nx := y[0];
      assert a + b == a + [nx] + rf;
      assert forall e :: e in a + rf ==> e in a + b;
      assert Prev(a, b) == Prev(a, rf);
      if x == [] {
        assert a == lf;
        RingReplace(m, m', a, p, nx, rf);
      } else {
        DistinctParts(a, nx, rf);
        RingRemove(m, m', a, nx, rf);
      }
    }
  }

  /** The base block is never merged, so something is left in the list besides the freed block. */
  lemma BaseFar(l: seq<Blk>, p: Blk, r: seq<Blk>, base: int)
    requires Tiled(l + [p] + r, base) && !p.free
    ensures FreeAddrs(FarLeft(l, p)) != [] || FreeAddrs(FarRight(p, r)) != []
  {
    var lf, rf, b := FarLeft(l, p), FarRight(p, r), BaseBlk(base);
    IsGroup(l, p, r, base);
    MergedBlk(l, p, r, base);
    BaseStays(l, p, r, base);
    if b in lf {
      var i :| 0 <= i < |lf| && lf[i] == b;
      InFree(lf, i);
    } else {
      assert b in rf;
      var i :| 0 <= i < |rf| && rf[i] == b;
      InFree(rf, i);
    }
  }

  /** Memory changes at `q` and `p` only. */
  ghost predicate WrittenAt(m: Memory, m': Memory, q: int, p: int) {
    forall a :: a in m && a != q && a != p ==> a in m' && m'[a] == m[a]
  }

  lemma WrittenSamePtrs(m: Memory, m': Memory, ring: seq<int>, q: int, p: int)
    requires Linked(m, ring) && p !in ring && WrittenAt(m, m', q, p)
    ensures SamePtrs(m, m', ring, q)
  {
    forall e | e in ring ensures e in m {
      var i :| 0 <= i < |ring| && ring[i] == e;
      assert PtrOk(m, ring, i);
    }
  }

  lemma FreedLinked(m: Memory, m': Memory, l: seq<Blk>, p: Blk, r: seq<Blk>, base: int)
    requires Tiled(l + [p] + r, base) && !p.free && Linked(m, FreeAddrs(l) + FreeAddrs(r))
    requires Sized(m, l) && Sized(m, r)
    requires FreeAddrs(l) != [] || FreeAddrs(r) != []
    requires FreeWrites(m, m', l, p, r)
    ensures Linked(m', FreeAddrs(Freed(l, p, r)))
  {
    hide Tiled, Sized, Freed;
    var lf, rf := FreeAddrs(FarLeft(l, p)), FreeAddrs(FarRight(p, r));
    var x := if MeetsLeft(l, p) then [l[|l| - 1].addr] else [];
    var y := if MeetsRight(p, r) then [r[0].addr] else [];
    var ring := FreeAddrs(l) + FreeAddrs(r);
    FreeParts(l, p, r);
    RingAround(l, p, r, base);
    IncreasingDistinct(ring);
    BaseFar(l, p, r, base);
    RightMeets(l, p, r, base);
    LeftMeets(m, l, p, r, base);
    assert p.addr !in ring;
    WrittenSamePtrs(m, m', ring, Prev(FreeAddrs(l), FreeAddrs(r)), p.addr);
    FreedRing(m, m', lf, x, p.addr, y, rf);
  }

  /** Blocks away from what is written keep their sizes. */
  lemma SizedAway(m: Memory, m': Memory, s: seq<Blk>, q: int, p: int)
    requires Sized(m, s) && WrittenAt(m, m', q, p) && q in m && q in m'
    requires forall b :: b in s ==> b.addr != p && (b.addr == q ==> m'[q].size == m[q].size)
    ensures Sized(m', s)
  {
  }

  /** The blocks that stay are apart from the freed block and from one merged on its left. */
  lemma FarApart(l: seq<Blk>, p: Blk, r: seq<Blk>)
    requires AddrSorted(l + [p] + r)
    ensures forall b :: b in FarLeft(l, p) || b in FarRight(p, r) ==> b.addr != p.addr
    ensures MeetsLeft(l, p) ==> forall b :: b in FarLeft(l, p) || b in FarRight(p, r) ==> b.addr != l[|l| - 1].addr
    ensures forall b :: b in FarLeft(l, p) ==> b in l
    ensures forall b :: b in FarRight(p, r) ==> b in r
  {
    var s := l + [p] + r;
    assert s[|l|] == p;
    if MeetsLeft(l, p) { assert s[|l| - 1] == l[|l| - 1]; }
    forall b | b in FarLeft(l, p)
      ensures b.addr != p.addr && (MeetsLeft(l, p) ==> b.addr != l[|l| - 1].addr) && b in l
    {
      var i :| 0 <= i < |FarLeft(l, p)| && FarLeft(l, p)[i] == b;
      assert s[i] == b && l[i] == b;
    }
    forall b | b in FarRight(p, r)
      ensures b.addr != p.addr && (MeetsLeft(l, p) ==> b.addr != l[|l| - 1].addr) && b in r
    {
      var i :| 0 <= i < |FarRight(p, r)| && FarRight(p, r)[i] == b;
      assert s[|s| - |FarRight(p, r)| + i] == b && r[|r| - |FarRight(p, r)| + i] == b;
    }
  }

  lemma FreedSized(m: Memory, m': Memory, l: seq<Blk>, p: Blk, r: seq<Blk>, base: int)
    requires Tiled(l + [p] + r, base) && !p.free && Sized(m, l) && Sized(m, r)
    requires FreeAddrs(l) != [] || FreeAddrs(r) != []
    requires FreeWrites(m, m', l, p, r)
    ensures Sized(m', Freed(l, p, r))
  {
    hide Tiled;
    var q := Prev(FreeAddrs(l), FreeAddrs(r));
    TiledSorted(l + [p] + r, base);
    LeftMeets(m, l, p, r, base);
    FarApart(l, p, r);
    SizedAway(m, m', FarLeft(l, p), q, p.addr);
    SizedAway(m, m', FarRight(p, r), q, p.addr);
  }

  // ---------------------------------------------------------------- the search for the place of a freed block

  /** Both exits of the search loop hold exactly at the block before the gap in which `p` lies. */
  lemma StopsAtGap(a: seq<int>, b: seq<int>, p: int, i: int)
    requires Increasing(a + b) && 0 <= i < |a + b|
    requires forall k :: 0 <= k < |a| ==> a[k] < p
    requires forall k :: 0 <= k < |b| ==> p < b[k]
    ensures var q, nx := (a + b)[i], (a + b)[Succ(i, |a + b|)];
            i == PrevAt(a, b) <==> (p > q && p < nx) || (q >= nx && (p > q || p < nx))
  {
    var ring := a + b;
    var n := |ring|;
    assert i < |a| ==> ring[i] == a[i];
    assert i >= |a| ==> ring[i] == b[i - |a|];
    var j := Succ(i, n);
    assert j < |a| ==> ring[j] == a[j];
    assert j >= |a| ==> ring[j] == b[j - |a|];
  }

  /** Steps from position `i` to position `k` around a circle of `n`. */
  ghost function Dist(i: int, k: int, n: int): int {
    if i <= k then k - i else k - i + n
  }

  lemma SizedParts(m: Memory, l: seq<Blk>, b: Blk, r: seq<Blk>)
    requires Sized(m, l + [b] + r)
    ensures Sized(m, l) && Sized(m, r) && b.addr in m && m[b.addr].size == b.size
  {
    assert forall x :: x in l ==> x in l + [b] + r;
    assert forall x :: x in r ==> x in l + [b] + r;
    assert b in l + [b] + r;
  }

  lemma NextInMemory(m: Memory, a: seq<int>, b: seq<int>)
    requires Linked(m, a + b) && (a != [] || b != [])
    ensures Next(a, b) in m && Next(a, b) in a + b && Prev(a, b) in a + b
  {
    var ring := a + b;
    var i := if b != [] then |a| else 0;
    assert PtrOk(m, ring, i) && ring[i] == Next(a, b);
    assert ring[PrevAt(a, b)] == Prev(a, b);
  }

  // ---------------------------------------------------------------- cores

  /** The chain of core headers. */
  ghost predicate CoreList(m: Memory, head: int, cores: seq<Chunk>)
    decreases |cores|
  {
    if cores == [] then head == 0
    else head == cores[0].addr && head in m && m[head].size == cores[0].size && CoreList(m, m[head].ptr, cores[1..])
  }

  lemma {:induction false} CoreListKept(m: Memory, m': Memory, head: int, cores: seq<Chunk>)
    requires CoreList(m, head, cores)
    requires forall c :: c in cores && c.addr in m ==> c.addr in m' && m'[c.addr] == m[c.addr]
    ensures CoreList(m', head, cores)
    decreases |cores|
  {
    if cores != [] {
      assert cores[0] in cores;
      assert forall c :: c in cores[1..] ==> c in cores;
      CoreListKept(m, m', m[head].ptr, cores[1..]);
    }
  }

  lemma {:induction false} InCores(s: seq<Blk>, c: Chunk) returns (i: int)
    requires c in Cores(s)
    ensures 0 <= i < |s| && s[i].home == c.addr && s[i].addr == c.addr + 1 && s[i].end == c.addr + c.size
    decreases |s|
  {
    if s[0].addr == s[0].home + 1 && c == Chunk(s[0].home, s[0].end - s[0].home) {
      i := 0;
    } else {
      i := InCores(s[1..], c);
      i := i + 1;
    }
  }

  /** A core header lies in no block. */
  lemma CoreApart(s: seq<Blk>, base: int, c: Chunk, j: int)
    requires Tiled(s, base) && c in Cores(s) && c.addr != base && 0 <= j < |s|
    ensures c.addr != s[j].addr && !(s[j].addr <= c.addr < s[j].addr + s[j].size)
  {
    var i := InCores(s, c);
    assert BlkOk(s[i], base) && BlkOk(s[j], base);
    if i < j { ChainOrder(s, base, i, j); }
    if j < i { ChainOrder(s, base, j, i); }
  }

  /** Writing only at blocks leaves the chain of core headers alone. */
  lemma CoresUntouched(m: Memory, m': Memory, s: seq<Blk>, base: int, at: set<int>, head: int, cores: seq<Chunk>)
    requires Tiled(s, base) && CoreList(m, head, cores) && OnlyAt(m, m', at)
    requires forall c :: c in cores ==> c.addr != base && c in Cores(s)
    requires forall a :: a in at ==>
               exists j :: 0 <= j < |s| && s[j].addr <= a && (a == s[j].addr || a < s[j].addr + s[j].size)
    ensures CoreList(m', head, cores)
  {
    forall c | c in cores ensures c.addr !in at {
      if c.addr in at {
        var j :| 0 <= j < |s| && s[j].addr <= c.addr && (c.addr == s[j].addr || c.addr < s[j].addr + s[j].size);
        CoreApart(s, base, c, j);
      }
    }
    CoreListKept(m, m', head, cores);
  }

  lemma FreeAreBlocks(s: seq<Blk>)
    ensures forall a :: a in FreeAddrs(s) ==> exists j :: 0 <= j < |s| && s[j].free && s[j].addr == a
  {
    forall a | a in FreeAddrs(s) ensures exists j :: 0 <= j < |s| && s[j].free && s[j].addr == a {
      var k :| 0 <= k < |FreeAddrs(s)| && FreeAddrs(s)[k] == a;
      var i := FreeIndex(s, k);
    }
  }

  /** The blocks tile the cores, and the headers in memory agree with blocks and cores. */
  ghost predicate Consistent(m: Memory, s: seq<Blk>, base: int, head: int, cores: seq<Chunk>) {
    && Tiled(s, base) && Sized(m, s)
    && CoreList(m, head, cores) && (forall c :: c in cores ==> c.addr != base)
    && multiset(cores) + multiset{Chunk(base - 1, 1)} == Cores(s)
  }

  /** The free list is one circle in address order, and `head` is on it. */
  ghost predicate Looped(m: Memory, s: seq<Blk>, head: int) {
    Linked(m, FreeAddrs(s)) && head in FreeAddrs(s) && head != 0
  }

  lemma FreedOnlyAt(m: Memory, m': Memory, l: seq<Blk>, b: Blk, r: seq<Blk>)
    requires !b.free && Linked(m, FreeAddrs(l) + FreeAddrs(r)) && FreeAddrs(l + [b] + r) == FreeAddrs(l) + FreeAddrs(r)
    requires FreeAddrs(l) != [] || FreeAddrs(r) != []
    requires FreeWrites(m, m', l, b, r)
    ensures OnlyAt(m, m', AsSet(FreeAddrs(l + [b] + r)) + {b.addr})
  {
    NextInMemory(m, FreeAddrs(l), FreeAddrs(r));
  }

  lemma FreedConsistent(m: Memory, m': Memory, l: seq<Blk>, b: Blk, r: seq<Blk>, base: int, head: int,
                        cores: seq<Chunk>)
    requires Consistent(m, l + [b] + r, base, head, cores) && !b.free
    requires FreeAddrs(l) != [] || FreeAddrs(r) != []
    requires FreeWrites(m, m', l, b, r) && OnlyAt(m, m', AsSet(FreeAddrs(l + [b] + r)) + {b.addr})
    ensures Consistent(m', Freed(l, b, r), base, head, cores)
  {
    hide Tiled, FreeWrites, Freed;
    var s := l + [b] + r;
    SizedParts(m, l, b, r);
    FreedSized(m, m', l, b, r, base);
    FreedKeeps(l, b, r, base);
    FreeAreBlocks(s);
    assert s[|l|] == b;
    CoresUntouched(m, m', s, base, AsSet(FreeAddrs(s)) + {b.addr}, head, cores);
  }

  lemma FreedLooped(m: Memory, m': Memory, l: seq<Blk>, b: Blk, r: seq<Blk>, base: int)
    requires Tiled(l + [b] + r, base) && !b.free && Sized(m, l + [b] + r) && Linked(m, FreeAddrs(l + [b] + r))
    requires FreeAddrs(l) != [] || FreeAddrs(r) != []
    requires FreeWrites(m, m', l, b, r)
    ensures Looped(m', Freed(l, b, r), Merged(l, b, r).addr)
  {
    SizedParts(m, l, b, r);
    RingAround(l, b, r, base);
    FreedLinked(m, m', l, b, r, base);
    IsGroup(l, b, r, base);
    MergedBlk(l, b, r, base);
    assert Freed(l, b, r)[|FarLeft(l, b)|] == Merged(l, b, r);
    InFree(Freed(l, b, r), |FarLeft(l, b)|);
  }

  const MIN_CORE_SIZE := 0x80000

  /** kalloc.c:61: the units of a core for a request of `n` units, a multiple of the minimum. */
  function CoreSize(n: int): int {
    (n + 1 + (MIN_CORE_SIZE - 1)) / MIN_CORE_SIZE * MIN_CORE_SIZE
  }

  /** kalloc.c:128: the units for a request in bytes; a header is two words of eight bytes. */
  function Units(bytes: int): int {
    (bytes + 8 + 16 - 1) / 16 + 1
  }

  lemma CoreIsEnough(n: int)
    requires 0 < n
    ensures n + 1 <= CoreSize(n) < n + 1 + MIN_CORE_SIZE && CoreSize(n) % MIN_CORE_SIZE == 0
  {
  }

  /** One unit more than it takes to hold the size word and the request. */
  lemma UnitsAreEnough(bytes: int)
    requires 0 < bytes
    ensures 2 <= Units(bytes) && 16 * (Units(bytes) - 2) < 8 + bytes <= 16 * (Units(bytes) - 1)
  {
  }

  // ---------------------------------------------------------------- what callers keep in their blocks

  /** Nothing in the memory of the given blocks has changed. */
  ghost predicate Intact(m: Memory, m': Memory, lives: multiset<Chunk>) {
    forall c, a :: c in lives && c.addr <= a < c.addr + c.size && a in m ==> a in m' && m'[a] == m[a]
  }

  ghost predicate OnlyAt(m: Memory, m': Memory, s: set<int>) {
    forall a :: a in m && a !in s ==> a in m' && m'[a] == m[a]
  }

  ghost function AsSet(s: seq<int>): set<int> {
    set a | a in s
  }

  lemma IntactSelf(m: Memory, lives: multiset<Chunk>)
    ensures Intact(m, m, lives)
  {
  }

  lemma IntactTrans(m: Memory, m1: Memory, m2: Memory, lives: multiset<Chunk>)
    requires Intact(m, m1, lives) && Intact(m1, m2, lives)
    ensures Intact(m, m2, lives)
  {
  }

  lemma LiveSplit(s: seq<Blk>, c: Chunk) returns (l: seq<Blk>, b: Blk, r: seq<Blk>)
    requires c in Lives(s)
    ensures s == l + [b] + r && !b.free && b.addr == c.addr && b.size == c.size
  {
    var i := InLives(s, c);
    l, b, r := s[..i], s[i], s[i + 1..];
  }

  lemma Cancel(a: multiset<Chunk>, b: multiset<Chunk>, c: Chunk)
    requires a + multiset{c} == b + multiset{c}
    ensures a == b
  {
    assert a == (a + multiset{c}) - multiset{c};
    assert b == (b + multiset{c}) - multiset{c};
  }

  /** A live block other than the one between `l` and `r`. */
  lemma OtherLive(l: seq<Blk>, b: Blk, r: seq<Blk>, c: Chunk) returns (i: int)
    requires c in Lives(l + r)
    ensures var s := l + [b] + r;
            0 <= i < |s| && i != |l| && s[i] == (l + [b] + r)[i] && !s[i].free && s[i].addr == c.addr
                && s[i].size == c.size
  {
    i := InLives(l + r, c);
    if i >= |l| { i := i + 1; }
  }

  /** What is written while one block is freed lies in no block that stays live. */
  lemma IntactAfterFree(m: Memory, m': Memory, l: seq<Blk>, b: Blk, r: seq<Blk>, base: int)
    requires Tiled(l + [b] + r, base) && !b.free
    requires OnlyAt(m, m', AsSet(FreeAddrs(l + [b] + r)) + {b.addr})
    ensures Intact(m, m', Lives(l + r)) && Lives(l + [b] + r) == Lives(l + r) + multiset{Chunk(b.addr, b.size)}
  {
    hide Tiled, Lives;
    var s := l + [b] + r;
    FreeAreBlocks(s);
    assert s[|l|] == b;
    WithCoreLives(l, r, b);
    forall c, a | c in Lives(l + r) && c.addr <= a < c.addr + c.size && a in m ensures a in m' && m'[a] == m[a] {
      var i := OtherLive(l, b, r, c);
      LiveApart(s, base, i, |l|);
      if a in FreeAddrs(s) {
        var j :| 0 <= j < |s| && s[j].free && s[j].addr == a;
        LiveApart(s, base, i, j);
      }
    }
  }

  /** The headers of a new core and of the live block that fills it. */
  function CoreHeaders(m: Memory, q: int, nu: int, head: int): Memory {
    m[q := Header(nu, head)][q + 1 := Header(nu - 1, 0)]
  }

  lemma ApartKeeps(m: Memory, s: seq<Blk>, base: int, q: int, nu: int, head: int)
    requires Tiled(s, base) && Sized(m, s) && Apart(s, q, nu) && 2 <= nu
    ensures var m' := CoreHeaders(m, q, nu, head);
            Sized(m', s) && Intact(m, m', Lives(s)) && forall b :: b in s ==> b.addr != q && b.addr != q + 1
  {
    forall b | b in s ensures b.addr != q && b.addr != q + 1 {
      assert BlkOk(b, base);
    }
    var m' := CoreHeaders(m, q, nu, head);
    forall c, a | c in Lives(s) && c.addr <= a < c.addr + c.size && a in m ensures a in m' && m'[a] == m[a] {
      var i := InLives(s, c);
      assert s[i] in s && BlkOk(s[i], base);
      assert a != q && a != q + 1;
    }
  }

  lemma CoreListAdded(m: Memory, s: seq<Blk>, base: int, q: int, nu: int, head: int, cores: seq<Chunk>)
    requires Consistent(m, s, base, head, cores) && Apart(s, q, nu) && 2 <= nu
    ensures CoreList(CoreHeaders(m, q, nu, head), q, [Chunk(q, nu)] + cores)
  {
    var m' := CoreHeaders(m, q, nu, head);
    forall c | c in cores ensures c.addr != q && c.addr != q + 1 {
      assert c in Cores(s);
      var i := InCores(s, c);
      assert s[i] in s && BlkOk(s[i], base);
    }
    CoreListKept(m, m', head, cores);
    assert ([Chunk(q, nu)] + cores)[1..] == cores;
  }

  lemma LoopKept(m: Memory, m': Memory, s: seq<Blk>, s': seq<Blk>, head: int)
    requires Looped(m, s, head) && FreeAddrs(s') == FreeAddrs(s)
    requires forall b :: b in s && b.addr in m ==> b.addr in m' && m'[b.addr] == m[b.addr]
    ensures Looped(m', s', head)
  {
    var ring := FreeAddrs(s);
    FreeAreBlocks(s);
    forall x | x in ring ensures x in m && x in m' && m'[x] == m[x] {
      var i :| 0 <= i < |ring| && ring[i] == x;
      assert PtrOk(m, ring, i);
      var j :| 0 <= j < |s| && s[j].free && s[j].addr == x;
      assert s[j] in s;
    }
    RingSame(m, m', ring);
  }

  /** A new core, not yet in the loop. */
  lemma CoreAdded(m: Memory, l: seq<Blk>, r: seq<Blk>, base: int, head: int, cores: seq<Chunk>, q: int, nu: int)
    requires Consistent(m, l + r, base, head, cores) && Apart(l + r, q, nu) && 1 <= q && 2 <= nu
    requires (l != [] ==> l[|l| - 1].end <= q) && (r != [] ==> q + nu <= r[0].home)
    ensures var m', s' := CoreHeaders(m, q, nu, head), l + [CoreBlk(q, nu)] + r;
            Consistent(m', s', base, q, [Chunk(q, nu)] + cores)
  {
    var m', s, s', c := CoreHeaders(m, q, nu, head), l + r, l + [CoreBlk(q, nu)] + r, Chunk(q, nu);
    ApartKeeps(m, s, base, q, nu, head);
    CoreListAdded(m, s, base, q, nu, head, cores);
    WithCoreTiled(l, r, q, nu, base);
    WithCoreCores(l, r, CoreBlk(q, nu));
    assert multiset([c] + cores) == multiset{c} + multiset(cores);
    SizedWithCore(m', l, r, q, nu);
  }

  lemma SizedWithCore(m: Memory, l: seq<Blk>, r: seq<Blk>, q: int, nu: int)
    requires Sized(m, l + r) && q + 1 in m && m[q + 1].size == nu - 1
    ensures Sized(m, l + [CoreBlk(q, nu)] + r)
  {
    var s, s' := l + r, l + [CoreBlk(q, nu)] + r;
    forall b | b in s' ensures b.addr in m && m[b.addr].size == b.size {
      assert b in s || b == CoreBlk(q, nu);
    }
  }

  /** The block of a new core has no neighbours to merge with. */
  lemma CoreAlone(l: seq<Blk>, r: seq<Blk>, q: int, nu: int, base: int)
    requires Tiled(l + r, base) && 2 <= nu
    requires (l != [] ==> l[|l| - 1].end <= q) && (r != [] ==> q + nu <= r[0].home)
    ensures Merged(l, CoreBlk(q, nu), r) == CoreBlk(q, nu).(free := true)
    ensures Freed(l, CoreBlk(q, nu), r) == l + [CoreBlk(q, nu).(free := true)] + r
  {
    AllOkAppend(l, r, base);
    if l != [] { assert BlkOk(l[|l| - 1], base); }
  }

  // ---------------------------------------------------------------- taking a block out of the list

  /** The headers after `n` units of the free block `p` are taken; `q` precedes it in the list. */
  function CutHeaders(m: Memory, q: int, p: int, n: int): Memory
    requires q in m && p in m
  {
    if m[p].size == n then m[q := m[q].(ptr := m[p].ptr)]
    else
      var t := p + m[p].size - n;
      m[p := m[p].(size := m[p].size - n)][t := Header(n, if t in m then m[t].ptr else 0)]
  }

  /** No block starts inside another one. */
  lemma BlocksApart(s: seq<Blk>, base: int, i: int, j: int)
    requires Tiled(s, base) && 0 <= i < |s| && 0 <= j < |s| && i != j
    ensures s[i].addr != s[j].addr && !(s[i].addr <= s[j].addr < s[i].addr + s[i].size)
  {
    assert BlkOk(s[i], base) && BlkOk(s[j], base);
    if i < j { ChainOrder(s, base, i, j); } else { ChainOrder(s, base, j, i); }
  }

  /** What `CutHeaders` writes: the header before `p`, or the inside of `p`. */
  lemma CutOnlyAt(m: Memory, q: int, p: int, n: int)
    requires q in m && p in m && 0 < n <= m[p].size
    ensures var m' := CutHeaders(m, q, p, n);
            && (m[p].size == n ==> OnlyAt(m, m', {q})) && (m[p].size != n ==> OnlyAt(m, m', {p, p + m[p].size - n}))
            && m.Keys <= m'.Keys
  {
  }

  lemma CutSized(m: Memory, l: seq<Blk>, p: Blk, n: int, r: seq<Blk>, q: int, base: int)
    requires Tiled(l + [p] + r, base) && Sized(m, l + [p] + r) && p.free && 0 < n <= p.size && q in m
    ensures p.addr in m && Sized(CutHeaders(m, q, p.addr, n), l + Cut(p, n) + r)
  {
    var s, k := l + [p] + r, |l|;
    assert s[k] == p && p in s;
    var m' := CutHeaders(m, q, p.addr, n);
    forall b | b in l || b in r ensures b.addr in m' && m'[b.addr].size == b.size {
      var j;
      if b in l {
        j :| 0 <= j < |l| && l[j] == b;
      } else {
        j :| 0 <= j < |r| && r[j] == b;
        j := k + 1 + j;
      }
      assert s[j] == b && b in s;
      BlocksApart(s, base, k, j);
    }
  }

  /** The list, by addresses only, after the block at `p` left it or only shrank. */
  lemma CutPtrs(m: Memory, fl: seq<int>, p: int, fr: seq<int>, n: int, q: int)
    requires Linked(m, fl + [p] + fr) && Distinct(fl + [p] + fr) && p in m
    requires (fl != [] || fr != []) && q == Prev(fl, fr) && q in m
    ensures Linked(CutHeaders(m, q, p, n), if m[p].size == n then fl + fr else fl + [p] + fr)
  {
    var ring, m' := fl + [p] + fr, CutHeaders(m, q, p, n);
    RingInMemory(m, ring);
    if m[p].size == n {
      DistinctParts(fl, p, fr);
      assert forall x :: x in fl + fr ==> x in ring;
      RingRemove(m, m', fl, p, fr);
    } else {
      RingSame(m, m', ring);
    }
  }

  lemma CutRing(m: Memory, l: seq<Blk>, p: Blk, n: int, r: seq<Blk>, q: int, base: int)
    requires Tiled(l + [p] + r, base) && Sized(m, l + [p] + r) && p.free && 0 < n <= p.size
    requires Linked(m, FreeAddrs(l + [p] + r))
    requires (FreeAddrs(l) != [] || FreeAddrs(r) != []) && q == Prev(FreeAddrs(l), FreeAddrs(r))
    ensures q in m && p.addr in m && Linked(CutHeaders(m, q, p.addr, n), FreeAddrs(l + Cut(p, n) + r))
    ensures q in FreeAddrs(l + Cut(p, n) + r)
  {
    hide Tiled, Sized, Linked, Cut, FreeAddrs;
    SizedParts(m, l, p, r);
    CutFreeAddrs(l, p, n, r);
    RingIncreasing(l + [p] + r, base);
    IncreasingDistinct(FreeAddrs(l + [p] + r));
    RingInMemory(m, FreeAddrs(l + [p] + r));
    PrevIn(FreeAddrs(l), p.addr, FreeAddrs(r));
    CutPtrs(m, FreeAddrs(l), p.addr, FreeAddrs(r), n, q);
  }

  lemma CutFreeAddrs(l: seq<Blk>, p: Blk, n: int, r: seq<Blk>)
    requires p.free && 0 < n <= p.size
    ensures FreeAddrs(l + [p] + r) == FreeAddrs(l) + [p.addr] + FreeAddrs(r)
    ensures p.size == n ==> FreeAddrs(l + Cut(p, n) + r) == FreeAddrs(l) + FreeAddrs(r)
    ensures p.size != n ==> FreeAddrs(l + Cut(p, n) + r) == FreeAddrs(l) + [p.addr] + FreeAddrs(r)
  {
    hide Cut, FreeAddrs;
    FreeAddrsThree(l, [p], r);
    FreeAddrsOne(p);
    FreeAddrsThree(l, Cut(p, n), r);
    CutFree(p, n);
    if p.size == n {
      assert FreeAddrs(l) + FreeAddrs(Cut(p, n)) == FreeAddrs(l);
    }
  }

  lemma PrevIn(a: seq<int>, x: int, b: seq<int>)
    requires a != [] || b != []
    ensures Prev(a, b) in a + b && Prev(a, b) in a + [x] + b
  {
  }

  /** Taking a block writes at no core header, */
  lemma CutCoreList(m: Memory, l: seq<Blk>, p: Blk, n: int, r: seq<Blk>, q: int, base: int, head: int,
                    cores: seq<Chunk>)
    requires Consistent(m, l + [p] + r, base, head, cores) && p.free && 0 < n <= p.size
    requires q in m && p.addr in m && m[p.addr].size == p.size && q in FreeAddrs(l + [p] + r)
    ensures CoreList(CutHeaders(m, q, p.addr, n), head, cores)
  {
    hide Tiled, Sized;
    var s, m' := l + [p] + r, CutHeaders(m, q, p.addr, n);
    assert s[|l|] == p;
    CutOnlyAt(m, q, p.addr, n);
    FreeAreBlocks(s);
    CoresUntouched(m, m', s, base, if p.size == n then {q} else {p.addr, p.addr + p.size - n}, head, cores);
  }

  /** and in no live block. */
  lemma CutIntact(m: Memory, l: seq<Blk>, p: Blk, n: int, r: seq<Blk>, q: int, base: int)
    requires Tiled(l + [p] + r, base) && p.free && 0 < n <= p.size
    requires q in m && p.addr in m && m[p.addr].size == p.size && q in FreeAddrs(l + [p] + r)
    ensures Intact(m, CutHeaders(m, q, p.addr, n), Lives(l + [p] + r))
  {
    hide Tiled;
    var s, k, m' := l + [p] + r, |l|, CutHeaders(m, q, p.addr, n);
    assert s[k] == p;
    CutOnlyAt(m, q, p.addr, n);
    FreeAreBlocks(s);
    var j :| 0 <= j < |s| && s[j].free && s[j].addr == q;
    forall c, a | c in Lives(s) && c.addr <= a < c.addr + c.size && a in m ensures a in m' && m'[a] == m[a] {
      var i := InLives(s, c);
      LiveApart(s, base, i, j);
      LiveApart(s, base, i, k);
    }
  }

  lemma CutConsistent(m: Memory, l: seq<Blk>, p: Blk, n: int, r: seq<Blk>, q: int, base: int, head: int,
                      cores: seq<Chunk>)
    requires Consistent(m, l + [p] + r, base, head, cores) && p.free && 0 < n <= p.size
    requires q in m && p.addr in m && q in FreeAddrs(l + [p] + r)
    ensures Consistent(CutHeaders(m, q, p.addr, n), l + Cut(p, n) + r, base, head, cores)
  {
    SizedParts(m, l, p, r);
    CutCoreList(m, l, p, n, r, q, base, head, cores);
    CutSized(m, l, p, n, r, q, base);
    CutKeeps(l, p, n, r, base);
  }

  lemma CutFacts(m: Memory, l: seq<Blk>, p: Blk, n: int, r: seq<Blk>, q: int, base: int, head: int, cores: seq<Chunk>)
    requires Consistent(m, l + [p] + r, base, head, cores) && p.free && 0 < n <= p.size
    requires Linked(m, FreeAddrs(l + [p] + r)) && q != 0
    requires (FreeAddrs(l) != [] || FreeAddrs(r) != []) && q == Prev(FreeAddrs(l), FreeAddrs(r))
    ensures q in m && p.addr in m && m[p.addr].size == p.size
    ensures var m', s' := CutHeaders(m, q, p.addr, n), l + Cut(p, n) + r;
            && Consistent(m', s', base, head, cores) && Looped(m', s', q)
            && Lives(s') == Lives(l + [p] + r) + multiset{Chunk(p.addr + p.size - n, n)}
            && Intact(m, m', Lives(l + [p] + r))
  {
    hide Tiled, Sized, Linked, CoreList, Intact;
    FreeAddrsThree(l, [p], r);
    CutRing(m, l, p, n, r, q, base);
    SizedParts(m, l, p, r);
    CutConsistent(m, l, p, n, r, q, base, head, cores);
    CutIntact(m, l, p, n, r, q, base);
    CutKeeps(l, p, n, r, base);
  }

  lemma RingInMemory(m: Memory, ring: seq<int>)
    requires Linked(m, ring)
    ensures forall x :: x in ring ==> x in m
  {
    forall x | x in ring ensures x in m {
      var i :| 0 <= i < |ring| && ring[i] == x;
      assert PtrOk(m, ring, i);
    }
  }

  lemma StartCores(m: Memory, base: int, head: int, cores: seq<Chunk>)
    requires Consistent(m, [BaseBlk(base)], base, head, cores)
    ensures cores == [] && head == 0
  {
    CoresOne(BaseBlk(base));
    assert |multiset(cores) + multiset{Chunk(base - 1, 1)}| == |cores| + 1;
    assert |Cores([BaseBlk(base)])| == 1;
  }

  // ---------------------------------------------------------------- the search for a free block

  /** No free block has `n` units. */
  ghost predicate NoFit(s: seq<Blk>, n: int) {
    forall b :: b in s && b.free ==> b.size < n
  }

  /** Going round from position `h`, position `j` comes after `h` and not after `i`. */
  ghost predicate Between(h: int, j: int, i: int) {
    if h < i then h < j <= i else if i < h then j > h || j <= i else false
  }

  /**
    Next fit: going round from behind `head`, the first free block of at least `n` units gives its last `n`
    units at `p`, and the list starts at the block before it from now on.
   */
  ghost predicate NextFit(m: Memory, s: seq<Blk>, head: int, n: int, p: int, head': int) {
    exists h, i :: FitsAt(m, FreeAddrs(s), h, i, head, n, p, head')
  }

  ghost predicate FitsAt(m: Memory, ring: seq<int>, h: int, i: int, head: int, n: int, p: int, head': int) {
    && 0 <= h < |ring| && ring[h] == head && 0 <= i < |ring| && ring[i] == head' && Passed(m, ring, h, i, n)
    && var a := ring[Succ(i, |ring|)]; a in m && n <= m[a].size && p == a + m[a].size - n
  }

  /** The blocks behind position `h` up to position `i` are too small. */
  ghost predicate Passed(m: Memory, ring: seq<int>, h: int, i: int, n: int) {
    forall j :: 0 <= j < |ring| && Between(h, j, i) ==> ring[j] in m && m[ring[j]].size < n
  }

  lemma NextFitAt(m: Memory, s: seq<Blk>, ring: seq<int>, h: int, i: int, head: int, n: int, p: int, head': int)
    requires ring == FreeAddrs(s) && 0 <= h < |ring| && ring[h] == head && 0 <= i < |ring| && ring[i] == head'
    requires Passed(m, ring, h, i, n) && ring[Succ(i, |ring|)] in m && n <= m[ring[Succ(i, |ring|)]].size
    requires p == ring[Succ(i, |ring|)] + m[ring[Succ(i, |ring|)]].size - n
    ensures NextFit(m, s, head, n, p, head')
  {
    assert FitsAt(m, ring, h, i, head, n, p, head');
  }

  ghost function Rem(i: int, h: int, n: int): int {
    if i < h then h - i else h - i + n
  }

  lemma PassedStep(m: Memory, ring: seq<int>, h: int, i: int, n: int)
    requires Passed(m, ring, h, i, n) && 0 <= i < |ring| && 0 <= h < |ring| && Succ(i, |ring|) != h
    requires ring[Succ(i, |ring|)] in m && m[ring[Succ(i, |ring|)]].size < n
    ensures Passed(m, ring, h, Succ(i, |ring|), n)
  {
  }

  lemma RoundStep(i: int, h: int, n: int)
    requires 0 <= i < n && 0 <= h < n && Succ(i, n) != h
    ensures 0 <= Rem(Succ(i, n), h, n) < Rem(i, h, n)
  {
  }

  lemma NonePassed(m: Memory, ring: seq<int>, h: int, n: int)
    ensures Passed(m, ring, h, h, n)
  {
  }

  ghost function IndexIn(s: seq<int>, x: int): (i: int)
    requires x in s
    ensures 0 <= i < |s| && s[i] == x
  {
    var i :| 0 <= i < |s| && s[i] == x;
    i
  }

  lemma RingIncreasing(s: seq<Blk>, base: int)
    requires Tiled(s, base)
    ensures Increasing(FreeAddrs(s))
  {
    TiledSorted(s, base);
    FreeSorted(s);
  }

  /** The whole circle was passed. */
  lemma NothingFits(m: Memory, s: seq<Blk>, base: int, head: int, cores: seq<Chunk>, h: int, i: int, n: int)
    requires Consistent(m, s, base, head, cores)
    requires var ring := FreeAddrs(s);
             0 <= i < |ring| && 0 <= h < |ring| && ring[Succ(i, |ring|)] == ring[h] && Passed(m, ring, h, i, n)
             && ring[h] in m && m[ring[h]].size < n
    ensures NoFit(s, n)
  {
    hide Tiled, CoreList, Cores;
    var ring := FreeAddrs(s);
    RingIncreasing(s, base);
    assert Succ(i, |ring|) == h;
    forall b | b in s && b.free ensures b.size < n {
      var k :| 0 <= k < |s| && s[k] == b;
      InFree(s, k);
      var j := IndexIn(ring, b.addr);
      assert j == h || Between(h, j, i);
    }
  }

  lemma PrevAtSplit(fl: seq<int>, x: int, fr: seq<int>, i: int)
    requires Increasing(fl + [x] + fr) && 0 <= i <= |fl| + |fr| && (fl + [x] + fr)[Succ(i, |fl| + 1 + |fr|)] == x
    requires 0 < |fl| + |fr|
    ensures (fl + [x] + fr)[i] == Prev(fl, fr)
  {
    var ring, j := fl + [x] + fr, Succ(i, |fl| + 1 + |fr|);
    assert ring[|fl|] == x;
    assert j == |fl|;
  }

  /** The free block at a position of the list, among all blocks, and the one before it in the list. */
  lemma RingSplit(m: Memory, s: seq<Blk>, base: int, head: int, cores: seq<Chunk>, i: int, n: int)
    returns (l: seq<Blk>, b: Blk, r: seq<Blk>)
    requires Consistent(m, s, base, head, cores) && 0 < n
    requires var ring := FreeAddrs(s);
             0 <= i < |ring| && ring[Succ(i, |ring|)] in m && m[ring[Succ(i, |ring|)]].size >= n
    ensures s == l + [b] + r && b.free && b.addr == FreeAddrs(s)[Succ(i, |FreeAddrs(s)|)] && n <= b.size
    ensures (FreeAddrs(l) != [] || FreeAddrs(r) != []) && FreeAddrs(s)[i] == Prev(FreeAddrs(l), FreeAddrs(r))
    ensures FreeAddrs(s)[i] != 0 && !NoFit(s, n) && b.addr in m && b.size == m[b.addr].size
  {
    hide Tiled, CoreList, Cores;
    var ring, j := FreeAddrs(s), Succ(i, |FreeAddrs(s)|);
    var k := FreeIndex(s, j);
    l, b, r := s[..k], s[k], s[k + 1..];
    assert s == l + [b] + r && b in s;
    RingIncreasing(s, base);
    var fl, fr := FreeAddrs(l), FreeAddrs(r);
    FreeAddrsThree(l, [b], r);
    FreeAddrsOne(b);
    TwoFree(m, s, base, b, n, fl, fr);
    PrevAtSplit(fl, b.addr, fr, i);
    FreeNotNull(s, base, i);
  }

  lemma FreeNotNull(s: seq<Blk>, base: int, i: int)
    requires Tiled(s, base) && 0 <= i < |FreeAddrs(s)|
    ensures FreeAddrs(s)[i] != 0
  {
    var e := FreeIndex(s, i);
    assert BlkOk(s[e], base);
  }

  /** A block that fits is not the only free one: there is the base. */
  lemma TwoFree(m: Memory, s: seq<Blk>, base: int, b: Blk, n: int, fl: seq<int>, fr: seq<int>)
    requires Tiled(s, base) && Sized(m, s) && b in s && b.size >= n && 0 < n
    requires FreeAddrs(s) == fl + [b.addr] + fr
    ensures 0 < |fl| + |fr|
  {
    BaseInRing(s, base);
    BaseNotFit(m, s, base, b, n);
  }

  lemma BaseNotFit(m: Memory, s: seq<Blk>, base: int, b: Blk, n: int)
    requires Tiled(s, base) && Sized(m, s) && b in s && b.size >= n && 0 < n
    ensures b.addr != base
  {
    assert BaseBlk(base) in s;
  }

  // ---------------------------------------------------------------- writes by callers

  /** A caller's write in its own block, not over the size word, disturbs nothing. */
  lemma PokeKeeps(m: Memory, s: seq<Blk>, base: int, head: int, cores: seq<Chunk>, c: Chunk, a: int, h: Header)
    requires Consistent(m, s, base, head, cores) && c in Lives(s) && c.addr <= a < c.addr + c.size
    requires a == c.addr ==> h.size == c.size
    ensures Consistent(m[a := h], s, base, head, cores)
    ensures forall x :: x in FreeAddrs(s) ==> x != a
  {
    var i := InLives(s, c);
    var m' := m[a := h];
    forall b | b in s ensures b.addr in m' && m'[b.addr].size == b.size && (b.free ==> b.addr != a) {
      var j :| 0 <= j < |s| && s[j] == b;
      if j != i { LiveApart(s, base, i, j); }
    }
    FreeAreBlocks(s);
    forall x | x in cores ensures x.addr != a {
      assert x in Cores(s);
      CoreApart(s, base, x, i);
    }
    CoreListKept(m, m', head, cores);
  }

  lemma PokeLooped(m: Memory, s: seq<Blk>, head: int, a: int, h: Header)
    requires Looped(m, s, head) && forall x :: x in FreeAddrs(s) ==> x != a
    ensures Looped(m[a := h], s, head)
  {
    RingInMemory(m, FreeAddrs(s));
    RingSame(m, m[a := h], FreeAddrs(s));
  }

  // ---------------------------------------------------------------- statistics

  ghost function SizeAt(m: Memory, x: int): int {
    if x in m then m[x].size else 0
  }

  ghost function SizeSum(m: Memory, ring: seq<int>): int {
    if ring == [] then 0 else SizeAt(m, ring[0]) + SizeSum(m, ring[1..])
  }

  ghost function NonZero(m: Memory, ring: seq<int>): int {
    if ring == [] then 0 else (if SizeAt(m, ring[0]) != 0 then 1 else 0) + NonZero(m, ring[1..])
  }

  lemma {:induction false} RingSums(m: Memory, s: seq<Blk>)
    requires Sized(m, s)
    ensures SizeSum(m, FreeAddrs(s)) == FreeUnits(s) && NonZero(m, FreeAddrs(s)) == CountFree(s)
    decreases |s|
  {
    if s != [] {
      assert forall b :: b in s[1..] ==> b in s;
      assert s[0] in s;
      RingSums(m, s[1..]);
      var f := if s[0].free then [s[0].addr] else [];
      assert FreeAddrs(s) == f + FreeAddrs(s[1..]);
      if s[0].free {
        assert FreeAddrs(s)[1..] == FreeAddrs(s[1..]);
      } else {
        assert FreeAddrs(s) == FreeAddrs(s[1..]);
      }
    }
  }

  lemma {:induction false} RingSumsAppend(m: Memory, a: seq<int>, b: seq<int>)
    ensures SizeSum(m, a + b) == SizeSum(m, a) + SizeSum(m, b) && NonZero(m, a + b) == NonZero(m, a) + NonZero(m, b)
    decreases |a|
  {
    if a == [] {
      assert a + b == b;
    } else {
      assert (a + b)[0] == a[0] && (a + b)[1..] == a[1..] + b;
      RingSumsAppend(m, a[1..], b);
    }
  }

  /** From position `h` around to, not including, position `i`. */
  ghost function Arc(ring: seq<int>, h: int, i: int): seq<int>
    requires 0 <= h < |ring| && 0 <= i < |ring|
  {
    if h <= i then ring[h..i] else ring[h..] + ring[..i]
  }

  lemma ArcStep(m: Memory, ring: seq<int>, h: int, i: int)
    requires 0 <= h < |ring| && 0 <= i < |ring|
    ensures var size, one := SizeAt(m, ring[i]), if SizeAt(m, ring[i]) != 0 then 1 else 0;
            var j := Succ(i, |ring|);
            && (j != h ==> SizeSum(m, Arc(ring, h, j)) == SizeSum(m, Arc(ring, h, i)) + size
                           && NonZero(m, Arc(ring, h, j)) == NonZero(m, Arc(ring, h, i)) + one)
            && (j == h ==> SizeSum(m, ring) == SizeSum(m, Arc(ring, h, i)) + size
                           && NonZero(m, ring) == NonZero(m, Arc(ring, h, i)) + one)
  {
    var j := Succ(i, |ring|);
    assert [ring[i]][1..] == [];
    RingSumsAppend(m, Arc(ring, h, i), [ring[i]]);
    if j != h {
      assert Arc(ring, h, j) == Arc(ring, h, i) + [ring[i]];
    } else {
      RingSumsAppend(m, ring[..h], ring[h..]);
      assert ring[..h] + ring[h..] == ring;
      if h == 0 {
        assert Arc(ring, h, i) + [ring[i]] == ring;
      } else {
        assert Arc(ring, h, i) + [ring[i]] == ring[h..] + ring[..h];
        RingSumsAppend(m, ring[h..], ring[..h]);
      }
    }
  }

  /** Free blocks do not overlap: the panic of km_stat cannot happen. */
  lemma NoOverlap(m: Memory, s: seq<Blk>, base: int, i: int)
    requires Tiled(s, base) && Sized(m, s) && 0 <= i < |FreeAddrs(s)|
    ensures var x, y := FreeAddrs(s)[i], FreeAddrs(s)[Succ(i, |FreeAddrs(s)|)];
            x in m && (y > x ==> x + m[x].size <= y)
  {
    var e := FreeIndex(s, i);
    var f := FreeIndex(s, Succ(i, |FreeAddrs(s)|));
    assert s[e] in s;
    TiledSorted(s, base);
    if e < f { ChainOrder(s, base, e, f); }
  }

  lemma CoreNotNull(s: seq<Blk>, base: int, c: Chunk)
    requires Tiled(s, base) && c in Cores(s)
    ensures c.addr != 0
  {
    var i := InCores(s, c);
    assert BlkOk(s[i], base);
  }

  lemma ListNotNull(m: Memory, s: seq<Blk>, base: int, head: int, cores: seq<Chunk>)
    requires Consistent(m, s, base, head, cores)
    ensures forall c :: c in cores ==> c.addr != 0
  {
    forall c | c in cores ensures c.addr != 0 {
      assert c in Cores(s);
      CoreNotNull(s, base, c);
    }
  }
}
