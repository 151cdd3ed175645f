/**
  The allocator: freeing with merging on both sides, growing by cores, and next-fit allocation, over
  headers in memory.
  Source: liblinktool/klib/kalloc.c, lines 24-147 and 179-198.
 */
module Kalloc {
  import opened KallocBlocks
  import opened KallocRing
  import opened KallocState

  class KMem {
    const base: int
    var m: Memory
    var loopHead: int
    var coreHead: int
    ghost var blks: seq<Blk>
    ghost var cores: seq<Chunk>

    ghost predicate Valid()
      reads this
    {
      && Consistent(m, blks, base, coreHead, cores)
      && if loopHead == 0 then blks == [BaseBlk(base)] else Looped(m, blks, loopHead)
    }

    /** km_init, with the allocator's own record at `at`. */
    constructor (at: int)
      requires 2 <= at
      ensures Valid() && Lives(blks) == multiset{} && cores == [] && base == at
    {
      base := at;
      m := map[at := Header(0, 0)];
      loopHead, coreHead := 0, 0;
      blks, cores := [BaseBlk(at)], [];
      new;
      LivesOne(BaseBlk(at));
      CoresOne(BaseBlk(at));
    }

    /** kalloc.c:102-103 */
    method FindGap(p: int, ghost a: seq<int>, ghost b: seq<int>) returns (q: int)
      requires Linked(m, a + b) && Increasing(a + b) && loopHead in a + b
      requires forall k :: 0 <= k < |a| ==> a[k] < p
      requires forall k :: 0 <= k < |b| ==> p < b[k]
      ensures (a != [] || b != []) && q == Prev(a, b) && q in m && m[q].ptr == Next(a, b)
    {
      ghost var ring, n, k := a + b, |a + b|, PrevAt(a, b);
      ghost var i :| 0 <= i < n && ring[i] == loopHead;
      q := loopHead;
      assert PtrOk(m, ring, i);
      StopsAtGap(a, b, p, i);
      while !(p > q && p < m[q].ptr)
        invariant 0 <= i < n && ring[i] == q && PtrOk(m, ring, i)
        invariant i == k <==> (p > q && p < m[q].ptr) || (q >= m[q].ptr && (p > q || p < m[q].ptr))
        decreases Dist(i, k, n)
      {
        if q >= m[q].ptr && (p > q || p < m[q].ptr) { break; }
        q := m[q].ptr;
        i := Succ(i, n);
        assert PtrOk(m, ring, i);
        StopsAtGap(a, b, p, i);
      }
      assert ring[k] == Prev(a, b);
      PrevPointsToNext(m, a, b);
    }

    /** kalloc.c:104-117: merging on both sides; the panics are unreachable. */
    method WriteFree(p: int, q: int, ghost l: seq<Blk>, ghost b: Blk, ghost r: seq<Blk>)
      requires p == b.addr && !b.free && (FreeAddrs(l) != [] || FreeAddrs(r) != [])
      requires q == Prev(FreeAddrs(l), FreeAddrs(r)) && LeftTest(m, q, l, b) && Sized(m, l) && Sized(m, r)
      requires RightTest(Next(FreeAddrs(l), FreeAddrs(r)), b, r)
      requires p in m && m[p].size == b.size && m[q].ptr in m && m[q].ptr == Next(FreeAddrs(l), FreeAddrs(r))
      modifies `m, `loopHead
      ensures FreeWrites(old(m), m, l, b, r) && loopHead == Merged(l, b, r).addr
    {
      var nx := m[q].ptr;
      if p + m[p].size == nx {
        assert r[0] in r;
        m := m[p := Header(m[p].size + m[nx].size, m[nx].ptr)];
      } else if p + m[p].size > nx && nx >= p {
        assert false;
      } else {
        m := m[p := Header(m[p].size, nx)];
      }
      if q + m[q].size == p {
        assert l[|l| - 1] in l;
        m := m[q := Header(m[q].size + m[p].size, m[p].ptr)];
        loopHead := q;
      } else if q + m[q].size > p && p >= q {
        assert false;
      } else {
        loopHead := p;
        m := m[q := Header(m[q].size, p)];
      }
    }

    /** kfree, for a block the caller holds or a core just added. */
    method FreeBlock(p: int, ghost l: seq<Blk>, ghost b: Blk, ghost r: seq<Blk>)
      requires Consistent(m, blks, base, coreHead, cores) && Looped(m, blks, loopHead)
      requires blks == l + [b] + r && !b.free && p == b.addr
      modifies `m, `loopHead, `blks
      ensures Consistent(m, blks, base, coreHead, cores) && Looped(m, blks, loopHead)
      ensures blks == Freed(l, b, r) && loopHead == Merged(l, b, r).addr
      ensures loopHead in m && m[loopHead].size == Merged(l, b, r).size
      ensures Lives(blks) + multiset{Chunk(b.addr, b.size)} == old(Lives(blks))
      ensures Intact(old(m), m, Lives(blks))
    {
      hide Tiled, Chain, AllOk, Sized, Linked, CoreList, Intact, Lives, FreeAddrs, Cores, OnlyAt;
      RingAround(l, b, r, base);
      SizedParts(m, l, b, r);
      var q := FindGap(p, FreeAddrs(l), FreeAddrs(r));
      RightMeets(l, b, r, base);
      LeftMeets(m, l, b, r, base);
      NextInMemory(m, FreeAddrs(l), FreeAddrs(r));
      WriteFree(p, q, l, b, r);
      FreedOnlyAt(old(m), m, l, b, r);
      FreedConsistent(old(m), m, l, b, r, base, coreHead, cores);
      FreedLooped(old(m), m, l, b, r, base);
      FreedKeeps(l, b, r, base);
      IntactAfterFree(old(m), m, l, b, r, base);
      Cancel(Lives(Freed(l, b, r)), Lives(l + r), Chunk(b.addr, b.size));
      blks := Freed(l, b, r);
      assert blks[|FarLeft(l, b)|] in blks;
    }

    /** The live block at `p` of `size` units is freed; NULL is ignored. */
    method Free(p: int, ghost size: int)
      requires Valid() && (p == 0 || Chunk(p, size) in Lives(blks))
      modifies `m, `loopHead, `blks
      ensures Valid()
      ensures p != 0 ==> Lives(blks) + multiset{Chunk(p, size)} == old(Lives(blks))
      ensures p == 0 ==> blks == old(blks)
      ensures Intact(old(m), m, Lives(blks))
    {
      if p == 0 { return; }
      hide Tiled, Sized, Linked, CoreList, Intact, FreeAddrs, Cores, Freed;
      if loopHead == 0 { LivesOne(BaseBlk(base)); }
      ghost var l, b, r := LiveSplit(blks, Chunk(p, size));
      FreeBlock(p, l, b, r);
    }

    /** kalloc.c:65-67: the headers of a new core of `nu` units at `q`, filled by one block. */
    method AddCore(q: int, nu: int, ghost l: seq<Blk>, ghost r: seq<Blk>)
      requires Consistent(m, blks, base, coreHead, cores) && Looped(m, blks, loopHead)
      requires 2 <= nu && 1 <= q && Apart(blks, q, nu) && blks == l + r
      requires (l != [] ==> l[|l| - 1].end <= q) && (r != [] ==> q + nu <= r[0].home)
      modifies `m, `coreHead, `blks, `cores
      ensures Consistent(m, blks, base, coreHead, cores) && Looped(m, blks, loopHead)
      ensures blks == l + [CoreBlk(q, nu)] + r && cores == [Chunk(q, nu)] + old(cores)
      ensures Intact(old(m), m, old(Lives(blks)))
    {
      hide Tiled, Sized, Linked, CoreList, Intact;
      ghost var s := l + [CoreBlk(q, nu)] + r;
      ApartKeeps(m, blks, base, q, nu, coreHead);
      CoreAdded(m, l, r, base, coreHead, cores, q, nu);
      WithCoreFree(l, r, CoreBlk(q, nu));
      LoopKept(m, CoreHeaders(m, q, nu, coreHead), blks, s, loopHead);
      m := m[q := Header(nu, coreHead)];
      coreHead := q;
      m := m[q + 1 := Header(nu - 1, 0)];
      blks, cores := s, [Chunk(q, nu)] + cores;
    }

    /** morecore: a core of at least `n + 1` units, obtained at `q`, whose one block is then freed. */
    method MoreCore(n: int, q: int) returns (head: int)
      requires Consistent(m, blks, base, coreHead, cores) && Looped(m, blks, loopHead)
      requires 0 < n && 1 <= q && Apart(blks, q, CoreSize(n))
      modifies `m, `loopHead, `coreHead, `blks, `cores
      ensures Consistent(m, blks, base, coreHead, cores) && Looped(m, blks, loopHead)
      ensures cores == [Chunk(q, CoreSize(n))] + old(cores) && Lives(blks) == old(Lives(blks))
      ensures head == loopHead && head in m && m[head].size >= n
      ensures Intact(old(m), m, Lives(blks))
    {
      hide Tiled, Chain, AllOk, Sized, Linked, CoreList, Intact, Lives, FreeAddrs, Cores, OnlyAt;
      var nu := CoreSize(n);
      CoreIsEnough(n);
      ghost var l, r := CoreSplit(blks, q, nu);
      AddCore(q, nu, l, r);
      ghost var m1 := m;
      CoreAlone(l, r, q, nu, base);
      WithCoreLives(l, r, CoreBlk(q, nu));
      FreeBlock(q + 1, l, CoreBlk(q, nu), r);
      Cancel(Lives(blks), Lives(l + r), Chunk(q + 1, nu - 1));
      IntactTrans(old(m), m1, m, Lives(blks));
      head := loopHead;
    }

    /** kalloc.c:133-141: `n` units of the free block `p`, which `q` precedes in the list, become live. */
    method Take(q: int, p: int, n: int, ghost l: seq<Blk>, ghost b: Blk, ghost r: seq<Blk>) returns (at: int)
      requires Consistent(m, blks, base, coreHead, cores) && Looped(m, blks, loopHead)
      requires blks == l + [b] + r && b.free && p == b.addr && 0 < n <= b.size
      requires (FreeAddrs(l) != [] || FreeAddrs(r) != []) && q == Prev(FreeAddrs(l), FreeAddrs(r)) && q != 0
      modifies `m, `loopHead, `blks
      ensures Consistent(m, blks, base, coreHead, cores) && Looped(m, blks, loopHead)
      ensures blks == l + Cut(b, n) + r && at == b.addr + b.size - n && loopHead == q
      ensures Lives(blks) == old(Lives(blks)) + multiset{Chunk(at, n)}
      ensures Intact(old(m), m, old(Lives(blks)))
    {
      hide Consistent, Tiled, Linked, Intact, Lives, FreeAddrs;
      CutFacts(m, l, b, n, r, q, base, coreHead, cores);
      blks := l + Cut(b, n) + r;
      at := p;
      if m[p].size == n {
        m := m[q := m[q].(ptr := m[p].ptr)];
      } else {
        m := m[p := m[p].(size := m[p].size - n)];
        at := p + m[p].size;
        m := m[at := Header(n, if at in m then m[at].ptr else 0)];
      }
      loopHead := q;
    }

    /** kalloc.c:130-131: before the first allocation the list is the base alone. */
    method StartLoop()
      requires Valid() && loopHead == 0
      modifies `m, `loopHead
      ensures Consistent(m, blks, base, coreHead, cores) && Looped(m, blks, loopHead)
      ensures Intact(old(m), m, Lives(blks))
    {
      FreeAddrsOne(BaseBlk(base));
      LivesOne(BaseBlk(base));
      assert BaseBlk(base) in blks;
      StartCores(m, base, coreHead, cores);
      loopHead := base;
      m := m[base := m[base].(ptr := base)];
    }

    /**
      Allocates `bytes` bytes, next fit; 0 for 0 bytes. `room` is where the system would place a new
      core: one is added exactly when no free block fits.
     */
    method Malloc(bytes: int, room: int) returns (p: int)
      requires Valid() && 0 <= bytes
      requires 0 < bytes ==> 1 <= room && Apart(blks, room, CoreSize(Units(bytes)))
      modifies `m, `loopHead, `coreHead, `blks, `cores
      ensures Valid() && Intact(old(m), m, old(Lives(blks)))
      ensures bytes == 0 ==> p == 0 && blks == old(blks) && cores == old(cores)
      ensures 0 < bytes ==> Lives(blks) == old(Lives(blks)) + multiset{Chunk(p, Units(bytes))}
      ensures 0 < bytes && old(loopHead) != 0 && !NoFit(old(blks), Units(bytes)) ==>
                NextFit(old(m), old(blks), old(loopHead), Units(bytes), p, loopHead)
      ensures 0 < bytes ==>
                cores == (if NoFit(old(blks), Units(bytes)) then [Chunk(room, CoreSize(Units(bytes)))] else [])
                         + old(cores)
    {
      if bytes == 0 { return 0; }
      hide Consistent, Looped, Intact, Lives, NoFit, NextFit;
      ghost var m1 := m;
      UnitsAreEnough(bytes);
      if loopHead == 0 { StartLoop(); } else { IntactSelf(m, Lives(blks)); }
      ghost var m2 := m;
      p := Fit(Units(bytes), room);
      IntactTrans(m1, m2, m, old(Lives(blks)));
    }

    /** kalloc.c:132-146: goes round the list behind `loopHead`, and once more if a core had to be added. */
    method Fit(n: int, room: int) returns (p: int)
      requires Consistent(m, blks, base, coreHead, cores) && Looped(m, blks, loopHead)
      requires 0 < n && 1 <= room && Apart(blks, room, CoreSize(n))
      modifies `m, `loopHead, `coreHead, `blks, `cores
      ensures Consistent(m, blks, base, coreHead, cores) && Looped(m, blks, loopHead)
      ensures Intact(old(m), m, old(Lives(blks))) && Lives(blks) == old(Lives(blks)) + multiset{Chunk(p, n)}
      ensures cores == (if NoFit(old(blks), n) then [Chunk(room, CoreSize(n))] else []) + old(cores)
      ensures !NoFit(old(blks), n) ==> NextFit(old(m), old(blks), old(loopHead), n, p, loopHead)
    {
      hide Consistent, Linked, Intact, Lives, FreeAddrs, Apart, NoFit, Passed, Rem, NextFit, FitsAt;
      IntactSelf(m, Lives(blks));
      var q := loopHead;
      ghost var grown, ring, h := false, FreeAddrs(blks), IndexIn(FreeAddrs(blks), loopHead);
      ghost var i := h;
      NonePassed(m, ring, h, n);
      p := NextOf(q, ring, i);
      while true
        invariant Consistent(m, blks, base, coreHead, cores) && Looped(m, blks, loopHead)
        invariant ring == FreeAddrs(blks) && 0 <= h < |ring| && ring[h] == loopHead
        invariant 0 <= i < |ring| && ring[i] == q && p == ring[Succ(i, |ring|)] && p in m
        invariant Intact(old(m), m, Lives(blks)) && Lives(blks) == old(Lives(blks))
        invariant !grown ==> blks == old(blks) && cores == old(cores) && Passed(m, ring, h, i, n)
        invariant !grown ==> m == old(m) && loopHead == old(loopHead)
        invariant grown ==> cores == [Chunk(room, CoreSize(n))] + old(cores) && NoFit(old(blks), n)
        invariant grown ==> loopHead in m && m[loopHead].size >= n
        decreases if grown then 0 else 1, Rem(i, h, |ring|)
      {
        if m[p].size >= n {
          ghost var l, b, r := RingSplit(m, blks, base, coreHead, cores, i, n);
          ghost var m1 := m;
          if !grown { NextFitAt(m, blks, ring, h, i, loopHead, n, p + m[p].size - n, q); }
          p := Take(q, p, n, l, b, r);
          IntactTrans(old(m), m1, m, old(Lives(blks)));
          return;
        }
        if p == loopHead {
          NothingFits(m, blks, base, coreHead, cores, h, i, n);
          ghost var m1 := m;
          p := MoreCore(n, room);
          IntactTrans(old(m), m1, m, Lives(blks));
          grown, ring, h := true, FreeAddrs(blks), IndexIn(FreeAddrs(blks), loopHead);
          i := h;
        } else {
          RoundStep(i, h, |ring|);
          if !grown { PassedStep(m, ring, h, i, n); }
          i := Succ(i, |ring|);
        }
        q := p;
        p := NextOf(q, ring, i);
      }
    }

    method NextOf(q: int, ghost ring: seq<int>, ghost i: int) returns (p: int)
      requires Linked(m, ring) && 0 <= i < |ring| && ring[i] == q
      ensures p == ring[Succ(i, |ring|)] && p in m
    {
      assert PtrOk(m, ring, i) && PtrOk(m, ring, Succ(i, |ring|));
      p := m[q].ptr;
    }

    /** km_stat: bytes and blocks in the list, number of cores, their bytes, and the bytes of the largest one. */
    method Stat() returns (available: int, nBlocks: int, nCores: int, capacity: int, largest: int)
      requires Valid()
      ensures available == 16 * FreeUnits(blks) && nBlocks == CountFree(blks)
      ensures nCores == |cores| && capacity == 16 * SumSizes(cores)
      ensures capacity == 16 * nCores + available + 16 * LiveUnits(blks) && IsLargest(cores, largest)
      ensures Lives(blks) == multiset{} ==> nBlocks == nCores
    {
      hide Tiled, Sized, CoreList, Linked, FreeAddrs;
      Conservation(blks, base, cores);
      if Lives(blks) == multiset{} { WholeCores(blks, base, cores); }
      if loopHead == 0 {
        StartCores(m, base, coreHead, cores);
        return 0, 0, 0, 0, 0;
      }
      available, nBlocks := StatList();
      nCores, capacity, largest := StatCores();
    }

    method StatList() returns (available: int, nBlocks: int)
      requires Consistent(m, blks, base, coreHead, cores) && Looped(m, blks, loopHead)
      ensures available == 16 * FreeUnits(blks) && nBlocks == CountFree(blks)
    {
      hide Tiled, Sized, Linked, CoreList, FreeAddrs;
      ghost var ring, h := FreeAddrs(blks), IndexIn(FreeAddrs(blks), loopHead);
      ghost var i := h;
      RingSums(m, blks);
      RingIncreasing(blks, base);
      available, nBlocks := 0, 0;
      var p := loopHead;
      while true
        invariant 0 <= i < |ring| && p == ring[i]
        invariant available == 16 * SizeSum(m, Arc(ring, h, i)) && nBlocks == NonZero(m, Arc(ring, h, i))
        decreases Rem(i, h, |ring|)
      {
        NoOverlap(m, blks, base, i);
        ArcStep(m, ring, h, i);
        available := available + m[p].size * 16;
        if m[p].size != 0 { nBlocks := nBlocks + 1; }
        var nx := NextOf(p, ring, i);
        if nx > p && p + m[p].size > nx { assert false; }
        if nx == loopHead { break; }
        RoundStep(i, h, |ring|);
        i := Succ(i, |ring|);
        p := nx;
      }
    }

    method StatCores() returns (nCores: int, capacity: int, largest: int)
      requires Consistent(m, blks, base, coreHead, cores)
      ensures nCores == |cores| && capacity == 16 * SumSizes(cores) && IsLargest(cores, largest)
    {
      ListNotNull(m, blks, base, coreHead, cores);
      nCores, capacity, largest := 0, 0, 0;
      var p := coreHead;
      ghost var rest := cores;
      hide Consistent, SumSizes, CoreList;
      while p != 0
        invariant CoreList(m, p, rest) && (forall c :: c in rest ==> c.addr != 0 && c in cores)
        invariant nCores + |rest| == |cores| && capacity + 16 * SumSizes(rest) == 16 * SumSizes(cores)
        invariant forall c :: c in cores ==> 16 * c.size <= largest || c in rest
        invariant largest == 0 || exists c :: c in cores && largest == 16 * c.size
        decreases |rest|
      {
        CoreHere(m, p, rest);
        nCores := nCores + 1;
        var size := m[p].size * 16;
        capacity := capacity + size;
        assert size == 16 * rest[0].size;
        largest := if largest > size then largest else size;
        p := m[p].ptr;
        assert rest == [rest[0]] + rest[1..];
        rest := rest[1..];
      }
      CoreEnd(m, rest);
    }

    /** A caller writes two words inside a block it holds, anywhere but over the size word. */
    method Poke(a: int, h: Header, ghost c: Chunk)
      requires Valid() && c in Lives(blks) && c.addr <= a < c.addr + c.size
      requires a == c.addr ==> h.size == c.size
      modifies `m
      ensures Valid() && m == old(m)[a := h]
    {
      if loopHead == 0 { LivesOne(BaseBlk(base)); }
      PokeKeeps(m, blks, base, coreHead, cores, c, a, h);
      PokeLooped(m, blks, loopHead, a, h);
      m := m[a := h];
    }
  }

  /** The bytes of a core that is as large as any. */
  ghost predicate IsLargest(cores: seq<Chunk>, largest: int) {
    && (forall c :: c in cores ==> 16 * c.size <= largest)
    && (largest == 0 || exists c :: c in cores && largest == 16 * c.size)
  }

  lemma CoreHere(m: Memory, p: int, rest: seq<Chunk>)
    requires CoreList(m, p, rest) && p != 0
    ensures rest != [] && p in m && m[p].size == rest[0].size && CoreList(m, m[p].ptr, rest[1..])
    ensures SumSizes(rest) == rest[0].size + SumSizes(rest[1..])
  {
  }

  lemma CoreEnd(m: Memory, rest: seq<Chunk>)
    requires CoreList(m, 0, rest) && forall i :: 0 <= i < |rest| ==> rest[i].addr != 0
    ensures rest == [] && SumSizes(rest) == 0
  {
  }

  lemma NothingLive(m: Memory, s: seq<Blk>, base: int, head: int, cores: seq<Chunk>)
    requires Consistent(m, s, base, head, cores) && Lives(s) == multiset{}
    ensures CountFree(s) == |cores|
    ensures forall b :: b in s ==> b.free && b.addr == b.home + 1 && b.addr + b.size == b.end
  {
    hide Tiled, Sized, CoreList;
    WholeCores(s, base, cores);
  }

  /** Freeing every live block, in whatever order, leaves each core as one free block. */
  method FreeAll(km: KMem, ps: seq<int>, ghost held: seq<Chunk>)
    requires km.Valid() && multiset(held) == Lives(km.blks) && |ps| == |held|
    requires forall i :: 0 <= i < |ps| ==> ps[i] == held[i].addr && ps[i] != 0
    modifies km
    ensures km.Valid() && Lives(km.blks) == multiset{}
    ensures CountFree(km.blks) == |km.cores|
    ensures forall b :: b in km.blks ==> b.free && b.addr == b.home + 1 && b.addr + b.size == b.end
    decreases |ps|
  {
    hide Consistent, Looped, Intact, Lives, CountFree;
    if ps == [] {
      NothingLive(km.m, km.blks, km.base, km.coreHead, km.cores);
    } else {
      assert held == [held[0]] + held[1..];
      assert held[0] in multiset(held);
      km.Free(ps[0], held[0].size);
      assert multiset(held[1..]) == multiset(held) - multiset{held[0]};
      assert Lives(km.blks) == multiset(held) - multiset{held[0]};
      FreeAll(km, ps[1..], held[1..]);
    }
  }
}
