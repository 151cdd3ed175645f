/**
  The blocks of the allocator as a sequence in address order: how they tile the cores, and what
  freeing, splitting and adding a core do to that sequence. Addresses and sizes are in units of one
  block header.
  Source: liblinktool/klib/kalloc.c, lines 7-20 and 57-147.
 */
module KallocBlocks {

  /** A free or live block; its core occupies the units from `home`, the core header, up to `end`. */
  datatype Blk = Blk(addr: int, size: int, free: bool, home: int, end: int)

  datatype Chunk = Chunk(addr: int, size: int)

  /** The zero-sized block that is always in the loop, as if alone in a core of one unit. */
  function BaseBlk(base: int): Blk {
    Blk(base, 0, true, base - 1, base)
  }

  /** Neighbours in address order: in one core without a gap and not both free, or at the border of two cores. */
  ghost predicate Pair(a: Blk, b: Blk) {
    if a.home == b.home then
      a.end == b.end && a.addr + a.size == b.addr && !(a.free && b.free)
    else
      a.addr + a.size == a.end && a.end <= b.home && b.addr == b.home + 1
  }

  ghost predicate Link(s: seq<Blk>, i: int)
    requires 0 < i < |s|
  {
    Pair(s[i - 1], s[i])
  }

  ghost predicate Chain(s: seq<Blk>) {
    forall i :: 0 < i < |s| ==> Link(s, i)
  }

  ghost predicate Joint(a: seq<Blk>, b: seq<Blk>) {
    a == [] || b == [] || Pair(a[|a| - 1], b[0])
  }

  lemma ChainAppend(a: seq<Blk>, b: seq<Blk>)
    ensures Chain(a + b) <==> Chain(a) && Chain(b) && Joint(a, b)
  {
    var s := a + b;
    if Chain(s) {
      forall i | 0 < i < |a| ensures Link(a, i) { assert Link(s, i); }
      forall i | 0 < i < |b| ensures Link(b, i) { assert Link(s, |a| + i); }
      if a != [] && b != [] { assert Link(s, |a|); }
    }
    if Chain(a) && Chain(b) && Joint(a, b) {
      forall i | 0 < i < |s| ensures Link(s, i) {
        if i < |a| { assert Link(a, i); } else if i > |a| { assert Link(b, i - |a|); }
      }
    }
  }

  // ---------------------------------------------------------------- well-formed block sequences

  ghost predicate BlkOk(b: Blk, base: int) {
    1 <= b.home < b.addr && b.addr + b.size <= b.end && (0 < b.size || b == BaseBlk(base))
  }

  ghost predicate AllOk(s: seq<Blk>, base: int) {
    forall b :: b in s ==> BlkOk(b, base)
  }

  /** The blocks tile the cores: nothing overlaps, nothing is lost, no two free neighbours are left unmerged. */
  ghost predicate Tiled(s: seq<Blk>, base: int) {
    BaseBlk(base) in s && Chain(s) && AllOk(s, base) && Edges(s)
  }

  ghost predicate Edges(s: seq<Blk>) {
    s != [] && s[0].addr == s[0].home + 1 && s[|s| - 1].addr + s[|s| - 1].size == s[|s| - 1].end
  }

  /** What is earlier in the sequence lies below: whole blocks, and whole cores unless the core is the same. */
  lemma {:induction false} ChainOrder(s: seq<Blk>, base: int, i: int, j: int)
    requires Chain(s) && AllOk(s, base) && 0 <= i < j < |s|
    ensures s[i].addr < s[j].addr && s[i].addr + s[i].size <= s[j].addr
    ensures (s[i].home == s[j].home && s[i].end == s[j].end) || s[i].end <= s[j].home
    ensures s[i].home <= s[j].home && s[i].end <= s[j].end
    decreases j
  {
    assert Link(s, j) && BlkOk(s[i], base) && BlkOk(s[j - 1], base) && BlkOk(s[j], base);
    if i < j - 1 { ChainOrder(s, base, i, j - 1); }
  }

  // ---------------------------------------------------------------- freeing

  ghost predicate MeetsRight(p: Blk, r: seq<Blk>) {
    r != [] && r[0].free && r[0].home == p.home
  }

  ghost predicate MeetsLeft(l: seq<Blk>, p: Blk) {
    l != [] && l[|l| - 1].free && l[|l| - 1].home == p.home
  }

  /** The free neighbours of `p` in its core, none or one on each side, and the blocks beyond them. */
  ghost function NearLeft(l: seq<Blk>, p: Blk): seq<Blk> {
    if MeetsLeft(l, p) then [l[|l| - 1]] else []
  }

  ghost function FarLeft(l: seq<Blk>, p: Blk): seq<Blk> {
    if MeetsLeft(l, p) then l[..|l| - 1] else l
  }

  ghost function NearRight(p: Blk, r: seq<Blk>): seq<Blk> {
    if MeetsRight(p, r) then [r[0]] else []
  }

  ghost function FarRight(p: Blk, r: seq<Blk>): seq<Blk> {
    if MeetsRight(p, r) then r[1..] else r
  }

  /** The freed block `p` grown over a free block behind it, and the free block before it grown over that. */
  ghost function Widened(p: Blk, r: seq<Blk>): Blk {
    p.(free := true, size := if MeetsRight(p, r) then p.size + r[0].size else p.size)
  }

  ghost function Merged(l: seq<Blk>, p: Blk, r: seq<Blk>): Blk {
    var w := Widened(p, r);
    if MeetsLeft(l, p) then l[|l| - 1].(size := l[|l| - 1].size + w.size) else w
  }

  /** kfree: the block between `l` and `r` becomes free and is merged on both sides. */
  ghost function Freed(l: seq<Blk>, p: Blk, r: seq<Blk>): seq<Blk> {
    FarLeft(l, p) + [Merged(l, p, r)] + FarRight(p, r)
  }

  lemma NearAndFar(l: seq<Blk>, p: Blk, r: seq<Blk>)
    ensures l == FarLeft(l, p) + NearLeft(l, p) && r == NearRight(p, r) + FarRight(p, r)
    ensures l + [p] + r == FarLeft(l, p) + (NearLeft(l, p) + [p] + NearRight(p, r)) + FarRight(p, r)
  {
    assert l == FarLeft(l, p) + NearLeft(l, p);
    assert r == NearRight(p, r) + FarRight(p, r);
    Regroup(FarLeft(l, p), NearLeft(l, p), [p], NearRight(p, r), FarRight(p, r));
  }

  lemma Regroup(a: seq<Blk>, x: seq<Blk>, p: seq<Blk>, y: seq<Blk>, b: seq<Blk>)
    ensures (a + x) + p + (y + b) == a + (x + p + y) + b
  {
    assert (a + x) + p == a + (x + p);
    assert (a + (x + p)) + (y + b) == ((a + (x + p)) + y) + b;
    assert (a + (x + p)) + y == a + (x + p + y);
  }

  lemma ChainOne(p: Blk, r: seq<Blk>)
    ensures Chain([p] + r) <==> Chain(r) && Joint([p], r)
  {
    ChainAppend([p], r);
  }

  lemma ChainAround(l: seq<Blk>, p: Blk, r: seq<Blk>)
    ensures Chain(l + [p] + r) <==> Chain(l) && Chain(r) && Joint(l, [p]) && Joint([p], r)
  {
    assert l + [p] + r == l + ([p] + r);
    ChainAppend(l, [p] + r);
    ChainOne(p, r);
  }

  lemma WidenedChain(p: Blk, r: seq<Blk>)
    requires Chain([p] + r) && !p.free
    ensures Chain([Widened(p, r)] + FarRight(p, r))
  {
    ChainOne(p, r);
    if MeetsRight(p, r) {
      var r1 := r[1..];
      assert r == [r[0]] + r1;
      ChainOne(r[0], r1);
    }
    ChainOne(Widened(p, r), FarRight(p, r));
  }

  lemma FreedChain(l: seq<Blk>, p: Blk, r: seq<Blk>)
    requires Chain(l + [p] + r) && !p.free
    ensures Chain(Freed(l, p, r))
  {
    var w, r1 := Widened(p, r), FarRight(p, r);
    ChainAround(l, p, r);
    ChainOne(p, r);
    WidenedChain(p, r);
    ChainOne(w, r1);
    if MeetsLeft(l, p) {
      var l0, x := l[..|l| - 1], l[|l| - 1];
      assert l == l0 + [x];
      ChainAppend(l0, [x]);
      ChainAround(l0, Merged(l, p, r), r1);
    } else {
      ChainAround(l, w, r1);
    }
  }

  lemma AllOkAppend(a: seq<Blk>, b: seq<Blk>, base: int)
    ensures AllOk(a + b, base) <==> AllOk(a, base) && AllOk(b, base)
  {
    assert forall x :: x in a ==> x in a + b;
    assert forall x :: x in b ==> x in a + b;
  }

  // ---------------------------------------------------------------- sums over blocks

  /** The addresses of the free blocks, the loop in address order. */
  ghost function FreeAddrs(s: seq<Blk>): seq<int> {
    if s == [] then [] else (if s[0].free then [s[0].addr] else []) + FreeAddrs(s[1..])
  }

  /** The live blocks. */
  ghost function Lives(s: seq<Blk>): multiset<Chunk> {
    if s == [] then multiset{}
    else (if s[0].free then multiset{} else multiset{Chunk(s[0].addr, s[0].size)}) + Lives(s[1..])
  }

  ghost function FreeUnits(s: seq<Blk>): int {
    if s == [] then 0 else (if s[0].free then s[0].size else 0) + FreeUnits(s[1..])
  }

  ghost function LiveUnits(s: seq<Blk>): int {
    if s == [] then 0 else (if s[0].free then 0 else s[0].size) + LiveUnits(s[1..])
  }

  /** The cores, in address order, the base among them; a core is where its first block starts. */
  ghost function Cores(s: seq<Blk>): multiset<Chunk> {
    if s == [] then multiset{}
    else
      (if s[0].addr == s[0].home + 1 then multiset{Chunk(s[0].home, s[0].end - s[0].home)} else multiset{})
      + Cores(s[1..])
  }

  lemma {:induction false} FreeAddrsAppend(a: seq<Blk>, b: seq<Blk>)
    ensures FreeAddrs(a + b) == FreeAddrs(a) + FreeAddrs(b)
    decreases |a|
  {
    if a == [] {
      assert a + b == b;
    } else {
      assert (a + b)[0] == a[0] && (a + b)[1..] == a[1..] + b;
      FreeAddrsAppend(a[1..], b);
    }
  }

  lemma {:induction false} LivesAppend(a: seq<Blk>, b: seq<Blk>)
    ensures Lives(a + b) == Lives(a) + Lives(b)
    decreases |a|
  {
    if a == [] {
      assert a + b == b;
    } else {
      assert (a + b)[0] == a[0] && (a + b)[1..] == a[1..] + b;
      LivesAppend(a[1..], b);
    }
  }

  lemma {:induction false} UnitsAppend(a: seq<Blk>, b: seq<Blk>)
    ensures FreeUnits(a + b) == FreeUnits(a) + FreeUnits(b) && LiveUnits(a + b) == LiveUnits(a) + LiveUnits(b)
    decreases |a|
  {
    if a == [] {
      assert a + b == b;
    } else {
      assert (a + b)[0] == a[0] && (a + b)[1..] == a[1..] + b;
      UnitsAppend(a[1..], b);
    }
  }

  lemma {:induction false} CoresAppend(a: seq<Blk>, b: seq<Blk>)
    ensures Cores(a + b) == Cores(a) + Cores(b)
    decreases |a|
  {
    if a == [] {
      assert a + b == b;
    } else {
      assert (a + b)[0] == a[0] && (a + b)[1..] == a[1..] + b;
      CoresAppend(a[1..], b);
    }
  }

  lemma FreeAddrsOne(p: Blk)
    ensures FreeAddrs([p]) == if p.free then [p.addr] else []
  {
    assert [p][1..] == [];
  }

  lemma FreeAddrsThree(l: seq<Blk>, m: seq<Blk>, r: seq<Blk>)
    ensures FreeAddrs(l + m + r) == FreeAddrs(l) + FreeAddrs(m) + FreeAddrs(r)
  {
    FreeAddrsAppend(l, m);
    FreeAddrsAppend(l + m, r);
  }

  lemma LivesOne(p: Blk)
    ensures Lives([p]) == if p.free then multiset{} else multiset{Chunk(p.addr, p.size)}
  {
    assert [p][1..] == [];
  }

  lemma LivesThree(l: seq<Blk>, m: seq<Blk>, r: seq<Blk>)
    ensures Lives(l + m + r) == Lives(l) + Lives(m) + Lives(r)
  {
    LivesAppend(l, m);
    LivesAppend(l + m, r);
  }

  lemma CoresOne(p: Blk)
    ensures Cores([p]) == if p.addr == p.home + 1 then multiset{Chunk(p.home, p.end - p.home)} else multiset{}
  {
    assert [p][1..] == [];
  }

  lemma CoresThree(l: seq<Blk>, m: seq<Blk>, r: seq<Blk>)
    ensures Cores(l + m + r) == Cores(l) + Cores(m) + Cores(r)
  {
    CoresAppend(l, m);
    CoresAppend(l + m, r);
  }

  // ---------------------------------------------------------------- what freeing keeps

  /** The neighbours that merge and the freed block among them. */
  ghost predicate Group(x: seq<Blk>, p: Blk, y: seq<Blk>, base: int) {
    && |x| <= 1 && |y| <= 1 && !p.free && AllOk(x, base) && BlkOk(p, base) && AllOk(y, base)
    && (x != [] ==> x[0].free && x[0].home == p.home && x[0].end == p.end && x[0].addr + x[0].size == p.addr)
    && (y != [] ==> y[0].free && y[0].home == p.home && y[0].end == p.end && p.addr + p.size == y[0].addr)
  }

  lemma IsGroup(l: seq<Blk>, p: Blk, r: seq<Blk>, base: int)
    requires Chain(l + [p] + r) && AllOk(l + [p] + r, base) && !p.free
    ensures Group(NearLeft(l, p), p, NearRight(p, r), base)
    ensures AllOk(FarLeft(l, p), base) && AllOk(FarRight(p, r), base)
  {
    assert l + [p] + r == l + ([p] + r);
    AllOkAppend(l, [p] + r, base);
    AllOkAppend([p], r, base);
    ChainAppend(l, [p] + r);
    ChainOne(p, r);
  }

  lemma NearSums(x: seq<Blk>)
    requires |x| <= 1 && (x != [] ==> x[0].free)
    ensures Lives(x) == multiset{} && FreeAddrs(x) == if x == [] then [] else [x[0].addr]
    ensures x != [] && x[0].addr != x[0].home + 1 ==> Cores(x) == multiset{}
  {
    if x != [] {
      assert x == [x[0]];
      LivesOne(x[0]);
      FreeAddrsOne(x[0]);
      CoresOne(x[0]);
    }
  }

  lemma GroupLives(x: seq<Blk>, p: Blk, y: seq<Blk>, base: int)
    requires Group(x, p, y, base)
    ensures Lives(x + [p] + y) == multiset{Chunk(p.addr, p.size)}
  {
    NearSums(x);
    NearSums(y);
    LivesOne(p);
    LivesThree(x, [p], y);
  }

  /** Only the first block of a core counts as its start, before and after merging. */
  lemma GroupCores(x: seq<Blk>, p: Blk, y: seq<Blk>, base: int)
    requires Group(x, p, y, base)
    ensures Cores(x + [p] + y) == if x == [] then Cores([p]) else Cores(x)
  {
    CoresThree(x, [p], y);
    NearSums(y);
    if x == [] {
      assert Cores(x) == multiset{};
    } else {
      assert BlkOk(x[0], base);
      CoresOne(p);
      assert Cores([p]) == multiset{};
    }
  }

  lemma MergedBlk(l: seq<Blk>, p: Blk, r: seq<Blk>, base: int)
    requires Group(NearLeft(l, p), p, NearRight(p, r), base)
    ensures var x, y, w := NearLeft(l, p), NearRight(p, r), Merged(l, p, r);
            && w.free && w.home == p.home && w.end == p.end && BlkOk(w, base) && 0 < w.size
            && w.addr == (if x == [] then p.addr else x[0].addr)
            && w.addr + w.size == (if y == [] then p.addr + p.size else y[0].addr + y[0].size)
  {
    var x, y, w := NearLeft(l, p), NearRight(p, r), Merged(l, p, r);
    assert x != [] ==> BlkOk(x[0], base);
    assert y != [] ==> BlkOk(y[0], base);
  }

  lemma CoreOf(a: Blk, b: Blk)
    requires a.addr == b.addr && a.home == b.home && a.end == b.end
    ensures Cores([a]) == Cores([b])
  {
    CoresOne(a);
    CoresOne(b);
  }

  lemma MergedCores(l: seq<Blk>, p: Blk, r: seq<Blk>, base: int)
    requires Group(NearLeft(l, p), p, NearRight(p, r), base)
    ensures Cores(NearLeft(l, p) + [p] + NearRight(p, r)) == Cores([Merged(l, p, r)])
  {
    GroupCores(NearLeft(l, p), p, NearRight(p, r), base);
    if MeetsLeft(l, p) {
      CoreOf(Merged(l, p, r), l[|l| - 1]);
    } else {
      CoreOf(Merged(l, p, r), p);
    }
  }

  lemma FreedCores(l: seq<Blk>, p: Blk, r: seq<Blk>, base: int)
    requires Group(NearLeft(l, p), p, NearRight(p, r), base)
    ensures Cores(Freed(l, p, r)) == Cores(l + [p] + r)
  {
    NearAndFar(l, p, r);
    MergedCores(l, p, r, base);
    CoresThree(FarLeft(l, p), NearLeft(l, p) + [p] + NearRight(p, r), FarRight(p, r));
    CoresThree(FarLeft(l, p), [Merged(l, p, r)], FarRight(p, r));
  }

  lemma FreedLives(l: seq<Blk>, p: Blk, r: seq<Blk>, base: int)
    requires Group(NearLeft(l, p), p, NearRight(p, r), base)
    ensures Lives(Freed(l, p, r)) + multiset{Chunk(p.addr, p.size)} == Lives(l + [p] + r)
  {
    NearAndFar(l, p, r);
    MergedBlk(l, p, r, base);
    GroupLives(NearLeft(l, p), p, NearRight(p, r), base);
    LivesOne(Merged(l, p, r));
    LivesThree(FarLeft(l, p), NearLeft(l, p) + [p] + NearRight(p, r), FarRight(p, r));
    LivesThree(FarLeft(l, p), [Merged(l, p, r)], FarRight(p, r));
  }

  lemma FreedEdges(l: seq<Blk>, p: Blk, r: seq<Blk>, base: int)
    requires Group(NearLeft(l, p), p, NearRight(p, r), base) && Edges(l + [p] + r)
    ensures Edges(Freed(l, p, r))
  {
    NearAndFar(l, p, r);
    MergedBlk(l, p, r, base);
  }

  lemma BaseStays(l: seq<Blk>, p: Blk, r: seq<Blk>, base: int)
    requires Group(NearLeft(l, p), p, NearRight(p, r), base) && BaseBlk(base) in l + [p] + r
    ensures BaseBlk(base) in Freed(l, p, r)
  {
    var x, y := NearLeft(l, p), NearRight(p, r);
    NearAndFar(l, p, r);
    assert x != [] ==> BlkOk(x[0], base);
    assert y != [] ==> BlkOk(y[0], base);
  }

  /** Freeing keeps the tiling and the cores, and takes exactly one block from the live ones. */
  lemma FreedKeeps(l: seq<Blk>, p: Blk, r: seq<Blk>, base: int)
    requires Tiled(l + [p] + r, base) && !p.free
    ensures Tiled(Freed(l, p, r), base) && Cores(Freed(l, p, r)) == Cores(l + [p] + r)
    ensures Lives(Freed(l, p, r)) + multiset{Chunk(p.addr, p.size)} == Lives(l + [p] + r)
  {
    var w := Merged(l, p, r);
    IsGroup(l, p, r, base);
    FreedChain(l, p, r);
    MergedBlk(l, p, r, base);
    FreedCores(l, p, r, base);
    FreedLives(l, p, r, base);
    FreedEdges(l, p, r, base);
    BaseStays(l, p, r, base);
    AllOkAppend(FarLeft(l, p), [w], base);
    AllOkAppend(FarLeft(l, p) + [w], FarRight(p, r), base);
  }

  // ---------------------------------------------------------------- allocating

  /** kmalloc: a free block is taken whole, or its last `n` units are. */
  ghost function Cut(p: Blk, n: int): seq<Blk> {
    if p.size == n then [p.(free := false)]
    else [Stay(p, n), Tail(p, n)]
  }

  ghost function Stay(p: Blk, n: int): Blk {
    p.(size := p.size - n)
  }

  ghost function Tail(p: Blk, n: int): Blk {
    Blk(p.addr + p.size - n, n, false, p.home, p.end)
  }

  lemma CutTwo(p: Blk, n: int)
    requires p.size != n
    ensures Cut(p, n) == [Stay(p, n)] + [Tail(p, n)]
  {
  }

  lemma CutLives(p: Blk, n: int)
    requires p.free && 0 < n <= p.size
    ensures Lives(Cut(p, n)) == multiset{Chunk(p.addr + p.size - n, n)}
  {
    if p.size == n {
      LivesOne(p.(free := false));
    } else {
      CutTwo(p, n);
      LivesOne(Stay(p, n));
      LivesOne(Tail(p, n));
      LivesAppend([Stay(p, n)], [Tail(p, n)]);
    }
  }

  lemma CutCores(p: Blk, n: int)
    requires p.free && 0 < n <= p.size && p.home < p.addr
    ensures Cores(Cut(p, n)) == Cores([p])
  {
    if p.size == n {
      CoreOf(p.(free := false), p);
    } else {
      CutTwo(p, n);
      CoreOf(Stay(p, n), p);
      CoresOne(Tail(p, n));
      CoresAppend([Stay(p, n)], [Tail(p, n)]);
    }
  }

  lemma CutFree(p: Blk, n: int)
    requires p.free && 0 < n <= p.size
    ensures FreeAddrs(Cut(p, n)) == if p.size == n then [] else [p.addr]
  {
    if p.size == n {
      FreeAddrsOne(p.(free := false));
    } else {
      CutTwo(p, n);
      FreeAddrsOne(Stay(p, n));
      FreeAddrsOne(Tail(p, n));
      FreeAddrsAppend([Stay(p, n)], [Tail(p, n)]);
    }
  }

  lemma CutChain(l: seq<Blk>, p: Blk, n: int, r: seq<Blk>)
    requires Chain(l + [p] + r) && p.free && 0 < n <= p.size
    ensures Chain(l + Cut(p, n) + r)
  {
    ChainAppend(l, [p]);
    ChainAppend(l + [p], r);
    if p.size != n {
      assert Cut(p, n)[1..] == [Tail(p, n)];
    }
    ChainAppend(l, Cut(p, n));
    ChainAppend(l + Cut(p, n), r);
  }

  lemma CutTiled(l: seq<Blk>, p: Blk, n: int, r: seq<Blk>, base: int)
    requires Tiled(l + [p] + r, base) && p.free && 0 < n <= p.size
    ensures Tiled(l + Cut(p, n) + r, base) && BlkOk(p, base)
  {
    AllOkAppend(l, [p], base);
    AllOkAppend(l + [p], r, base);
    assert BlkOk(p, base) by { assert p in [p]; }
    CutChain(l, p, n, r);
    AllOkAppend(l, Cut(p, n), base);
    AllOkAppend(l + Cut(p, n), r, base);
  }

  /** Allocating keeps the tiling and the cores, and adds exactly one block of `n` units to the live ones. */
  lemma CutKeeps(l: seq<Blk>, p: Blk, n: int, r: seq<Blk>, base: int)
    requires Tiled(l + [p] + r, base) && p.free && 0 < n <= p.size
    ensures Tiled(l + Cut(p, n) + r, base) && Cores(l + Cut(p, n) + r) == Cores(l + [p] + r)
    ensures Lives(l + Cut(p, n) + r) == Lives(l + [p] + r) + multiset{Chunk(p.addr + p.size - n, n)}
  {
    CutTiled(l, p, n, r, base);
    CutLives(p, n);
    CutCores(p, n);
    LivesOne(p);
    LivesThree(l, [p], r);
    LivesThree(l, Cut(p, n), r);
    CoresThree(l, [p], r);
    CoresThree(l, Cut(p, n), r);
  }

  // ---------------------------------------------------------------- a new core

  /** The `n` units from `q` lie outside every core and do not start at the base. */
  ghost predicate Apart(s: seq<Blk>, q: int, n: int) {
    forall b :: b in s ==> b.addr != q && (b.end <= q || q + n <= b.home)
  }

  ghost function CoreBlk(q: int, n: int): Blk {
    Blk(q + 1, n - 1, false, q, q + n)
  }

  /** Where in the sequence a core at `q` belongs. */
  ghost function CoreAt(s: seq<Blk>, q: int): (i: int)
    ensures 0 <= i <= |s| && (forall j :: 0 <= j < i ==> s[j].end <= q) && (i < |s| ==> q < s[i].end)
  {
    if s == [] || q < s[0].end then 0 else 1 + CoreAt(s[1..], q)
  }

  /** The blocks below and above the place of a core at `q`. */
  lemma CoreSplit(s: seq<Blk>, q: int, n: int) returns (l: seq<Blk>, r: seq<Blk>)
    requires Apart(s, q, n)
    ensures s == l + r
    ensures (l != [] ==> l[|l| - 1].end <= q) && (r != [] ==> q + n <= r[0].home)
  {
    var i := CoreAt(s, q);
    l, r := s[..i], s[i..];
    assert i < |s| ==> s[i] in s;
  }

  lemma WithCoreChain(l: seq<Blk>, r: seq<Blk>, q: int, n: int, base: int)
    requires Chain(l + r) && Edges(l + r) && AllOk(l, base) && AllOk(r, base) && 2 <= n
    requires l != [] ==> l[|l| - 1].end <= q
    requires r != [] ==> q + n <= r[0].home
    ensures Chain(l + [CoreBlk(q, n)] + r) && Edges(l + [CoreBlk(q, n)] + r)
  {
    ChainAppend(l, r);
    if l != [] { assert BlkOk(l[|l| - 1], base); }
    if r != [] { assert BlkOk(r[0], base); }
    ChainAround(l, CoreBlk(q, n), r);
  }

  lemma WithCoreTiled(l: seq<Blk>, r: seq<Blk>, q: int, n: int, base: int)
    requires Tiled(l + r, base) && 1 <= q && 2 <= n
    requires l != [] ==> l[|l| - 1].end <= q
    requires r != [] ==> q + n <= r[0].home
    ensures Tiled(l + [CoreBlk(q, n)] + r, base)
  {
    AllOkAppend(l, r, base);
    WithCoreChain(l, r, q, n, base);
    AllOkAppend(l, [CoreBlk(q, n)], base);
    AllOkAppend(l + [CoreBlk(q, n)], r, base);
  }

  lemma WithCoreLives(l: seq<Blk>, r: seq<Blk>, p: Blk)
    requires !p.free
    ensures Lives(l + [p] + r) == Lives(l + r) + multiset{Chunk(p.addr, p.size)}
  {
    LivesOne(p);
    LivesThree(l, [p], r);
    LivesAppend(l, r);
  }

  lemma WithCoreCores(l: seq<Blk>, r: seq<Blk>, p: Blk)
    requires p.addr == p.home + 1
    ensures Cores(l + [p] + r) == Cores(l + r) + multiset{Chunk(p.home, p.end - p.home)}
  {
    CoresOne(p);
    CoresThree(l, [p], r);
    CoresAppend(l, r);
  }

  lemma WithCoreFree(l: seq<Blk>, r: seq<Blk>, p: Blk)
    requires !p.free
    ensures FreeAddrs(l + [p] + r) == FreeAddrs(l + r)
  {
    FreeAddrsOne(p);
    FreeAddrsThree(l, [p], r);
    FreeAddrsAppend(l, r);
  }

  // ---------------------------------------------------------------- what tiling says

  lemma {:induction false} InLives(s: seq<Blk>, c: Chunk) returns (i: int)
    requires c in Lives(s)
    ensures 0 <= i < |s| && !s[i].free && s[i].addr == c.addr && s[i].size == c.size
    decreases |s|
  {
    if !s[0].free && c == Chunk(s[0].addr, s[0].size) {
      i := 0;
    } else {
      i := InLives(s[1..], c);
      i := i + 1;
    }
  }

  /** No live block reaches into another block, free or live. */
  lemma LiveApart(s: seq<Blk>, base: int, i: int, j: int)
    requires Tiled(s, base) && 0 <= i < |s| && 0 <= j < |s| && i != j && !s[i].free
    ensures s[j].addr + s[j].size <= s[i].addr || s[i].addr + s[i].size <= s[j].addr
    ensures !(s[i].addr <= s[j].addr < s[i].addr + s[i].size)
  {
    assert BlkOk(s[i], base);
    if i < j { ChainOrder(s, base, i, j); } else { ChainOrder(s, base, j, i); }
  }

  // ---------------------------------------------------------------- order of addresses

  ghost predicate AddrSorted(s: seq<Blk>) {
    forall i, j :: 0 <= i < j < |s| ==> s[i].addr < s[j].addr
  }

  ghost predicate Increasing(a: seq<int>) {
    forall i, j :: 0 <= i < j < |a| ==> a[i] < a[j]
  }

  lemma TiledSorted(s: seq<Blk>, base: int)
    requires Tiled(s, base)
    ensures AddrSorted(s)
  {
    forall i, j | 0 <= i < j < |s| ensures s[i].addr < s[j].addr {
      ChainOrder(s, base, i, j);
    }
  }

  lemma {:induction false} FreeIndex(s: seq<Blk>, k: int) returns (i: int)
    requires 0 <= k < |FreeAddrs(s)|
    ensures 0 <= i < |s| && s[i].free && s[i].addr == FreeAddrs(s)[k]
    decreases |s|
  {
    if s[0].free && k == 0 {
      i := 0;
    } else {
      i := FreeIndex(s[1..], if s[0].free then k - 1 else k);
      i := i + 1;
    }
  }

  lemma {:induction false} InFree(s: seq<Blk>, i: int)
    requires 0 <= i < |s| && s[i].free
    ensures s[i].addr in FreeAddrs(s)
    decreases |s|
  {
    if i > 0 { InFree(s[1..], i - 1); }
  }

  lemma {:induction false} FreeSorted(s: seq<Blk>)
    requires AddrSorted(s)
    ensures Increasing(FreeAddrs(s))
    decreases |s|
  {
    if s != [] {
      FreeSorted(s[1..]);
      if s[0].free {
        var f := FreeAddrs(s[1..]);
        assert FreeAddrs(s) == [s[0].addr] + f;
        forall k | 0 <= k < |f| ensures s[0].addr < f[k] {
          var i := FreeIndex(s[1..], k);
        }
      }
    }
  }

  /** The free blocks below and above a live block. */
  lemma FreeAround(l: seq<Blk>, p: Blk, r: seq<Blk>)
    requires AddrSorted(l + [p] + r)
    ensures forall k :: 0 <= k < |FreeAddrs(l)| ==> FreeAddrs(l)[k] < p.addr
    ensures forall k :: 0 <= k < |FreeAddrs(r)| ==> p.addr < FreeAddrs(r)[k]
  {
    var s := l + [p] + r;
    assert s[|l|] == p;
    forall k | 0 <= k < |FreeAddrs(l)| ensures FreeAddrs(l)[k] < p.addr {
      var i := FreeIndex(l, k);
      assert s[i] == l[i];
    }
    forall k | 0 <= k < |FreeAddrs(r)| ensures p.addr < FreeAddrs(r)[k] {
      var i := FreeIndex(r, k);
      assert s[|l| + 1 + i] == r[i];
    }
  }

  // ---------------------------------------------------------------- conservation

  /** The cores in address order. */
  ghost function CoreSeq(s: seq<Blk>): seq<Chunk> {
    if s == [] then []
    else (if s[0].addr == s[0].home + 1 then [Chunk(s[0].home, s[0].end - s[0].home)] else []) + CoreSeq(s[1..])
  }

  ghost function SumSizes(c: seq<Chunk>): int {
    if c == [] then 0 else c[0].size + SumSizes(c[1..])
  }

  lemma {:induction false} CoresAreSeq(s: seq<Blk>)
    ensures Cores(s) == multiset(CoreSeq(s))
  {
    if s != [] {
      CoresAreSeq(s[1..]);
      var c := if s[0].addr == s[0].home + 1 then [Chunk(s[0].home, s[0].end - s[0].home)] else [];
      assert CoreSeq(s) == c + CoreSeq(s[1..]);
    }
  }

  lemma {:induction false} SumSizesAppend(a: seq<Chunk>, b: seq<Chunk>)
    ensures SumSizes(a + b) == SumSizes(a) + SumSizes(b)
    decreases |a|
  {
    if a == [] {
      assert a + b == b;
    } else {
      assert (a + b)[0] == a[0] && (a + b)[1..] == a[1..] + b;
      SumSizesAppend(a[1..], b);
    }
  }

  lemma {:induction false} TakeOut(b: seq<Chunk>, x: Chunk) returns (b': seq<Chunk>)
    requires x in b
    ensures multiset(b) == multiset(b') + multiset{x} && |b| == |b'| + 1 && SumSizes(b) == x.size + SumSizes(b')
    decreases |b|
  {
    assert b == [b[0]] + b[1..];
    if b[0] == x {
      b' := b[1..];
    } else {
      var r := TakeOut(b[1..], x);
      b' := [b[0]] + r;
      assert b'[1..] == r;
    }
  }

  lemma {:induction false} SumSizesPerm(a: seq<Chunk>, b: seq<Chunk>)
    requires multiset(a) == multiset(b)
    ensures SumSizes(a) == SumSizes(b) && |a| == |b|
    decreases |a|
  {
    if a == [] {
      assert |b| == |multiset(b)|;
    } else {
      assert a == [a[0]] + a[1..];
      assert a[0] in multiset(b);
      var b' := TakeOut(b, a[0]);
      assert multiset(a[1..]) == multiset(a) - multiset{a[0]};
      assert multiset(b') == multiset(b) - multiset{a[0]};
      SumSizesPerm(a[1..], b');
    }
  }

  /**
    From block `i` on: what the blocks and the later core headers take is what is left of the core of
    block `i` and the later cores.
   */
  lemma {:induction false} UnitsFrom(s: seq<Blk>, base: int, i: int)
    requires Tiled(s, base) && 0 <= i < |s|
    ensures var t := s[i..];
            s[i].end - s[i].addr + SumSizes(CoreSeq(t[1..])) == FreeUnits(t) + LiveUnits(t) + |CoreSeq(t[1..])|
    decreases |s| - i
  {
    var t := s[i..];
    if i + 1 < |s| {
      UnitsFrom(s, base, i + 1);
      assert Link(s, i + 1) && BlkOk(s[i], base) && BlkOk(s[i + 1], base);
      var t1 := t[1..];
      assert t1 == s[i + 1..];
      if s[i].home == s[i + 1].home {
        SameCore(s, base, i);
        assert CoreSeq(t1) == CoreSeq(t1[1..]);
      } else {
        var c := Chunk(t1[0].home, t1[0].end - t1[0].home);
        assert CoreSeq(t1) == [c] + CoreSeq(t1[1..]);
        assert CoreSeq(t1)[1..] == CoreSeq(t1[1..]);
      }
    } else {
      assert t[1..] == [];
    }
  }

  lemma SameCore(s: seq<Blk>, base: int, i: int)
    requires Tiled(s, base) && 0 <= i < |s| - 1 && s[i].home == s[i + 1].home
    ensures s[i + 1].addr != s[i + 1].home + 1
  {
    assert BlkOk(s[i], base);
    ChainOrder(s, base, i, i + 1);
  }

  /** Core headers, free units and live units make up the cores. */
  lemma Conservation(s: seq<Blk>, base: int, cores: seq<Chunk>)
    requires Tiled(s, base) && multiset(cores) + multiset{Chunk(base - 1, 1)} == Cores(s)
    ensures SumSizes(cores) == |cores| + FreeUnits(s) + LiveUnits(s)
  {
    UnitsFrom(s, base, 0);
    assert s[0..] == s;
    var c := Chunk(base - 1, 1);
    CoresAreSeq(s);
    assert multiset(cores + [c]) == multiset(cores) + multiset{c};
    SumSizesPerm(cores + [c], CoreSeq(s));
    SumSizesAppend(cores, [c]);
    assert [c][1..] == [];
  }

  ghost function CountFree(s: seq<Blk>): int {
    if s == [] then 0 else (if s[0].free && s[0].size != 0 then 1 else 0) + CountFree(s[1..])
  }

  /** With nothing live, every core is one free block. */
  lemma AllFree(s: seq<Blk>, base: int, i: int)
    requires Tiled(s, base) && Lives(s) == multiset{} && 0 <= i < |s|
    ensures s[i] == Blk(s[i].home + 1, s[i].end - s[i].home - 1, true, s[i].home, s[i].end)
  {
    forall j | 0 <= j < |s| ensures s[j].free {
      if !s[j].free { LiveIn(s, j); }
    }
    if i > 0 { assert Link(s, i); }
    if i + 1 < |s| { assert Link(s, i + 1); }
  }

  lemma {:induction false} LiveIn(s: seq<Blk>, i: int)
    requires 0 <= i < |s| && !s[i].free
    ensures Chunk(s[i].addr, s[i].size) in Lives(s)
    decreases |s|
  {
    if i > 0 { LiveIn(s[1..], i - 1); }
  }

  /** Then the free blocks with any units are as many as the cores without the base. */
  lemma {:induction false} CountWhole(s: seq<Blk>, base: int)
    requires AllOk(s, base) && AddrSorted(s)
    requires forall b :: b in s ==> b.free && b.addr == b.home + 1
    ensures CountFree(s) + (if BaseBlk(base) in s then 1 else 0) == |CoreSeq(s)|
    decreases |s|
  {
    if s != [] {
      assert forall b :: b in s[1..] ==> b in s;
      CountWhole(s[1..], base);
      assert BlkOk(s[0], base);
      OnlyOnce(s);
    }
  }

  lemma OnlyOnce(s: seq<Blk>)
    requires AddrSorted(s) && s != []
    ensures s[0] !in s[1..]
  {
    forall k | 0 <= k < |s| - 1 ensures s[1..][k] != s[0] {
      assert s[0].addr < s[k + 1].addr;
    }
  }

  lemma WholeCores(s: seq<Blk>, base: int, cores: seq<Chunk>)
    requires Tiled(s, base) && Lives(s) == multiset{} && multiset(cores) + multiset{Chunk(base - 1, 1)} == Cores(s)
    ensures CountFree(s) == |cores|
    ensures forall b :: b in s ==> b.free && b.addr == b.home + 1 && b.addr + b.size == b.end
  {
    forall b | b in s ensures b.free && b.addr == b.home + 1 && b.addr + b.size == b.end {
      var i :| 0 <= i < |s| && s[i] == b;
      AllFree(s, base, i);
    }
    TiledSorted(s, base);
    CountWhole(s, base);
    CoresAreSeq(s);
    assert |Cores(s)| == |cores| + 1 by { assert |multiset(cores)| == |cores|; }
  }
}
