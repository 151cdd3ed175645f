/**
  Boyer-Moore search: the preprocessing of a pattern (suffix lengths, good-suffix
  shifts, bad-character shifts) and the search that skips by the larger shift.
  Source: liblinktool/klib/kstring.c, lines 136-207 and 240-248.
 */
module BoyerMoore {
  import opened Wrappers

  type byte = x: int | 0 <= x < 256

  const ALPHABET := 256

  // ---------------------------------------------------------------- reference definitions

  /** `pat` occurs in `str` at offset `j`. */
  ghost predicate OccursAt(pat: seq<byte>, str: seq<byte>, j: int) {
    0 <= j <= |str| - |pat| && forall q :: 0 <= q < |pat| ==> pat[q] == str[j + q]
  }

  /** The pattern agrees with itself at `t` and `d` positions later. */
  ghost predicate SameAt(pat: seq<byte>, t: int, d: int)
    requires 0 <= t && 0 <= d && t + d < |pat|
  {
    pat[t] == pat[t + d]
  }

  /** Every position in `(lo, hi]` agrees with the one `d` later. */
  ghost predicate Agree(pat: seq<byte>, lo: int, hi: int, d: int)
    requires -1 <= lo && 0 <= d && hi + d < |pat|
  {
    forall t :: lo < t <= hi ==> SameAt(pat, t, d)
  }

  /** `k` is the length of the longest common suffix of `pat[..i+1]` and `pat`. */
  ghost predicate IsSuffix(pat: seq<byte>, i: int, k: int)
    requires 0 <= i < |pat|
  {
    && 0 <= k <= i + 1
    && Agree(pat, i - k, i, |pat| - 1 - i)
    && (k <= i ==> !SameAt(pat, i - k, |pat| - 1 - i))
  }

  /** After `pat[i+1..]` matched and `pat[i]` did not, what was seen does not rule out a match `s` later. */
  ghost predicate Plausible(pat: seq<byte>, i: int, s: int)
    requires 0 <= i < |pat|
  {
    && 1 <= s
    && (forall t :: 0 <= t && i < t + s < |pat| ==> SameAt(pat, t, s))
    && (s <= i ==> !SameAt(pat, i - s, s))
  }

  /** `v` is the least shift that is plausible at `i`. */
  ghost predicate IsGoodSuffix(pat: seq<byte>, i: int, v: int)
    requires 0 <= i < |pat|
  {
    Plausible(pat, i, v) && forall s :: Plausible(pat, i, s) ==> v <= s
  }

  /** `v` is the distance from the end of the pattern to the last earlier `c`, or the length if there is none. */
  ghost predicate IsBadChar(pat: seq<byte>, c: int, v: int) {
    && 1 <= v <= |pat|
    && (v < |pat| ==> pat[|pat| - 1 - v] == c)
    && (forall p :: |pat| - 1 - v < p < |pat| - 1 ==> pat[p] != c)
  }

  /** `prep` holds the good-suffix table followed by the bad-character table. */
  ghost predicate ValidPrep(pat: seq<byte>, prep: seq<int>) {
    && |prep| == |pat| + ALPHABET
    && (forall i :: 0 <= i < |pat| ==> IsGoodSuffix(pat, i, prep[i]))
    && (forall x :: |pat| <= x < |prep| ==> IsBadChar(pat, x - |pat|, prep[x]))
  }

  // ---------------------------------------------------------------- preprocessing

  /** bad-character table, kstring.c:142-145. */
  method PreBmBc(pat: seq<byte>, prep: array<int>)
    requires 1 <= |pat| && prep.Length == |pat| + ALPHABET
    modifies prep
    ensures prep[..|pat|] == old(prep[..|pat|])
    ensures forall x :: |pat| <= x < prep.Length ==> IsBadChar(pat, x - |pat|, prep[x])
  {
    var m := |pat|;
    for i := 0 to ALPHABET
      invariant prep[..m] == old(prep[..m])
      invariant forall x :: m <= x < m + i ==> prep[x] == m
    {
      prep[m + i] := m;
    }
    for i := 0 to m - 1
      invariant prep[..m] == old(prep[..m])
      invariant forall x :: m <= x < prep.Length ==> m - i <= prep[x] <= m
      invariant forall x :: m <= x < prep.Length && prep[x] < m ==> pat[m - 1 - prep[x]] == x - m
      invariant forall x, p :: m <= x < prep.Length && m - 1 - prep[x] < p < i ==> pat[p] != x - m
    {
      prep[m + pat[i]] := m - i - 1;
    }
  }

  /** What is known between two computed suffixes: `(g, f]` re-occurs at the end, and `g` ends the run. */
  ghost predicate Window(pat: seq<byte>, f: int, g: int)
    requires 0 <= f < |pat| && -1 <= g <= f
  {
    && Agree(pat, g, f, |pat| - 1 - f)
    && (0 <= g ==> !SameAt(pat, g, |pat| - 1 - f))
  }

  /** Inside a window, agreement can be read off at the mirrored position. */
  lemma Mirror(pat: seq<byte>, f: int, g: int, i: int, t: int)
    requires 0 <= f < |pat| - 1 && -1 <= g <= f && Window(pat, f, g)
    requires g < t <= i < f
    ensures SameAt(pat, t, |pat| - 1 - i) <==> SameAt(pat, t + |pat| - 1 - f, f - i)
  {
    assert SameAt(pat, t, |pat| - 1 - f);
  }

  /** kstring.c:152-153: the suffix at the mirrored position is shorter than the window and is copied. */
  lemma CopiedSuffix(pat: seq<byte>, f: int, g: int, i: int, k: int)
    requires 0 <= f < |pat| - 1 && -1 <= g <= f && Window(pat, f, g)
    requires g < i < f
    requires IsSuffix(pat, i + |pat| - 1 - f, k) && k < i - g
    ensures IsSuffix(pat, i, k)
  {
    var d := |pat| - 1 - i;
    forall t | i - k < t <= i ensures SameAt(pat, t, d) {
      assert SameAt(pat, t + |pat| - 1 - f, f - i);
      Mirror(pat, f, g, i, t);
    }
    Mirror(pat, f, g, i, i - k);
  }

  /** kstring.c:154-156: otherwise the window known so far already matches from `i` down to `g`. */
  lemma ReusedSuffix(pat: seq<byte>, f: int, g: int, i: int, k: int)
    requires 0 <= f < |pat| - 1 && -1 <= g <= f && Window(pat, f, g)
    requires g < i < f
    requires IsSuffix(pat, i + |pat| - 1 - f, k) && k >= i - g
    ensures Agree(pat, g, i, |pat| - 1 - i)
  {
    var d := |pat| - 1 - i;
    forall q | g < q <= i ensures SameAt(pat, q, d) {
      assert SameAt(pat, q + |pat| - 1 - f, f - i);
      Mirror(pat, f, g, i, q);
    }
  }

  /** suffix lengths, kstring.c:146-160. */
  method Suffixes(pat: seq<byte>) returns (suff: array<int>)
    requires 1 <= |pat|
    ensures fresh(suff) && suff.Length == |pat|
    ensures forall i :: 0 <= i < |pat| ==> IsSuffix(pat, i, suff[i])
  {
    var m := |pat|;
    suff := new int[m](_ => 0);
    var f, g := 0, m - 1;
    suff[m - 1] := m;
    var i := m - 2;
    while i >= 0
      invariant -1 <= i <= m - 2
      invariant if i == m - 2 then g == m - 1 else i < f <= m - 2 && -1 <= g <= f && Window(pat, f, g)
      invariant forall k :: i < k < m ==> IsSuffix(pat, k, suff[k])
      decreases i
    {
      if i > g && suff[i + m - 1 - f] < i - g {
        CopiedSuffix(pat, f, g, i, suff[i + m - 1 - f]);
        suff[i] := suff[i + m - 1 - f];
      } else {
        if i > g { ReusedSuffix(pat, f, g, i, suff[i + m - 1 - f]); }
        if i < g { g := i; }
        f := i;
        while g >= 0 && pat[g] == pat[g + m - 1 - f]
          invariant -1 <= g <= f
          invariant Agree(pat, g, f, m - 1 - f)
        {
          assert SameAt(pat, g, m - 1 - f);
          g := g - 1;
        }
        suff[i] := f - g;
      }
      i := i - 1;
    }
  }

  /** A border of `pat` of length `i + 1` is a plausible shift for every position it clears. */
  lemma BorderIsPlausible(pat: seq<byte>, i: int, j: int)
    requires 0 <= i < |pat| - 1 && IsSuffix(pat, i, i + 1)
    requires 0 <= j < |pat| - 1 - i
    ensures Plausible(pat, j, |pat| - 1 - i)
  {
  }

  /** A suffix re-occurring at `i` is a plausible shift at the position before that suffix. */
  lemma SuffixIsPlausible(pat: seq<byte>, i: int, k: int)
    requires 0 <= i < |pat| - 1 && IsSuffix(pat, i, k)
    ensures Plausible(pat, |pat| - 1 - k, |pat| - 1 - i)
  {
  }

  /** A plausible shift smaller than the pattern is one of those two. */
  lemma PlausibleIsSuffix(pat: seq<byte>, j: int, s: int, k: int)
    requires 0 <= j < |pat| && Plausible(pat, j, s) && s < |pat|
    requires IsSuffix(pat, |pat| - 1 - s, k)
    ensures k == if s <= j then |pat| - 1 - j else |pat| - s
  {
    assert s <= j ==> !SameAt(pat, j - s, s);
    assert k <= |pat| - 1 - s ==> !SameAt(pat, |pat| - 1 - s - k, s);
  }

  /** The good-suffix table while borders are entered: positions below `j` and shifts below `lim` are settled. */
  ghost predicate Borders(pat: seq<byte>, gs: seq<int>, j: int, lim: int)
    requires |gs| == |pat| && 0 <= j
  {
    && (forall q :: j <= q < |pat| ==> gs[q] == |pat|)
    && (forall q :: 0 <= q < |pat| ==> Plausible(pat, q, gs[q]))
    && (forall q, s :: 0 <= q < |pat| && q < s && (q < j || s < lim) && Plausible(pat, q, s) ==> gs[q] <= s)
  }

  /** The same while suffixes are entered: shifts above `lim` are settled as well. */
  ghost predicate Suffices(pat: seq<byte>, gs: seq<int>, lim: int)
    requires |gs| == |pat|
  {
    && (forall q :: 0 <= q < |pat| ==> Plausible(pat, q, gs[q]))
    && (forall q, s :: 0 <= q < |pat| && (q < s || s > lim) && Plausible(pat, q, s) ==> gs[q] <= s)
  }

  /** One assignment of kstring.c:168. */
  lemma BorderStep(pat: seq<byte>, gs: seq<int>, j: int, i: int)
    requires |gs| == |pat| && 0 <= i < |pat| - 1 && 0 <= j < |pat| - 1 - i
    requires IsSuffix(pat, i, i + 1) && Borders(pat, gs, j, |pat| - 1 - i)
    ensures Borders(pat, gs[j := |pat| - 1 - i], j + 1, |pat| - 1 - i)
  {
    BorderIsPlausible(pat, i, j);
  }

  /** Decreasing `i` at kstring.c:164: the shift `|pat| - 1 - i` is settled everywhere. */
  lemma BordersDone(pat: seq<byte>, gs: seq<int>, j: int, i: int, k: int)
    requires |gs| == |pat| && 0 <= i < |pat| && 0 <= j <= |pat| - 1 - i
    requires IsSuffix(pat, i, k) && Borders(pat, gs, j, |pat| - 1 - i)
    requires k == i + 1 ==> j == |pat| - 1 - i
    ensures Borders(pat, gs, j, |pat| - i)
  {
    var s := |pat| - 1 - i;
    forall q | 0 <= q < |pat| && q < s && Plausible(pat, q, s) ensures gs[q] <= s {
      PlausibleIsSuffix(pat, q, s, k);
    }
  }

  /** One assignment of kstring.c:170. */
  lemma SuffixStep(pat: seq<byte>, gs: seq<int>, i: int, k: int)
    requires |gs| == |pat| && 0 <= i < |pat| - 1
    requires IsSuffix(pat, i, k) && Suffices(pat, gs, |pat| - 1 - i)
    ensures Suffices(pat, gs[|pat| - 1 - k := |pat| - 1 - i], |pat| - 2 - i)
  {
    var s := |pat| - 1 - i;
    SuffixIsPlausible(pat, i, k);
    forall q | 0 <= q < |pat| && Plausible(pat, q, s) && s <= q ensures q == |pat| - 1 - k {
      PlausibleIsSuffix(pat, q, s, k);
    }
  }

  /** kstring.c:163-168: shifts that move a border of the pattern under the matched suffix. */
  method EnterBorders(pat: seq<byte>, suff: array<int>, prep: array<int>)
    requires 1 <= |pat| && suff.Length == |pat| && prep.Length == |pat| + ALPHABET && suff != prep
    requires forall i :: 0 <= i < |pat| ==> IsSuffix(pat, i, suff[i])
    modifies prep
    ensures prep[|pat|..] == old(prep[|pat|..])
    ensures Suffices(pat, prep[..|pat|], |pat| - 1)
  {
    var m := |pat|;
    var j := 0;
    for i := 0 to m
      invariant prep[m..] == old(prep[m..])
      invariant forall k :: 0 <= k < i ==> prep[k] == m
    {
      prep[i] := m;
    }
    var i := m - 1;
    ghost var gs := prep[..m];
    while i >= 0
      invariant -1 <= i < m && 0 <= j <= m - 1 - i
      invariant prep[m..] == old(prep[m..])
      invariant gs == prep[..m] && Borders(pat, gs, j, m - 1 - i)
      decreases i
    {
      if suff[i] == i + 1 {
        while j < m - 1 - i
          invariant 0 <= j <= m - 1 - i
          invariant prep[m..] == old(prep[m..])
          invariant gs == prep[..m] && Borders(pat, gs, j, m - 1 - i)
        {
          assert gs[j] == m;
          if prep[j] == m {
            BorderStep(pat, gs, j, i);
            prep[j] := m - 1 - i;
            gs := gs[j := m - 1 - i];
          }
          j := j + 1;
        }
      }
      BordersDone(pat, gs, j, i, suff[i]);
      i := i - 1;
    }
  }

  /** kstring.c:169-170: shifts that move an earlier occurrence of the matched suffix under it. */
  method EnterSuffixes(pat: seq<byte>, suff: array<int>, prep: array<int>)
    requires 1 <= |pat| && suff.Length == |pat| && prep.Length == |pat| + ALPHABET && suff != prep
    requires forall i :: 0 <= i < |pat| ==> IsSuffix(pat, i, suff[i])
    requires Suffices(pat, prep[..|pat|], |pat| - 1)
    modifies prep
    ensures prep[|pat|..] == old(prep[|pat|..])
    ensures Suffices(pat, prep[..|pat|], 0)
  {
    var m := |pat|;
    var i := 0;
    ghost var gs := prep[..m];
    while i <= m - 2
      invariant 0 <= i <= m - 1
      invariant prep[m..] == old(prep[m..])
      invariant gs == prep[..m] && Suffices(pat, gs, m - 1 - i)
    {
      SuffixStep(pat, gs, i, suff[i]);
      gs := gs[m - 1 - suff[i] := m - 1 - i];
      prep[m - 1 - suff[i]] := m - 1 - i;
      i := i + 1;
    }
  }

  /** good-suffix table, kstring.c:161-171. */
  method PreBmGs(pat: seq<byte>, suff: array<int>, prep: array<int>)
    requires 1 <= |pat| && suff.Length == |pat| && prep.Length == |pat| + ALPHABET && suff != prep
    requires forall i :: 0 <= i < |pat| ==> IsSuffix(pat, i, suff[i])
    modifies prep
    ensures prep[|pat|..] == old(prep[|pat|..])
    ensures forall i :: 0 <= i < |pat| ==> IsGoodSuffix(pat, i, prep[i])
  {
    EnterBorders(pat, suff, prep);
    EnterSuffixes(pat, suff, prep);
    forall q | 0 <= q < |pat| ensures IsGoodSuffix(pat, q, prep[q]) {
      assert prep[..|pat|][q] == prep[q];
    }
  }

  /** kstring.c:137-174: both tables in one array, good-suffix shifts first. */
  method BMPrep(pat: seq<byte>) returns (prep: array<int>)
    requires 1 <= |pat|
    ensures fresh(prep) && ValidPrep(pat, prep[..])
  {
    prep := new int[|pat| + ALPHABET](_ => 0);
    PreBmBc(pat, prep);
    ghost var bc := prep[|pat|..];
    var suff := Suffixes(pat);
    PreBmGs(pat, suff, prep);
    assert forall x :: |pat| <= x < prep.Length ==> prep[x] == bc[x - |pat|];
  }

  // ---------------------------------------------------------------- search

  /** The shift taken at offset `j` when `pat[i]` is the first mismatch from the right. */
  function Shift(pat: seq<byte>, prep: seq<int>, i: int, c: byte): (s: int)
    requires |prep| == |pat| + ALPHABET && 0 <= i < |pat|
  {
    var bad := prep[|pat| + c] - |pat| + 1 + i;
    if bad < prep[i] then prep[i] else bad
  }

  /** A match `s` later would make `s` plausible for the good-suffix rule. */
  lemma MatchIsPlausible(pat: seq<byte>, str: seq<byte>, i: int, j: int, s: int)
    requires 0 <= i < |pat| && 0 <= j <= |str| - |pat| && 1 <= s
    requires pat[i] != str[j + i]
    requires forall q :: i < q < |pat| ==> pat[q] == str[j + q]
    requires OccursAt(pat, str, j + s)
    ensures Plausible(pat, i, s)
  {
    forall t | 0 <= t && i < t + s < |pat| ensures SameAt(pat, t, s) {
      assert pat[t] == str[j + s + t];
      assert pat[t + s] == str[j + (t + s)];
    }
    if s <= i {
      assert pat[i - s] == str[j + s + (i - s)];
    }
  }

  /** A match `s` later puts an equal byte, or nothing, at the mismatched byte. */
  lemma MatchClearsBadChar(pat: seq<byte>, str: seq<byte>, i: int, j: int, s: int, v: int)
    requires 0 <= i < |pat| && 0 <= j <= |str| - |pat| && 1 <= s
    requires IsBadChar(pat, str[j + i], v)
    requires OccursAt(pat, str, j + s)
    ensures v - |pat| + 1 + i <= s
  {
    if s <= i {
      assert pat[i - s] == str[j + s + (i - s)];
    }
  }

  /** The skip makes progress and never jumps over a match. */
  lemma ShiftIsSafe(pat: seq<byte>, prep: seq<int>, str: seq<byte>, i: int, j: int)
    requires ValidPrep(pat, prep)
    requires 0 <= i < |pat| && 0 <= j <= |str| - |pat|
    requires pat[i] != str[j + i]
    requires forall q :: i < q < |pat| ==> pat[q] == str[j + q]
    ensures Shift(pat, prep, i, str[j + i]) >= 1
    ensures forall k :: j <= k < j + Shift(pat, prep, i, str[j + i]) ==> !OccursAt(pat, str, k)
  {
    assert IsGoodSuffix(pat, i, prep[i]);
    forall k | j < k && OccursAt(pat, str, k) ensures k >= j + Shift(pat, prep, i, str[j + i]) {
      MatchIsPlausible(pat, str, i, j, k - j);
      MatchClearsBadChar(pat, str, i, j, k - j, prep[|pat| + str[j + i]]);
    }
  }

  /** `r` is the leftmost occurrence of `pat` in `str`, and there is none exactly when `r` is `None`. */
  ghost predicate IsLeftmost(pat: seq<byte>, str: seq<byte>, r: Option<nat>) {
    match r
    case None => forall k :: !OccursAt(pat, str, k)
    case Some(j) => OccursAt(pat, str, j) && forall k :: OccursAt(pat, str, k) ==> j <= k
  }

  /** kstring.c:184-192: the search loop. */
  method Search(str: seq<byte>, pat: seq<byte>, prep: array<int>) returns (r: Option<nat>)
    requires ValidPrep(pat, prep[..])
    ensures IsLeftmost(pat, str, r)
  {
    var n, m := |str|, |pat|;
    var j := 0;
    while j <= n - m
      invariant 0 <= j
      invariant forall k :: OccursAt(pat, str, k) ==> j <= k
      decreases n - j
    {
      var i := m - 1;
      while i >= 0 && pat[i] == str[i + j]
        invariant -1 <= i < m
        invariant forall q :: i < q < m ==> pat[q] == str[j + q]
      {
        i := i - 1;
      }
      if i >= 0 {
        ShiftIsSafe(pat, prep[..], str, i, j);
        var max := prep[m + str[i + j]] - m + 1 + i;
        if max < prep[i] { max := prep[i]; }
        j := j + max;
      } else {
        return Some(j);
      }
    }
    return None;
  }

  /** The caller's `int *` that keeps the tables between calls (`_prep` points to it). */
  class PrepSlot {
    var prep: array?<int>

    constructor ()
      ensures prep == null
    {
      prep := null;
    }
  }

  /** kstring.c:176-195: tables are computed when the caller has none, and kept when the caller has a slot. */
  method KMemMem(str: seq<byte>, pat: seq<byte>, slot: PrepSlot?) returns (r: Option<nat>)
    requires 1 <= |pat|
    requires slot != null && slot.prep != null ==> ValidPrep(pat, slot.prep[..])
    modifies slot
    ensures IsLeftmost(pat, str, r)
    ensures slot != null ==> slot.prep != null && ValidPrep(pat, slot.prep[..])
    ensures slot != null && old(slot.prep) != null ==> slot.prep == old(slot.prep)
    ensures slot != null && old(slot.prep) == null ==> fresh(slot.prep)
  {
    var prep: array<int>;
    if slot == null || slot.prep == null {
      prep := BMPrep(pat);
    } else {
      prep := slot.prep;
    }
    if slot != null && slot.prep == null { slot.prep := prep; }
    r := Search(str, pat, prep);
  }

  // ---------------------------------------------------------------- all occurrences

  /** `prep[0]` is the period of the pattern: after a match, no occurrence starts closer than that. */
  lemma PeriodIsSafe(pat: seq<byte>, prep: seq<int>, str: seq<byte>, j: int, k: int)
    requires 1 <= |pat| && ValidPrep(pat, prep)
    requires OccursAt(pat, str, j) && OccursAt(pat, str, k) && j < k
    ensures j + prep[0] <= k
  {
    var s := k - j;
    forall t | 0 <= t && 0 < t + s < |pat| ensures SameAt(pat, t, s) {
      assert pat[t] == str[k + t];
      assert pat[t + s] == str[j + (t + s)];
    }
    assert Plausible(pat, 0, s);
    assert IsGoodSuffix(pat, 0, prep[0]);
  }

  /** An occurrence in the tail of the text is an occurrence in the text. */
  lemma OccursInTail(pat: seq<byte>, text: seq<byte>, from: nat, j: int)
    requires from <= |text| && 0 <= j
    ensures OccursAt(pat, text[from..], j) <==> OccursAt(pat, text, from + j)
  {
    if OccursAt(pat, text, from + j) {
      forall q | 0 <= q < |pat| ensures pat[q] == text[from..][j + q] {
        assert pat[q] == text[from + j + q];
      }
    }
    if OccursAt(pat, text[from..], j) {
      forall q | 0 <= q < |pat| ensures pat[q] == text[from + j + q] {
        assert pat[q] == text[from..][j + q];
      }
    }
  }

  /** kstring.c:240-248: restarting `prep[0]` past each match lists every occurrence, overlapping ones too. */
  method FindAll(text: seq<byte>, pat: seq<byte>) returns (found: seq<nat>)
    requires 1 <= |pat|
    ensures forall a, b :: 0 <= a < b < |found| ==> found[a] < found[b]
    ensures forall k: nat :: k in found <==> OccursAt(pat, text, k)
  {
    var slot := new PrepSlot();
    var s := 0;
    found := [];
    var r := KMemMem(text, pat, slot);
    assert text[0..] == text;
    while r.Some?
      invariant 0 <= s <= |text|
      invariant slot.prep != null && fresh(slot) && fresh(slot.prep) && ValidPrep(pat, slot.prep[..])
      invariant IsLeftmost(pat, text[s..], r)
      invariant forall a, b :: 0 <= a < b < |found| ==> found[a] < found[b]
      invariant forall k: nat :: k in found <==> k < s && OccursAt(pat, text, k)
      decreases |text| - s
    {
      var j := s + r.value;
      OccursInTail(pat, text, s, r.value);
      assert IsGoodSuffix(pat, 0, slot.prep[0]);
      assert slot.prep[0] <= |pat| by { assert Plausible(pat, 0, |pat|); }
      ghost var next := j + slot.prep[0];
      forall k: nat | k < next && OccursAt(pat, text, k) ensures k < s || k == j {
        if s <= k { OccursInTail(pat, text, s, k - s); }
        if j < k { PeriodIsSafe(pat, slot.prep[..], text, j, k); }
      }
      assert forall a :: 0 <= a < |found| ==> found[a] in found;
      found := found + [j];
      s := j + slot.prep[0];
      r := KMemMem(text[s..], pat, slot);
    }
    forall k: nat | OccursAt(pat, text, k) ensures k < s {
      if s <= k { OccursInTail(pat, text, s, k - s); }
    }
  }
}
