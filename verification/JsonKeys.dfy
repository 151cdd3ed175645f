/**
  How keys are compared with and without regard to letter case, told by the two alphabets.
  Source: liblinktool/cJSON/cJSON.c, lines 134-155 and 1893-1923; liblinktool/cJSON/cJSON_Utils.c, lines 83-109.
 */
module JsonKeys {
  import opened JsonTree

  const CAPITALS := "ABCDEFGHIJKLMNOPQRSTUVWXYZ"
  const SMALLS := "abcdefghijklmnopqrstuvwxyz"

  /** The same character, or the same letter in the other case. */
  ghost predicate SameLetter(c: char, d: char) {
    c == d || exists k :: 0 <= k < 26 && Cases(k, c, d)
  }

  predicate Cases(k: int, c: char, d: char)
    requires 0 <= k < 26
  {
    (c == CAPITALS[k] && d == SMALLS[k]) || (c == SMALLS[k] && d == CAPITALS[k])
  }

  lemma Alphabets(k: int)
    requires 0 <= k < 26
    ensures CAPITALS[k] as int == 'A' as int + k && SMALLS[k] as int == 'a' as int + k
  {
    match k
    case 0 => case 1 => case 2 => case 3 => case 4 => case 5 => case 6 => case 7 => case 8 => case 9 => case 10 =>
    case 11 => case 12 => case 13 => case 14 => case 15 => case 16 => case 17 => case 18 => case 19 => case 20 =>
    case 21 => case 22 => case 23 => case 24 =>
    case _ =>
  }

  /** `d` is `c` with a capital letter made small. */
  ghost predicate Small(c: char, d: char) {
    if exists k :: 0 <= k < 26 && c == CAPITALS[k] then exists k :: 0 <= k < 26 && c == CAPITALS[k] && d == SMALLS[k]
    else d == c
  }

  lemma SmallIs(c: char)
    ensures Small(c, ToLower(c)) && forall d :: Small(c, d) ==> d == ToLower(c)
  {
    forall k | 0 <= k < 26 && c == CAPITALS[k] ensures ToLower(c) == SMALLS[k] { Alphabets(k); }
    if 'A' <= c <= 'Z' {
      var k := c as int - 'A' as int;
      Alphabets(k);
      assert c == CAPITALS[k];
    }
  }

  lemma SameLetterIs(c: char, d: char)
    ensures SameLetter(c, d) <==> ToLower(c) == ToLower(d)
  {
    if exists k :: 0 <= k < 26 && Cases(k, c, d) {
      var k :| 0 <= k < 26 && Cases(k, c, d);
      Alphabets(k);
    }
    if ToLower(c) == ToLower(d) && c != d {
      var k := if c < d then c as int - 'A' as int else d as int - 'A' as int;
      Alphabets(k);
      assert Cases(k, c, d);
    }
  }

  /** Where two keys first differ to the comparison: the length of the shorter one if one begins the other. */
  ghost predicate FirstDifference(a: string, b: string, cs: bool, n: nat) {
    && n <= |a| && n <= |b|
    && (forall i :: 0 <= i < n ==> if cs then a[i] == b[i] else SameLetter(a[i], b[i]))
    && (n < |a| && n < |b| ==> if cs then a[n] != b[n] else !SameLetter(a[n], b[n]))
  }

  lemma {:induction false} CompareAt(x: string, y: string, n: nat)
    requires n <= |x| && n <= |y| && x[..n] == y[..n] && (n < |x| && n < |y| ==> x[n] != y[n])
    ensures Compare(x, y) == if n < |x| && n < |y| then (if x[n] < y[n] then -1 else 1)
                             else if |x| < |y| then -1 else if |y| < |x| then 1 else 0
    decreases n
  {
    if n > 0 {
      assert x[0] == x[..n][0] == y[..n][0] == y[0];
      assert x[1..][..n - 1] == x[..n][1..] == y[..n][1..] == y[1..][..n - 1];
      CompareAt(x[1..], y[1..], n - 1);
    }
  }

  lemma Folded(a: string, b: string, cs: bool, n: nat)
    requires FirstDifference(a, b, cs, n)
    ensures var x, y := Fold(a, cs), Fold(b, cs);
            && |x| == |a| && |y| == |b| && x[..n] == y[..n]
            && (n < |a| && n < |b| ==> x[n] != y[n])
            && (!cs && n < |a| && n < |b| ==> Small(a[n], x[n]) && Small(b[n], y[n]))
  {
    if !cs {
      forall i | 0 <= i < n ensures Lower(a)[i] == Lower(b)[i] { SameLetterIs(a[i], b[i]); }
      if n < |a| && n < |b| {
        SameLetterIs(a[n], b[n]);
        SmallIs(a[n]);
        SmallIs(b[n]);
      }
    }
  }

  /**
    Keys are equal if they have the same characters, or without regard to case the same letters; otherwise
    the first difference decides, as it would between small letters, and the end of a key comes first.
   */
  lemma ComparedAtFirstDifference(a: string, b: string, cs: bool, n: nat)
    requires FirstDifference(a, b, cs, n)
    ensures CompareStrings(a, b, cs) == 0 <==> n == |a| == |b|
    ensures n == |a| < |b| ==> CompareStrings(a, b, cs) < 0
    ensures n == |b| < |a| ==> CompareStrings(a, b, cs) > 0
    ensures n < |a| && n < |b| && cs ==> (CompareStrings(a, b, cs) < 0 <==> a[n] < b[n])
    ensures n < |a| && n < |b| && !cs ==>
              forall c, d :: Small(a[n], c) && Small(b[n], d) ==> (CompareStrings(a, b, cs) < 0 <==> c < d)
  {
    Folded(a, b, cs, n);
    CompareAt(Fold(a, cs), Fold(b, cs), n);
    if n < |a| && n < |b| {
      SmallIs(a[n]);
      SmallIs(b[n]);
    }
  }

  /** There always is a first difference. */
  lemma {:induction false} DifferenceFound(a: string, b: string, cs: bool) returns (n: nat)
    ensures FirstDifference(a, b, cs, n)
  {
    hide SameLetter;
    n := 0;
    while n < |a| && n < |b| && if cs then a[n] == b[n] else SameLetter(a[n], b[n])
      invariant n <= |a| && n <= |b|
      invariant forall i :: 0 <= i < n ==> if cs then a[i] == b[i] else SameLetter(a[i], b[i])
    {
      n := n + 1;
    }
  }

  /** Without regard to case two keys are the same exactly if they agree letter by letter. */
  lemma SameKeys(a: string, b: string)
    ensures CompareStrings(a, b, false) == 0 <==> |a| == |b| && forall i :: 0 <= i < |a| ==> SameLetter(a[i], b[i])
    ensures Fold(a, false) == Fold(b, false) <==> CompareStrings(a, b, false) == 0
  {
    hide SameLetter;
    var n := DifferenceFound(a, b, false);
    ComparedAtFirstDifference(a, b, false, n);
    CompareZero(Fold(a, false), Fold(b, false));
  }
}
