/**
  Numbers of JSON text. The conversions of the C library, `strtod` and the two formats of `sprintf`,
  are not modelled but constants of which no more is known than their manual says; an integer stands
  for a double.
  Source: liblinktool/cJSON/cJSON.c, lines 301-375, 536-606 and 1334-1338.
 */
module CJsonNumber {
  import opened Wrappers

  /** A number, and how many characters it was read from. */
  datatype Taken = Taken(number: int, length: nat)

  /**
    `finite` is the test for NaN and infinities, `brief` and `long` are the formats `%1.15g` and `%1.17g`,
    `read` is strtod, and `near` is compare_double.
   */
  datatype Conversions = Conversions(finite: int -> bool, brief: int -> string, long: int -> string,
    read: string -> Option<Taken>, near: (int, int) -> bool)

  /** The size of the number buffer of parse_number, without its NUL. */
  const NUMBER_ROOM: nat := 63

  /** What parse_number copies. */
  predicate NumberChar(c: char) {
    '0' <= c <= '9' || c == '+' || c == '-' || c == 'e' || c == 'E' || c == '.'
  }

  /** What parse_value takes for the start of a number. */
  predicate NumberStart(c: char) {
    c == '-' || '0' <= c <= '9'
  }

  /** A text of that size made of those characters. */
  ghost predicate Numeral(s: string, room: nat) {
    0 < |s| <= room && NumberStart(s[0]) && forall i :: 0 <= i < |s| ==> NumberChar(s[i])
  }

  /**
    Both formats give numerals of at most 25 characters that are read as a whole, the long one as the same
    number; what is read is a number at the start, and it is read so on its own.
   */
  ghost predicate AsInC(c: Conversions) {
    && (forall n :: c.finite(n) ==> Numeral(c.brief(n), 25) && ReadWhole(c, c.brief(n)))
    && (forall n :: c.finite(n) ==> Numeral(c.long(n), 25) && c.read(c.long(n)) == Some(Taken(n, |c.long(n)|)))
    && (forall s :: c.read(s).Some? ==> ReadAlone(c, s, c.read(s).value))
  }

  ghost predicate ReadWhole(c: Conversions, s: string) {
    c.read(s).Some? && c.read(s).value.length == |s|
  }

  ghost predicate ReadAlone(c: Conversions, s: string, t: Taken) {
    0 < t.length <= |s| && c.read(s[..t.length]) == Some(t)
  }

  const ONLY_ZERO := Conversions(n => n == 0, n => "0", n => "0",
                                 s => if s != [] && s[0] == '0' then Some(Taken(0, 1)) else None, (a, b) => a == b)

  type CLibrary = c: Conversions | AsInC(c) witness ONLY_ZERO

  const C: CLibrary

  function Strtod(s: string): (r: Option<Taken>)
    ensures r.Some? ==> 0 < r.value.length <= |s|
    ensures r.Some? ==> C.read(s[..r.value.length]) == r
  {
    assert C.read(s).Some? ==> ReadAlone(C, s, C.read(s).value);
    C.read(s)
  }

  /** print_number: the short text if that is read as a number near enough, else the long one. */
  function NumberText(n: int): (r: string)
    ensures C.finite(n) ==> Numeral(r, 25) && Strtod(r).Some? && Strtod(r).value.length == |r|
  {
    if !C.finite(n) then "null"
    else
      var test := Strtod(C.brief(n));
      if test.Some? && C.near(test.value.number, n) then C.brief(n) else C.long(n)
  }

  /** The number that the text of a number is read as. */
  function Recovered(n: int): (m: int)
    requires C.finite(n)
    ensures m == n || C.near(m, n)
  {
    Strtod(NumberText(n)).value.number
  }

  // ---------------------------------------------------------------- the characters of a number

  /** Where the characters of a number end, or the room for them. */
  function RunEnd(s: string, o: nat, room: nat): (e: nat)
    requires o <= |s|
    ensures o <= e <= |s| && e - o <= room
    ensures forall i :: o <= i < e ==> NumberChar(s[i])
    decreases room
  {
    if room == 0 || o == |s| || !NumberChar(s[o]) then o else RunEnd(s, o + 1, room - 1)
  }

  lemma RunOn(s: string, o: nat, room: nat)
    requires o <= |s|
    ensures RunEnd(s, o, room) ==
              if 0 < room && o < |s| && NumberChar(s[o]) then RunEnd(s, o + 1, room - 1) else o
  {
  }

  /** What is handed to strtod. */
  function Run(s: string, o: nat): (r: string)
    requires o <= |s|
    ensures |r| <= NUMBER_ROOM && o + |r| <= |s|
    ensures forall i :: 0 <= i < |r| ==> NumberChar(r[i]) && r[i] == s[o + i]
  {
    s[o..RunEnd(s, o, NUMBER_ROOM)]
  }

  /** The run goes no further than the text that holds it, if no character of a number follows. */
  lemma {:induction false} RunLocal(s: string, o: nat, text: string, i: nat, room: nat)
    requires o + |text| <= |s| && s[o..o + |text|] == text && i <= |text|
    requires o + |text| < |s| ==> !NumberChar(s[o + |text|])
    ensures RunEnd(s, o + i, room) == o + RunEnd(text, i, room)
    decreases room
  {
    if room > 0 && i < |text| {
      assert s[o + i] == s[o..o + |text|][i];
      RunLocal(s, o, text, i + 1, room - 1);
    }
  }

  lemma RunInside(s: string, o: nat, text: string)
    requires o + |text| <= |s| && s[o..o + |text|] == text
    requires o + |text| < |s| ==> !NumberChar(s[o + |text|])
    ensures Run(s, o) == Run(text, 0)
  {
    RunLocal(s, o, text, 0, NUMBER_ROOM);
    var e := RunEnd(text, 0, NUMBER_ROOM);
    forall i | 0 <= i < e ensures s[o + i] == text[i] {
      assert s[o + i] == s[o..o + |text|][i];
    }
    assert s[o..o + e] == text[0..e];
  }

  lemma {:induction false} RunAll(text: string, i: nat, room: nat)
    requires i <= |text| <= i + room && forall k :: 0 <= k < |text| ==> NumberChar(text[k])
    ensures RunEnd(text, i, room) == |text|
    decreases room
  {
    if i < |text| { RunAll(text, i + 1, room - 1); }
  }

  lemma RunOfNumeral(text: string)
    requires Numeral(text, NUMBER_ROOM)
    ensures Run(text, 0) == text
  {
    RunAll(text, 0, NUMBER_ROOM);
  }
}
