/**
  JSON text: how trees are written, formatted or not, how strings are escaped, and what reading a
  string literal gives.
  Source: liblinktool/cJSON/cJSON.c, lines 609-1015 and 1533-1819.
 */
module CJsonText {
  import opened CJsonNumber
  import opened JsonTree
  import opened Wrappers

  // ---------------------------------------------------------------- strings as text

  const HEX := "0123456789abcdef"

  /** print_string_ptr: one character of a string. */
  function Escape(c: char): (r: string)
    ensures r != []
  {
    if c == '\"' then "\\\""
    else if c == '\\' then "\\\\"
    else if c as int == 8 then "\\b"
    else if c as int == 12 then "\\f"
    else if c == '\n' then "\\n"
    else if c == '\r' then "\\r"
    else if c == '\t' then "\\t"
    else if c as int < 32 then ['\\', 'u', '0', '0', HEX[c as int / 16], HEX[c as int % 16]]
    else [c]
  }

  function EscapeAll(s: string): string {
    if s == [] then [] else Escape(s[0]) + EscapeAll(s[1..])
  }

  function Quoted(s: string): string {
    "\"" + (EscapeAll(s) + "\"")
  }

  // ---------------------------------------------------------------- trees as text

  function Tabs(n: nat): string {
    if n == 0 then [] else ['\t'] + Tabs(n - 1)
  }

  /** print_value at nesting depth `d`. */
  function Text(t: Json, fmt: bool, d: nat): string
    decreases t, 1
  {
    match t
    case Null => "null"
    case Bool(b) => if b then "true" else "false"
    case Num(n) => NumberText(n)
    case Str(s) => Quoted(s)
    case Arr(items) => "[" + (ItemsText(items, fmt, d + 1) + "]")
    case Obj(ms) => "{" + (NewLine(fmt) + (MembersText(ms, fmt, d + 1) + (Indent(fmt, d) + "}")))
  }

  function ItemsText(items: seq<Json>, fmt: bool, d: nat): string
    decreases items, 0
  {
    if items == [] then [] else Text(items[0], fmt, d) + MoreItems(items[1..], fmt, d)
  }

  /** The items after the first one, each behind its comma. */
  function MoreItems(items: seq<Json>, fmt: bool, d: nat): string
    decreases items, 0
  {
    if items == [] then [] else "," + (Gap(fmt) + (Text(items[0], fmt, d) + MoreItems(items[1..], fmt, d)))
  }

  function MembersText(ms: seq<Member>, fmt: bool, d: nat): string
    decreases ms, 0
  {
    if ms == [] then []
    else
      Indent(fmt, d) + (Quoted(ms[0].key) + (":" + (KeyGap(fmt) + (Text(ms[0].value, fmt, d)
      + (Comma(|ms| > 1) + (NewLine(fmt) + MembersText(ms[1..], fmt, d)))))))
  }

  lemma NoMembers(fmt: bool, d: nat)
    ensures MembersText([], fmt, d) == []
  {
  }

  function Gap(fmt: bool): string {
    if fmt then " " else []
  }

  function KeyGap(fmt: bool): string {
    if fmt then "\t" else []
  }

  function NewLine(fmt: bool): string {
    if fmt then "\n" else []
  }

  function Indent(fmt: bool, d: nat): string {
    if fmt then Tabs(d) else []
  }

  function Comma(more: bool): string {
    if more then "," else []
  }

  /** What the printer and the parser deal with: no NUL inside strings. */
  ghost predicate Printable(t: Json)
    decreases t
  {
    match t
    case Str(s) => NulFree(s)
    case Arr(items) => forall i :: 0 <= i < |items| ==> Printable(items[i])
    case Obj(ms) => forall i :: 0 <= i < |ms| ==> NulFree(ms[i].key) && Printable(ms[i].value)
    case _ => true
  }

  ghost predicate NulFree(s: string) {
    forall i :: 0 <= i < |s| ==> s[i] as int != 0
  }

  /** How deeply arrays and objects are nested. */
  ghost function Nest(t: Json): nat
    decreases t, 1
  {
    match t
    case Arr(items) => 1 + NestItems(items)
    case Obj(ms) => 1 + NestMembers(ms)
    case _ => 0
  }

  ghost function Max(a: nat, b: nat): nat {
    if a < b then b else a
  }

  ghost function NestItems(items: seq<Json>): nat
    decreases items, 0
  {
    if items == [] then 0 else Max(Nest(items[0]), NestItems(items[1..]))
  }

  ghost function NestMembers(ms: seq<Member>): nat
    decreases ms, 0
  {
    if ms == [] then 0 else Max(Nest(ms[0].value), NestMembers(ms[1..]))
  }

  // ---------------------------------------------------------------- text at a position

  ghost predicate At(content: string, o: int, text: string) {
    0 <= o && o + |text| <= |content| && content[o..o + |text|] == text
  }

  lemma AtSplit(content: string, o: int, a: string, b: string)
    ensures At(content, o, a + b) <==> At(content, o, a) && At(content, o + |a|, b)
  {
    var m, n := o + |a|, o + |a| + |b|;
    if 0 <= o && n <= |content| {
      var x, y := content[o..m], content[m..n];
      assert content[o..n] == x + y;
      if content[o..n] == a + b {
        assert x == (x + y)[..|a|] && y == (x + y)[|a|..];
        assert a == (a + b)[..|a|] && b == (a + b)[|a|..];
      }
    }
  }

  lemma AtMeans(content: string, o: int, text: string)
    requires At(content, o, text)
    ensures 0 <= o && o + |text| <= |content| && content[o..o + |text|] == text
  {
  }

  lemma AtFirst(content: string, o: int, text: string)
    requires At(content, o, text) && text != []
    ensures 0 <= o < |content| && content[o] == text[0]
  {
  }

  lemma AtChar(content: string, o: int, text: string, i: int)
    requires At(content, o, text) && 0 <= i < |text|
    ensures content[o + i] == text[i]
  {
    assert content[o..o + |text|][i] == content[o + i];
  }

  // ---------------------------------------------------------------- reading string literals

  /** The first loop of parse_string: the position of the closing quote, or the length. */
  function Scan(content: string, p: nat): (r: nat)
    requires p <= |content|
    ensures p <= r <= |content| && (r < |content| ==> content[r] == '\"')
    decreases |content| - p
  {
    if p == |content| || content[p] == '\"' then p
    else if content[p] == '\\' then (if p + 1 < |content| then Scan(content, p + 2) else |content|)
    else Scan(content, p + 1)
  }

  /** parse_hex4 */
  function HexDigit(c: char): Option<nat> {
    if '0' <= c <= '9' then Some(c as int - '0' as int)
    else if 'A' <= c <= 'F' then Some(10 + (c as int - 'A' as int))
    else if 'a' <= c <= 'f' then Some(10 + (c as int - 'a' as int))
    else None
  }

  /** An invalid digit makes the whole number 0. */
  function Hex4(s: string): (h: nat)
    requires |s| == 4
    ensures h < 0x10000
  {
    var a, b, c, d := HexDigit(s[0]), HexDigit(s[1]), HexDigit(s[2]), HexDigit(s[3]);
    if a.Some? && b.Some? && c.Some? && d.Some? then
      DigitBound(s[0]); DigitBound(s[1]); DigitBound(s[2]); DigitBound(s[3]);
      ((a.value * 16 + b.value) * 16 + c.value) * 16 + d.value
    else 0
  }

  lemma DigitBound(c: char)
    ensures HexDigit(c).Some? ==> HexDigit(c).value < 16
  {
  }

  /** A continuation byte. */
  function Tail(n: nat): (c: char)
    ensures c as int == 0x80 + n % 64 && 0x80 <= c as int < 0xC0
  {
    (0x80 + n % 64) as char
  }

  /** The UTF-8 form of a code point. */
  function Utf8(cp: nat): string
    requires cp <= 0x10FFFF
  {
    var a := cp / 64;
    var b := a / 64;
    var c := b / 64;
    if cp < 0x80 then [cp as char]
    else if cp < 0x800 then [(0xC0 + a) as char, Tail(cp)]
    else if cp < 0x10000 then [(0xE0 + b) as char, Tail(a), Tail(cp)]
    else [(0xF0 + c) as char, Tail(b), Tail(a), Tail(cp)]
  }

  datatype Literal = Literal(length: nat, bytes: string)

  /** utf16_literal_to_utf8 at `p`; `end` is the position of the closing quote. */
  function ReadUtf16(content: string, p: nat, end: nat): (r: Option<Literal>)
    requires p < end <= |content|
    ensures r.Some? ==> 0 < r.value.length <= end - p
  {
    if end - p < 6 then None
    else
      var first := Hex4(content[p + 2..p + 6]);
      if 0xDC00 <= first <= 0xDFFF then None
      else if 0xD800 <= first <= 0xDBFF then
        if end - (p + 6) < 6 || content[p + 6] != '\\' || content[p + 7] != 'u' then None
        else
          var second := Hex4(content[p + 8..p + 12]);
          if second < 0xDC00 || second > 0xDFFF then None
          else Some(Literal(12, Utf8(0x10000 + (first - 0xD800) * 1024 + (second - 0xDC00))))
      else Some(Literal(6, Utf8(first)))
  }

  /** One character or escape sequence of a literal: how long it is and what it stands for. */
  function ReadOne(content: string, p: nat, end: nat): (r: Option<Literal>)
    requires p < end < |content|
    ensures r.Some? ==> 0 < r.value.length
  {
    if content[p] != '\\' then Some(Literal(1, [content[p]]))
    else
      var c := content[p + 1];
      if c == 'b' then Some(Literal(2, [8 as char]))
      else if c == 'f' then Some(Literal(2, [12 as char]))
      else if c == 'n' then Some(Literal(2, "\n"))
      else if c == 'r' then Some(Literal(2, "\r"))
      else if c == 't' then Some(Literal(2, "\t"))
      else if c == '\"' || c == '\\' || c == '/' then Some(Literal(2, [c]))
      else if c == 'u' then ReadUtf16(content, p, end)
      else None
  }

  /** The second loop of parse_string. */
  function Unescape(content: string, p: nat, end: nat): Option<string>
    requires end < |content|
    decreases |content| - p
  {
    if p >= end then Some([])
    else
      match ReadOne(content, p, end)
      case None => None
      case Some(one) =>
        match Unescape(content, p + one.length, end)
        case None => None
        case Some(rest) => Some(one.bytes + rest)
  }

  // ---------------------------------------------------------------- room for what a literal stands for

  /** The backslashes before `q` that the first loop of parse_string counts, from `p` on. */
  ghost function Skips(content: string, p: nat, q: nat): nat
    decreases |content| - p
  {
    if p >= q || p >= |content| || content[p] == '\"' then 0
    else if content[p] == '\\' then 1 + Skips(content, p + 2, q)
    else Skips(content, p + 1, q)
  }

  lemma {:induction false} SkipsPlain(content: string, p: nat, q: nat)
    requires q < |content| && content[q] != '\\'
    ensures Skips(content, p, q + 1) == Skips(content, p, q)
    decreases |content| - p
  {
    if p < q && content[p] != '\"' { SkipsPlain(content, if content[p] == '\\' then p + 2 else p + 1, q); }
  }

  /** Two characters hold at most one counted backslash. */
  lemma {:induction false} SkipsTwo(content: string, p: nat, q: nat)
    ensures Skips(content, p, q) <= Skips(content, p, q + 2) <= Skips(content, p, q) + 1
    decreases |content| - p
  {
    if p < |content| && p < q + 2 && content[p] != '\"' {
      SkipsTwo(content, if content[p] == '\\' then p + 2 else p + 1, q);
    }
  }

  /** How much an escape sequence stands for. */
  lemma OneSize(content: string, p: nat, end: nat)
    requires p < end < |content| && ReadOne(content, p, end).Some?
    ensures var one := ReadOne(content, p, end).value;
            && p + one.length <= end + 1
            && (one.length == 1 <==> content[p] != '\\')
            && (one.length == 1 || one.length == 2 || one.length == 6 || one.length == 12)
            && |one.bytes| <= if one.length <= 2 then 1 else if one.length == 6 then 3 else 4
  {
    hide Hex4;
  }

  /** One character or escape sequence stands for no more bytes than it leaves room for. */
  lemma OneFits(content: string, start: nat, p: nat, end: nat)
    requires p < end < |content| && ReadOne(content, p, end).Some?
    ensures var one := ReadOne(content, p, end).value;
            && p + one.length <= end + 1
            && |one.bytes| + Skips(content, start, p + one.length) <= one.length + Skips(content, start, p)
  {
    OneSize(content, p, end);
    hide ReadOne, Skips;
    var n := ReadOne(content, p, end).value.length;
    if n == 1 {
      SkipsPlain(content, start, p);
    } else {
      SkipsTwo(content, start, p);
      if n > 2 {
        SkipsTwo(content, start, p + 2);
        SkipsTwo(content, start, p + 4);
        if n > 6 {
          SkipsTwo(content, start, p + 6);
          SkipsTwo(content, start, p + 8);
          SkipsTwo(content, start, p + 10);
        }
      }
    }
  }

  lemma {:induction false} SkipsGrow(content: string, p: nat, q: nat, q': nat)
    requires q <= q'
    ensures Skips(content, p, q') <= Skips(content, p, q) + (q' - q)
    decreases |content| - p
  {
    if p < |content| && p < q' && content[p] != '\"' {
      if p < q {
        SkipsGrow(content, if content[p] == '\\' then p + 2 else p + 1, q, q');
      } else {
        SkipsBelow(content, p, q');
      }
    }
  }

  lemma {:induction false} SkipsBelow(content: string, p: nat, q: nat)
    ensures p <= q ==> Skips(content, p, q) <= q - p
    decreases |content| - p
  {
    if p < |content| && p < q && content[p] != '\"' {
      SkipsBelow(content, if content[p] == '\\' then p + 2 else p + 1, q);
    }
  }

  /** Nothing is counted from the closing quote on. */
  lemma {:induction false} SkipsEnd(content: string, p: nat, q: nat)
    requires p <= |content| && Scan(content, p) <= q
    ensures Skips(content, p, q) == Skips(content, p, Scan(content, p))
    decreases |content| - p
  {
    if p < |content| && content[p] == '\\' {
      if p + 1 < |content| { SkipsEnd(content, p + 2, q); }
    } else if p < |content| && content[p] != '\"' {
      SkipsEnd(content, p + 1, q);
    }
  }

  /**
    With the literal read up to `p`, which may be one past its end, `n` bytes are written to a buffer
    of the size allocated for it.
   */
  ghost predicate Room(content: string, start: nat, p: nat, end: nat, n: int, size: int) {
    && start <= p <= end + 1 && start <= |content| && Scan(content, start) == end
    && 0 <= n && n + Skips(content, start, p) <= p - start && size == end + 1 - start - Skips(content, start, end) + 1
  }

  lemma RoomAtStart(content: string, start: nat, end: nat)
    requires start <= end <= |content| && Scan(content, start) == end
    ensures Room(content, start, start, end, 0, end + 1 - start - Skips(content, start, end) + 1)
  {
  }

  /** There is always room for one byte more. */
  lemma RoomLeft(content: string, start: nat, p: nat, end: nat, n: int, size: int)
    requires Room(content, start, p, end, n, size)
    ensures 0 <= n < size
  {
    if p <= end {
      SkipsGrow(content, start, p, end);
    } else {
      SkipsEnd(content, start, p);
    }
  }

  lemma RoomOn(content: string, start: nat, p: nat, end: nat, n: int, size: int)
    requires Room(content, start, p, end, n, size) && p < end < |content| && ReadOne(content, p, end).Some?
    ensures var one := ReadOne(content, p, end).value; Room(content, start, p + one.length, end, n + |one.bytes|, size)
  {
    OneFits(content, start, p, end);
  }

  // ---------------------------------------------------------------- escaping and reading back

  lemma HexBack(c: char)
    requires c as int < 32
    ensures Hex4(['0', '0', HEX[c as int / 16], HEX[c as int % 16]]) == c as int
  {
    var s := ['0', '0', HEX[c as int / 16], HEX[c as int % 16]];
    HexOf(c as int / 16);
    HexOf(c as int % 16);
  }

  lemma HexOf(n: nat)
    requires n < 16
    ensures HexDigit(HEX[n]) == Some(n) && HEX[n] != '\"' && HEX[n] != '\\'
  {
  }

  /** One escaped character is passed by the scan and read back. */
  lemma EscapeBack(content: string, p: nat, end: nat, c: char)
    requires c as int != 0 && At(content, p, Escape(c)) && p + |Escape(c)| <= end < |content|
    ensures Scan(content, p) == Scan(content, p + |Escape(c)|)
    ensures ReadOne(content, p, end) == Some(Literal(|Escape(c)|, [c]))
  {
    var e := Escape(c);
    AtChar(content, p, e, 0);
    if |e| >= 2 { AtChar(content, p, e, 1); }
    if |e| == 6 {
      AtChar(content, p, e, 2);
      AtChar(content, p, e, 3);
      AtChar(content, p, e, 4);
      AtChar(content, p, e, 5);
      HexOf(c as int / 16);
      HexOf(c as int % 16);
      HexBack(c);
      assert content[p + 2..p + 6] == e[2..];
      ScanFour(content, p + 2);
    }
  }

  lemma ScanFour(content: string, p: nat)
    requires p + 4 <= |content| && forall i :: p <= i < p + 4 ==> content[i] != '\"' && content[i] != '\\'
    ensures Scan(content, p) == Scan(content, p + 4)
  {
    assert Scan(content, p) == Scan(content, p + 1);
    assert Scan(content, p + 1) == Scan(content, p + 2);
    assert Scan(content, p + 2) == Scan(content, p + 3);
    assert Scan(content, p + 3) == Scan(content, p + 4);
  }

  /** A quoted string is read back, whatever it contains but NUL. */
  lemma {:induction false} QuotedBack(content: string, p: nat, s: string)
    requires NulFree(s) && At(content, p, EscapeAll(s) + "\"")
    ensures Scan(content, p) == p + |EscapeAll(s)| < |content|
    ensures Unescape(content, p, p + |EscapeAll(s)|) == Some(s)
    decreases |s|
  {
    hide ReadOne, Escape, At;
    var q := p + |EscapeAll(s)|;
    AtSplit(content, p, EscapeAll(s), "\"");
    AtFirst(content, q, "\"");
    if s != [] {
      var e := Escape(s[0]);
      AtSplit(content, p, e, EscapeAll(s[1..]));
      AtSplit(content, p + |e|, EscapeAll(s[1..]), "\"");
      QuotedBack(content, p + |e|, s[1..]);
      EscapeBack(content, p, q, s[0]);
      UnescapeStep(content, p, q, s[0], s[1..]);
      assert s == [s[0]] + s[1..];
    }
  }

  lemma UnescapeStep(content: string, p: nat, end: nat, c: char, rest: string)
    requires p < end < |content| && ReadOne(content, p, end) == Some(Literal(|Escape(c)|, [c]))
    requires Unescape(content, p + |Escape(c)|, end) == Some(rest)
    ensures Unescape(content, p, end) == Some([c] + rest)
  {
  }

  // ---------------------------------------------------------------- the \\u escapes of section 7 of RFC 8259

  function Hex4Text(n: nat): (r: string)
    requires n < 0x10000
    ensures |r| == 4
  {
    var a := n / 16;
    var b := a / 16;
    [HEX[b / 16], HEX[b % 16], HEX[a % 16], HEX[n % 16]]
  }

  lemma Hex4Back(n: nat)
    requires n < 0x10000
    ensures Hex4(Hex4Text(n)) == n
  {
    var a := n / 16;
    var b := a / 16;
    HexOf(b / 16);
    HexOf(b % 16);
    HexOf(a % 16);
    HexOf(n % 16);
  }

  /** A code point as one escape, or as a surrogate pair. */
  function Utf16Escape(cp: nat): string
    requires cp <= 0x10FFFF
  {
    if cp < 0x10000 then "\\u" + Hex4Text(cp)
    else
      var v := cp - 0x10000;
      ("\\u" + Hex4Text(0xD800 + v / 1024)) + ("\\u" + Hex4Text(0xDC00 + v % 1024))
  }

  lemma UnitAt(content: string, p: nat, n: nat)
    requires n < 0x10000 && At(content, p, "\\u" + Hex4Text(n))
    ensures p + 6 <= |content| && content[p] == '\\' && content[p + 1] == 'u' && Hex4(content[p + 2..p + 6]) == n
  {
    Hex4Back(n);
    AtSplit(content, p, "\\u", Hex4Text(n));
    AtChar(content, p, "\\u", 0);
    AtChar(content, p, "\\u", 1);
  }

  /** Every code point, escaped, is read as its UTF-8 form. */
  lemma CodePointBack(content: string, p: nat, end: nat, cp: nat)
    requires cp <= 0x10FFFF && !(0xD800 <= cp <= 0xDFFF)
    requires At(content, p, Utf16Escape(cp)) && p + |Utf16Escape(cp)| <= end <= |content|
    ensures ReadUtf16(content, p, end) == Some(Literal(|Utf16Escape(cp)|, Utf8(cp)))
  {
    hide Hex4, Hex4Text, Utf8, At;
    if cp < 0x10000 {
      UnitAt(content, p, cp);
    } else {
      var v := cp - 0x10000;
      var x, y := 0xD800 + v / 1024, 0xDC00 + v % 1024;
      AtSplit(content, p, "\\u" + Hex4Text(x), "\\u" + Hex4Text(y));
      UnitAt(content, p, x);
      UnitAt(content, p + 6, y);
    }
  }
}
