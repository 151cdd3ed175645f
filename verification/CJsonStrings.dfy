/**
  String literals as section 7 of RFC 8259 has them, piece by piece with what each piece stands for, and
  that the parser reads every one of them so.
  Source: liblinktool/cJSON/cJSON.c, lines 609-893 and 896-1015.
 */
module CJsonStrings {
  import opened CJsonGrammar
  import opened CJsonText
  import opened Wrappers

  /** What follows the backslash, and what both together stand for. */
  const ESCAPES: seq<(char, char)> := [
    ('\"', '\"'), ('\\', '\\'), ('/', '/'), ('b', 8 as char), ('f', 12 as char), ('n', 10 as char), ('r', 13 as char),
    ('t', 9 as char)
  ]

  const SMALL_DIGITS := "0123456789abcdef"
  const LARGE_DIGITS := "0123456789ABCDEF"

  predicate DigitIs(c: char, v: nat) {
    v < 16 && (c == SMALL_DIGITS[v] || c == LARGE_DIGITS[v])
  }

  /** Four hexadecimal digits, and their number. */
  datatype Hex = Hex(text: string, a: nat, b: nat, c: nat, d: nat) {
    predicate Valid() {
      |text| == 4 && DigitIs(text[0], a) && DigitIs(text[1], b) && DigitIs(text[2], c) && DigitIs(text[3], d)
    }

    function Number(): nat {
      a * 4096 + b * 256 + c * 16 + d
    }
  }

  predicate Continues(c: char) {
    0x80 <= c as int < 0xC0
  }

  /** The bytes are the UTF-8 form of a code point, section 3 of RFC 3629. */
  predicate IsUtf8(n: nat, s: string) {
    if n < 0x80 then |s| == 1 && s[0] as int == n
    else if n < 0x800 then
      |s| == 2 && Continues(s[1]) && n == (s[0] as int - 0xC0) * 0x40 + (s[1] as int - 0x80)
    else if n < 0x10000 then
      && |s| == 3 && Continues(s[1]) && Continues(s[2])
      && n == (s[0] as int - 0xE0) * 0x1000 + (s[1] as int - 0x80) * 0x40 + (s[2] as int - 0x80)
    else
      && |s| == 4 && Continues(s[1]) && Continues(s[2]) && Continues(s[3])
      && n == (s[0] as int - 0xF0) * 0x40000 + (s[1] as int - 0x80) * 0x1000 + (s[2] as int - 0x80) * 0x40
              + (s[3] as int - 0x80)
  }

  /** A piece of a literal; the standard has no malformed ones, which this parser takes for the number zero. */
  datatype Piece =
    | Plain(c: char)
    | Short(which: nat)
    | Unicode(hex: Hex, bytes: string)
    | Pair(high: Hex, low: Hex, bytes: string)
    | Malformed(text: string)

  predicate IsPiece(x: Piece) {
    match x
    case Plain(c) => c != '\"' && c != '\\'
    case Short(i) => i < |ESCAPES|
    case Unicode(h, bytes) => h.Valid() && !(0xD800 <= h.Number() < 0xE000) && IsUtf8(h.Number(), bytes)
    case Pair(h, l, bytes) =>
      && h.Valid() && l.Valid() && 0xD800 <= h.Number() < 0xDC00 && 0xDC00 <= l.Number() < 0xE000
      && IsUtf8(0x10000 + (h.Number() - 0xD800) * 0x400 + (l.Number() - 0xDC00), bytes)
    case Malformed(text) =>
      && |text| == 4 && (forall i :: 0 <= i < 4 ==> text[i] != '\"' && text[i] != '\\')
      && exists i :: 0 <= i < 4 && NoDigit(text[i])
  }

  predicate NoDigit(c: char) {
    c !in SMALL_DIGITS && c !in LARGE_DIGITS
  }

  function Spelled(x: Piece): string
    requires IsPiece(x)
  {
    match x
    case Plain(c) => [c]
    case Short(i) => ['\\', ESCAPES[i].0]
    case Unicode(h, _) => "\\u" + h.text
    case Pair(h, l, _) => ("\\u" + h.text) + ("\\u" + l.text)
    case Malformed(text) => "\\u" + text
  }

  function StandsFor(x: Piece): string
    requires IsPiece(x)
  {
    match x
    case Plain(c) => [c]
    case Short(i) => [ESCAPES[i].1]
    case Unicode(_, bytes) => bytes
    case Pair(_, _, bytes) => bytes
    case Malformed(_) => [0 as char]
  }

  ghost predicate IsString(xs: seq<Piece>) {
    forall i :: 0 <= i < |xs| ==> IsPiece(xs[i])
  }

  ghost function SpelledAll(xs: seq<Piece>): string
    requires IsString(xs)
  {
    if xs == [] then [] else Spelled(xs[0]) + SpelledAll(xs[1..])
  }

  ghost function StandsForAll(xs: seq<Piece>): string
    requires IsString(xs)
  {
    if xs == [] then [] else StandsFor(xs[0]) + StandsForAll(xs[1..])
  }

  // ---------------------------------------------------------------- pieces are read

  lemma DigitRead(c: char, v: nat)
    requires DigitIs(c, v)
    ensures HexDigit(c) == Some(v) && c != '\"' && c != '\\'
  {
    match v
    case 0 => case 1 => case 2 => case 3 => case 4 => case 5 => case 6 => case 7 =>
    case 8 => case 9 => case 10 => case 11 => case 12 => case 13 => case 14 =>
    case _ =>
  }

  lemma HexRead(h: Hex)
    requires h.Valid()
    ensures Hex4(h.text) == h.Number() && forall i :: 0 <= i < 4 ==> h.text[i] != '\"' && h.text[i] != '\\'
  {
    DigitRead(h.text[0], h.a);
    DigitRead(h.text[1], h.b);
    DigitRead(h.text[2], h.c);
    DigitRead(h.text[3], h.d);
  }

  lemma NoDigitRead(c: char)
    requires NoDigit(c)
    ensures HexDigit(c) == None
  {
    if HexDigit(c).Some? {
      var v := HexDigit(c).value;
      DigitBound(c);
      DigitOf(c, v);
      assert false;
    }
  }

  lemma DigitOf(c: char, v: nat)
    requires HexDigit(c) == Some(v) && v < 16
    ensures c in SMALL_DIGITS || c in LARGE_DIGITS
  {
    assert c == SMALL_DIGITS[v] || c == LARGE_DIGITS[v] by {
      match v
      case 0 => case 1 => case 2 => case 3 => case 4 => case 5 => case 6 => case 7 =>
      case 8 => case 9 => case 10 => case 11 => case 12 => case 13 => case 14 =>
      case _ =>
    }
  }

  lemma MalformedRead(text: string)
    requires IsPiece(Malformed(text))
    ensures Hex4(text) == 0 && Utf8(0) == [0 as char]
  {
    var i :| 0 <= i < 4 && NoDigit(text[i]);
    NoDigitRead(text[i]);
  }

  /** Every code point has a UTF-8 form. */
  lemma Utf8Holds(n: nat)
    requires n <= 0x10FFFF
    ensures IsUtf8(n, Utf8(n)) && forall c :: c in Utf8(n) ==> c as int < 256
  {
  }

  /** `Utf8` is that form, and there is no other. */
  lemma Utf8Is(n: nat, s: string)
    requires n <= 0x10FFFF && IsUtf8(n, s)
    ensures Utf8(n) == s
  {
    if n < 0x80 {
    } else if n < 0x800 {
      assert n / 64 == s[0] as int - 0xC0 && n % 64 == s[1] as int - 0x80;
    } else if n < 0x10000 {
      assert n / 64 == (s[0] as int - 0xE0) * 64 + (s[1] as int - 0x80) && n % 64 == s[2] as int - 0x80;
      assert n / 64 / 64 == s[0] as int - 0xE0 && n / 64 % 64 == s[1] as int - 0x80;
    } else {
      assert n / 64 == (s[0] as int - 0xF0) * 4096 + (s[1] as int - 0x80) * 64 + (s[2] as int - 0x80)
             && n % 64 == s[3] as int - 0x80;
      assert n / 64 / 64 == (s[0] as int - 0xF0) * 64 + (s[1] as int - 0x80) && n / 64 % 64 == s[2] as int - 0x80;
      assert n / 64 / 64 / 64 == s[0] as int - 0xF0 && n / 64 / 64 % 64 == s[1] as int - 0x80;
    }
  }

  lemma UnicodeAt(content: string, p: nat, h: Hex)
    requires h.Valid() && At(content, p, "\\u" + h.text)
    ensures p + 6 <= |content| && content[p] == '\\' && content[p + 1] == 'u'
        && Hex4(content[p + 2..p + 6]) == h.Number()
    ensures Scan(content, p) == Scan(content, p + 6)
  {
    hide Hex4, Hex.Number, Hex.Valid, At, Scan;
    HexRead(h);
    HexBound(h);
    FourAt(content, p, h.text);
  }

  /** An escape with four characters that the first loop passes. */
  lemma FourAt(content: string, p: nat, text: string)
    requires |text| == 4 && (forall i :: 0 <= i < 4 ==> text[i] != '\"' && text[i] != '\\')
    requires At(content, p, "\\u" + text)
    ensures p + 6 <= |content| && content[p] == '\\' && content[p + 1] == 'u' && content[p + 2..p + 6] == text
    ensures Scan(content, p) == Scan(content, p + 6)
  {
    hide At, Scan;
    AtSplit(content, p, "\\u", text);
    AtMeans(content, p, "\\u");
    AtMeans(content, p + 2, text);
    assert content[p] == "\\u"[0] && content[p + 1] == "\\u"[1] by { AtChars(content, p, "\\u"); }
    AtChars(content, p + 2, text);
    EscapeScan(content, p);
    ScanFour(content, p + 2);
  }

  lemma AtChars(content: string, p: nat, text: string)
    requires At(content, p, text)
    ensures p + |text| <= |content| && forall i :: p <= i < p + |text| ==> content[i] == text[i - p]
  {
    forall i | p <= i < p + |text| ensures content[i] == text[i - p] { AtChar(content, p, text, i - p); }
  }

  lemma EscapeScan(content: string, p: nat)
    requires p + 1 < |content| && content[p] == '\\'
    ensures Scan(content, p) == Scan(content, p + 2)
  {
  }

  lemma ShortRead(content: string, p: nat, end: nat, i: nat)
    requires i < |ESCAPES| && At(content, p, ['\\', ESCAPES[i].0]) && p + 2 <= end < |content|
    ensures ReadOne(content, p, end) == Some(Literal(2, [ESCAPES[i].1]))
    ensures Scan(content, p) == Scan(content, p + 2)
  {
    var e := ['\\', ESCAPES[i].0];
    AtChar(content, p, e, 0);
    AtChar(content, p, e, 1);
    match i
    case 0 => case 1 => case 2 => case 3 => case 4 => case 5 => case 6 =>
    case _ =>
  }

  /** A piece is passed by the first loop and read by the second. */
  lemma PieceRead(content: string, p: nat, end: nat, x: Piece)
    requires IsPiece(x) && At(content, p, Spelled(x)) && p + |Spelled(x)| <= end < |content|
    ensures ReadOne(content, p, end) == Some(Literal(|Spelled(x)|, StandsFor(x)))
    ensures Scan(content, p) == Scan(content, p + |Spelled(x)|)
  {
    hide Hex4, Utf8, At, Scan, Hex.Number, Hex.Valid, IsUtf8;
    match x
    case Plain(c) =>
      AtFirst(content, p, [c]);
      PlainScan(content, p);
    case Short(i) => ShortRead(content, p, end, i);
    case Unicode(h, bytes) =>
      UnicodeAt(content, p, h);
      HexBound(h);
      Utf8Is(h.Number(), bytes);
    case Pair(h, l, bytes) =>
      AtSplit(content, p, "\\u" + h.text, "\\u" + l.text);
      HexBound(h);
      HexBound(l);
      UnicodeAt(content, p, h);
      UnicodeAt(content, p + 6, l);
      Utf8Is(0x10000 + (h.Number() - 0xD800) * 0x400 + (l.Number() - 0xDC00), bytes);
    case Malformed(text) => MalformedAt(content, p, end, text);
  }

  lemma MalformedAt(content: string, p: nat, end: nat, text: string)
    requires IsPiece(Malformed(text)) && At(content, p, "\\u" + text) && p + 6 <= end < |content|
    ensures ReadOne(content, p, end) == Some(Literal(6, [0 as char])) && Scan(content, p) == Scan(content, p + 6)
  {
    hide Hex4, Utf8, At, Scan;
    MalformedRead(text);
    FourAt(content, p, text);
  }

  lemma HexBound(h: Hex)
    requires h.Valid()
    ensures |h.text| == 4 && h.Number() < 0x10000
  {
  }

  lemma PlainScan(content: string, p: nat)
    requires p < |content| && content[p] != '\"' && content[p] != '\\'
    ensures Scan(content, p) == Scan(content, p + 1)
  {
  }

  lemma {:induction false} PiecesRead(content: string, p: nat, xs: seq<Piece>)
    requires IsString(xs) && At(content, p, SpelledAll(xs) + "\"")
    ensures var end := p + |SpelledAll(xs)|;
            end < |content| && Scan(content, p) == end && Unescape(content, p, end) == Some(StandsForAll(xs))
    decreases |xs|
  {
    hide ReadOne, At, Spelled, StandsFor, IsPiece;
    var end := p + |SpelledAll(xs)|;
    AtSplit(content, p, SpelledAll(xs), "\"");
    AtFirst(content, end, "\"");
    if xs != [] {
      var x, rest := xs[0], xs[1..];
      AtSplit(content, p, Spelled(x), SpelledAll(rest));
      AtSplit(content, p + |Spelled(x)|, SpelledAll(rest), "\"");
      PiecesRead(content, p + |Spelled(x)|, rest);
      PieceRead(content, p, end, x);
      SpelledLong(x);
    }
  }

  lemma SpelledLong(x: Piece)
    requires IsPiece(x)
    ensures 0 < |Spelled(x)|
  {
  }

  /** Every string literal of the standard is read, as the characters that its pieces stand for. */
  lemma StringMeaning(xs: seq<Piece>)
    requires IsString(xs)
    ensures Unquoted(SpelledAll(xs)) == Some(StandsForAll(xs))
  {
    hide At, Scan, Unescape;
    var content := SpelledAll(xs) + "\"";
    AtWhole(content);
    PiecesRead(content, 0, xs);
  }

  // ---------------------------------------------------------------- what is refused

  /** Behind a backslash neither one of the eight characters nor `u`. */
  predicate UnknownEscape(text: string) {
    && 2 <= |text| && text[0] == '\\' && text[1] != 'u'
    && forall i :: 0 <= i < |ESCAPES| ==> text[1] != ESCAPES[i].0
  }

  /** Fewer than four characters behind `\u`. */
  predicate CutEscape(text: string) {
    2 <= |text| < 6 && text[..2] == "\\u"
  }

  /** The second half of a surrogate pair without the first. */
  predicate LoneLow(text: string, h: Hex) {
    6 <= |text| && text[..6] == "\\u" + h.text && h.Valid() && 0xDC00 <= h.Number() < 0xE000
  }

  /** The first half of a surrogate pair, and behind it no second half. */
  predicate LoneHigh(text: string, h: Hex) {
    && 6 <= |text| && text[..6] == "\\u" + h.text && h.Valid() && 0xD800 <= h.Number() < 0xDC00
    && (|text| < 12 || text[6] != '\\' || text[7] != 'u' || exists i :: 8 <= i < 12 && NoDigit(text[i]))
  }

  predicate Unpaired(text: string, h: Hex, l: Hex) {
    && 12 <= |text| && text[..6] == "\\u" + h.text && text[6..12] == "\\u" + l.text && h.Valid() && l.Valid()
    && 0xD800 <= h.Number() < 0xDC00 && !(0xDC00 <= l.Number() < 0xE000)
  }

  lemma BadRead(text: string, h: Hex, l: Hex)
    requires UnknownEscape(text) || CutEscape(text) || LoneLow(text, h) || LoneHigh(text, h) || Unpaired(text, h, l)
    ensures ReadOne(text + "\"", 0, |text|) == None
  {
    hide Hex4, Hex.Number, Hex.Valid;
    var content := text + "\"";
    if UnknownEscape(text) {
      UnknownRead(text[1]);
      assert content[0] == text[0] && content[1] == text[1];
    } else if CutEscape(text) {
      assert content[0] == text[..2][0] && content[1] == text[..2][1];
    } else {
      assert content[0] == text[..6][0] && content[1] == text[..6][1];
      HexBound(h);
      HexRead(h);
      assert content[2..6] == text[..6][2..] == h.text;
      if Unpaired(text, h, l) {
        HexBound(l);
        HexRead(l);
        assert content[8..12] == text[6..12][2..] == l.text;
      } else if LoneHigh(text, h) && 12 <= |text| {
        LowMissing(content, text);
      }
    }
  }

  lemma LowMissing(content: string, text: string)
    requires content == text + "\"" && 12 <= |text|
    ensures content[6] == text[6] && content[7] == text[7]
    ensures (exists i :: 8 <= i < 12 && NoDigit(text[i])) ==> Hex4(content[8..12]) == 0
  {
    if exists i :: 8 <= i < 12 && NoDigit(text[i]) {
      var i :| 8 <= i < 12 && NoDigit(text[i]);
      assert content[8..12][i - 8] == text[i];
      NoDigitRead(text[i]);
    }
  }

  lemma UnknownRead(c: char)
    requires forall i :: 0 <= i < |ESCAPES| ==> c != ESCAPES[i].0
    ensures c !in "\"\\/bfnrt"
  {
    assert c != ESCAPES[0].0 && c != ESCAPES[1].0 && c != ESCAPES[2].0 && c != ESCAPES[3].0;
    assert c != ESCAPES[4].0 && c != ESCAPES[5].0 && c != ESCAPES[6].0 && c != ESCAPES[7].0;
  }

  /** Whatever comes before and behind, a literal with such a place in it is refused. */
  lemma Refused(xs: seq<Piece>, text: string, h: Hex, l: Hex)
    requires IsString(xs)
    requires UnknownEscape(text) || CutEscape(text) || LoneLow(text, h) || LoneHigh(text, h) || Unpaired(text, h, l)
    ensures Unquoted(SpelledAll(xs) + text) == None
  {
    hide IsPiece, UnknownEscape, CutEscape, LoneLow, LoneHigh, Unpaired, ReadOne, Unescape, Scan, At;
    var body := SpelledAll(xs) + text;
    var content := body + "\"";
    BadRead(text, h, l);
    NotEmpty(text, h, l);
    AtWhole(content);
    assert content == SpelledAll(xs) + (text + "\"");
    AtSplit(content, 0, SpelledAll(xs), text + "\"");
    OneLocal(content, |SpelledAll(xs)|, text, 0);
    StopsBehind(content, 0, |body|, xs);
  }

  lemma NotEmpty(text: string, h: Hex, l: Hex)
    requires UnknownEscape(text) || CutEscape(text) || LoneLow(text, h) || LoneHigh(text, h) || Unpaired(text, h, l)
    ensures text != []
  {
  }

  /** Reading goes through the pieces and stops at what is behind them. */
  lemma {:induction false} StopsBehind(content: string, p: nat, end: nat, xs: seq<Piece>)
    requires IsString(xs) && At(content, p, SpelledAll(xs)) && p + |SpelledAll(xs)| < end < |content|
    requires ReadOne(content, p + |SpelledAll(xs)|, end) == None
    ensures Unescape(content, p, end) == None
    decreases |xs|
  {
    hide ReadOne, At, Spelled, StandsFor, IsPiece;
    if xs != [] {
      var x, rest := xs[0], xs[1..];
      AtSplit(content, p, Spelled(x), SpelledAll(rest));
      StopsBehind(content, p + |Spelled(x)|, end, rest);
      PieceRead(content, p, end, x);
      SpelledLong(x);
    }
  }

  lemma AtWhole(content: string)
    ensures At(content, 0, content)
  {
  }
}
