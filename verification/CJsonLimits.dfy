/**
  What the texts of the grammar are made of, told by literals: blanks, the characters of numbers, the byte
  order mark, and how deep arrays may be nested.
  Source: liblinktool/cJSON/cJSON.c, lines 317-347, 1032-1070, 1334-1338 and 1435-1450; liblinktool/cJSON/cJSON.h,
  lines 136-138.
 */
module CJsonLimits {
  import opened CJsonGrammar
  import opened CJsonNumber
  import opened CJsonRead
  import opened CJsonText
  import opened CJsonTexts
  import opened CJsonWritten
  import opened JsonTree

  /** Blanks are the space and the control characters, those of section 2 of RFC 8259 among them. */
  lemma BlankCharacters(c: char)
    ensures c in " \t\n\r" ==> Blank(c)
    ensures Blank(c) <==> c == ' ' || c as int < ' ' as int
  {
  }

  lemma NumberCharacters(c: char)
    ensures NumberStart(c) <==> c in "-0123456789"
    ensures NumberChar(c) <==> c in "+-.eE0123456789"
  {
    if '0' <= c <= '9' { assert "-0123456789"[c as int - '0' as int + 1] == c by { Digits(c as int - '0' as int); } }
    if '0' <= c <= '9' { assert "+-.eE0123456789"[c as int - '0' as int + 5] ==
        c by { Digits(c as int - '0' as int); } }
  }

  lemma Digits(n: nat)
    requires n < 10
    ensures "-0123456789"[n + 1] as int == '0' as int + n && "+-.eE0123456789"[n + 5] as int == '0' as int + n
  {
    match n
    case 0 => case 1 => case 2 => case 3 => case 4 => case 5 => case 6 => case 7 => case 8 =>
    case _ =>
  }

  const MARK := [0xEF as char, 0xBB as char, 0xBF as char]

  /** A byte order mark in front makes no difference. */
  lemma MarkSkipped(body: string, requireEnd: bool, t: Json, end: nat)
    requires body != [] && body[0] != MARK[0]
    ensures Derives(MARK + body, requireEnd, t, end + 3) <==> Derives(body, requireEnd, t, end)
  {
    hide Tree;
    var value := MARK + body;
    assert Start(value) == 3 by { assert value[..3] == MARK == BOM; }
    assert Start(body) == 0 by { if 3 < |body| { assert body[..3][0] == body[0]; } }
    assert value[3..] == body[0..] == body;
    SameRest(value, body, requireEnd, t, end);
  }

  lemma SameRest(v: string, u: string, requireEnd: bool, t: Json, end: nat)
    requires v[Start(v)..] == u[Start(u)..] && Start(v) == Start(u) + 3 && |v| == |u| + 3
    ensures Derives(v, requireEnd, t, end + 3) <==> Derives(u, requireEnd, t, end)
  {
    hide IsText, Tree, Start, Write;
    if Derives(v, requireEnd, t, end + 3) {
      var before, s, after :|
        && IsText(v[Start(v)..], requireEnd, before, s, after) && Tree(s) == t
        && end + 3 == EndOf(v, requireEnd, before, s);
      assert end == EndOf(u, requireEnd, before, s);
    }
    if Derives(u, requireEnd, t, end) {
      var before, s, after :|
        && IsText(u[Start(u)..], requireEnd, before, s, after) && Tree(s) == t
        && end == EndOf(u, requireEnd, before, s);
      assert end + 3 == EndOf(v, requireEnd, before, s);
    }
  }

  /** `n` empty arrays, each in the next. */
  function Boxes(n: nat): (t: Json)
    ensures t.Arr?
  {
    if n == 0 then Arr([]) else Arr([Boxes(n - 1)])
  }

  function Brackets(n: nat): string {
    if n == 0 then "[]" else "[" + (Brackets(n - 1) + "]")
  }

  lemma {:induction false} BoxesText(n: nat, d: nat)
    ensures Text(Boxes(n), false, d) == Brackets(n) && Printable(Boxes(n)) && Nest(Boxes(n)) == n + 1
    ensures Reread(Boxes(n)) == Boxes(n)
  {
    if n > 0 {
      var b := Boxes(n - 1);
      BoxesText(n - 1, d + 1);
      assert [b][1..] == [];
      assert ItemsText([b], false, d + 1) == Text(b, false, d + 1) + [] == Text(b, false, d + 1);
    }
  }

  lemma {:induction false} BracketsNulFree(n: nat)
    ensures NulFree(Brackets(n))
  {
    if n > 0 { BracketsNulFree(n - 1); }
  }

  /** A thousand brackets are read, and not one more. */
  lemma DepthLimit(n: nat, requireEnd: bool)
    ensures ReadText(Brackets(n), requireEnd) == if n + 1 <= 1000 then Got(Boxes(n), |Brackets(n)|) else Fail
  {
    hide Text, ReadText, Derives, Brackets, Boxes;
    BoxesText(n, 0);
    BracketsNulFree(n);
    PrintedDerives(Boxes(n), false, 0, requireEnd);
    TextDerives(Brackets(n), requireEnd);
  }
}
