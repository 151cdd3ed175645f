/**
  What printed trees look like: compact text without a blank outside strings, or one member to a line,
  indented by tabs.
  Source: liblinktool/cJSON/cJSON.c, lines 543-606, 896-1015, 1361-1432, 1533-1592 and 1708-1819.
 */
module CJsonLayout {
  import opened CJsonNumber
  import opened CJsonStrings
  import opened CJsonText
  import opened JsonTree

  function Join(parts: seq<string>, between: string): string {
    if parts == [] then []
    else if |parts| == 1 then parts[0]
    else parts[0] + (between + Join(parts[1..], between))
  }

  function Compact(t: Json): string
    decreases t, 1
  {
    match t
    case Arr(items) => "[" + (Join(CompactItems(items), ",") + "]")
    case Obj(ms) => "{" + (Join(CompactMembers(ms), ",") + "}")
    case _ => Text(t, false, 0)
  }

  function CompactItems(items: seq<Json>): (r: seq<string>)
    ensures |r| == |items|
    decreases items, 0
  {
    if items == [] then [] else [Compact(items[0])] + CompactItems(items[1..])
  }

  function CompactMembers(ms: seq<Member>): (r: seq<string>)
    ensures |r| == |ms|
    decreases ms, 0
  {
    if ms == [] then [] else [Quoted(ms[0].key) + (":" + Compact(ms[0].value))] + CompactMembers(ms[1..])
  }

  function Indented(d: nat, line: string): string {
    if d == 0 then line else "\t" + Indented(d - 1, line)
  }

  /** The text of a value on a line that is indented by `d` tabs. */
  function Lines(t: Json, d: nat): string
    decreases t, 1
  {
    match t
    case Arr(items) => "[" + (Join(LinesItems(items, d + 1), ", ") + "]")
    case Obj(ms) =>
      "{\n" + if ms == [] then Indented(d, "}")
              else Join(LinesMembers(ms, d + 1), ",\n") + ("\n" + Indented(d, "}"))
    case _ => Text(t, true, d)
  }

  function LinesItems(items: seq<Json>, d: nat): (r: seq<string>)
    ensures |r| == |items|
    decreases items, 0
  {
    if items == [] then [] else [Lines(items[0], d)] + LinesItems(items[1..], d)
  }

  function LinesMembers(ms: seq<Member>, d: nat): (r: seq<string>)
    ensures |r| == |ms|
    decreases ms, 0
  {
    if ms == [] then []
    else [Indented(d, Quoted(ms[0].key) + (":\t" + Lines(ms[0].value, d)))] + LinesMembers(ms[1..], d)
  }

  lemma Assoc(a: string, b: string, c: string)
    ensures (a + b) + c == a + (b + c)
  {
  }

  lemma Nothing(a: string)
    ensures [] + a == a && a + [] == a
  {
  }

  lemma {:induction false} TabsIndent(d: nat, line: string)
    ensures Tabs(d) + line == Indented(d, line)
  {
    if d == 0 {
      Nothing(line);
    } else {
      TabsIndent(d - 1, line);
      Assoc("\t", Tabs(d - 1), line);
    }
  }

  lemma JoinTail(parts: seq<string>, between: string)
    requires parts != []
    ensures Join(parts, between) == parts[0] + if |parts| == 1 then [] else between + Join(parts[1..], between)
  {
    Nothing(parts[0]);
  }

  // ---------------------------------------------------------------- compact text

  lemma {:induction false} CompactText(t: Json, d: nat)
    ensures Text(t, false, d) == Compact(t)
    decreases t, 1
  {
    match t
    case Arr(items) => CompactItemsText(items, d + 1);
    case Obj(ms) =>
      CompactMembersText(ms, d + 1);
      Nothing("}");
      Nothing(MembersText(ms, false, d + 1) + "}");
    case _ =>
  }

  lemma {:induction false} CompactItemsText(items: seq<Json>, d: nat)
    ensures ItemsText(items, false, d) == Join(CompactItems(items), ",")
    ensures MoreItems(items, false, d) == if items == [] then [] else "," + Join(CompactItems(items), ",")
    decreases items, 0
  {
    hide Text, Compact;
    if items != [] {
      var rest := items[1..];
      CompactText(items[0], d);
      CompactItemsText(rest, d);
      JoinTail(CompactItems(items), ",");
      assert CompactItems(items)[1..] == CompactItems(rest);
      Nothing(Text(items[0], false, d) + MoreItems(rest, false, d));
    }
  }

  lemma {:induction false} CompactMembersText(ms: seq<Member>, d: nat)
    ensures MembersText(ms, false, d) == Join(CompactMembers(ms), ",")
    decreases ms, 0
  {
    hide Text, Compact, Quoted;
    if ms != [] {
      var rest := ms[1..];
      var q, x := Quoted(ms[0].key), Compact(ms[0].value);
      var tail := if rest == [] then [] else "," + Join(CompactMembers(rest), ",");
      CompactText(ms[0].value, d);
      CompactMembersText(rest, d);
      JoinTail(CompactMembers(ms), ",");
      assert CompactMembers(ms)[1..] == CompactMembers(rest);
      Nothing(MembersText(rest, false, d));
      Nothing(x + tail);
      Nothing(q + (":" + (x + tail)));
      Assoc(q, ":" + x, tail);
      Assoc(":", x, tail);
    }
  }

  // ---------------------------------------------------------------- formatted text

  lemma {:induction false} LinesText(t: Json, d: nat)
    ensures Text(t, true, d) == Lines(t, d)
    decreases t, 1
  {
    hide Tabs, Indented, Join, LinesItems, LinesMembers, ItemsText, MembersText, NewLine;
    match t
    case Arr(items) => LinesItemsText(items, d + 1);
    case Obj(ms) =>
      TabsIndent(d, "}");
      if ms == [] {
        NoMembers(true, d + 1);
        Braces([], Indented(d, "}"));
      } else {
        LinesMembersText(ms, d + 1);
        Braces(Join(LinesMembers(ms, d + 1), ",\n"), Indented(d, "}"));
      }
    case _ =>
  }

  lemma Braces(lines: string, close: string)
    ensures "{" + (NewLine(true) + ([] + close)) == "{\n" + close
    ensures "{" + (NewLine(true) + ((lines + "\n") + close)) == "{\n" + (lines + ("\n" + close))
  {
    Nothing(close);
    Assoc("{", "\n", close);
    Assoc(lines, "\n", close);
    Assoc("{", "\n", lines + ("\n" + close));
  }

  lemma {:induction false} LinesItemsText(items: seq<Json>, d: nat)
    ensures ItemsText(items, true, d) == Join(LinesItems(items, d), ", ")
    ensures MoreItems(items, true, d) == if items == [] then [] else ", " + Join(LinesItems(items, d), ", ")
    decreases items, 0
  {
    hide Text, Lines;
    if items != [] {
      var rest := items[1..];
      LinesText(items[0], d);
      LinesItemsText(rest, d);
      JoinTail(LinesItems(items, d), ", ");
      assert LinesItems(items, d)[1..] == LinesItems(rest, d);
      Assoc(",", " ", Text(items[0], true, d) + MoreItems(rest, true, d));
    }
  }

  lemma {:induction false} LinesMembersText(ms: seq<Member>, d: nat)
    requires ms != []
    ensures MembersText(ms, true, d) == Join(LinesMembers(ms, d), ",\n") + "\n"
    decreases ms, 1
  {
    hide Text, Lines, Quoted, Tabs;
    var rest := ms[1..];
    var q, x := Quoted(ms[0].key), Lines(ms[0].value, d);
    var tail := if rest == [] then [] else ",\n" + Join(LinesMembers(rest, d), ",\n");
    LinesText(ms[0].value, d);
    JoinTail(LinesMembers(ms, d), ",\n");
    assert LinesMembers(ms, d)[1..] == LinesMembers(rest, d);
    TailText(ms, d);
    MemberLine(d, q, x, tail);
  }

  /** What stands behind the first member's value. */
  lemma {:induction false} TailText(ms: seq<Member>, d: nat)
    requires ms != []
    ensures var rest := ms[1..];
            Comma(|ms| > 1) + (NewLine(true) + MembersText(rest, true, d))
            == (if rest == [] then [] else ",\n" + Join(LinesMembers(rest, d), ",\n")) + "\n"
    decreases ms, 0
  {
    hide Text, Lines, Quoted, Tabs, Join, LinesMembers;
    var rest := ms[1..];
    if rest == [] {
      NoMembers(true, d);
      Nothing("\n");
    } else {
      LinesMembersText(rest, d);
      var j := Join(LinesMembers(rest, d), ",\n");
      Assoc(",", "\n", j + "\n");
      Assoc(",\n", j, "\n");
    }
  }

  lemma MemberLine(d: nat, q: string, x: string, tail: string)
    ensures Tabs(d) + (q + (":" + ("\t" + (x + (tail + "\n"))))) == (Indented(d, q + (":\t" + x)) + tail) + "\n"
  {
    hide Tabs, Indented;
    var line := q + (":\t" + x);
    TabsIndent(d, line);
    Assoc(Tabs(d), line, tail);
    Assoc(Tabs(d), line + tail, "\n");
    Assoc(line, tail, "\n");
    Assoc(q, ":\t" + x, tail + "\n");
    Assoc(":\t", x, tail + "\n");
    Assoc(":", "\t", x + (tail + "\n"));
  }

  // ---------------------------------------------------------------- leaves

  /** The printer escapes what it must, in the short form if there is one; the solidus it leaves alone. */
  lemma EscapedAs(c: char, i: nat)
    ensures i < |ESCAPES| && ESCAPES[i].1 != '/' ==> Escape(ESCAPES[i].1) == ['\\', ESCAPES[i].0]
    ensures c as int >= 32 && c != '\"' && c != '\\' ==> Escape(c) == [c]
    ensures c as int < 32 && c as int !in {8, 9, 10, 12, 13} ==>
              Escape(c) == "\\u00" + [SMALL_DIGITS[c as int / 16], SMALL_DIGITS[c as int % 16]]
  {
    match i
    case 0 => case 1 => case 2 => case 3 => case 4 => case 5 => case 6 =>
    case _ =>
  }

  lemma WordsAre(d: nat, fmt: bool)
    ensures Text(Null, fmt, d) == "null" && Text(Bool(true), fmt, d) == "true" && Text(Bool(false), fmt, d) == "false"
  {
  }

  /** A number that 15 digits tell well enough is printed with 15; otherwise 17 digits are taken. */
  lemma NumberAs(n: int, fmt: bool, d: nat)
    ensures !C.finite(n) ==> Text(Num(n), fmt, d) == "null"
    ensures C.finite(n) && C.near(C.read(C.brief(n)).value.number, n) ==> Text(Num(n), fmt, d) == C.brief(n)
    ensures C.finite(n) && !C.near(C.read(C.brief(n)).value.number, n) ==> Text(Num(n), fmt, d) == C.long(n)
  {
  }
}
