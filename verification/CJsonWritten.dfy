/**
  What the printer writes is in the grammar.
  Source: liblinktool/cJSON/cJSON.c, lines 895-1070, 1358-1434, 1533-1594 and 1706-1819.
 */
module CJsonWritten {
  import opened CJsonGrammar
  import opened CJsonNumber
  import opened CJsonRead
  import opened CJsonText
  import opened CJsonTexts
  import opened JsonTree
  import opened Wrappers

  /** The syntax that print_value writes at nesting depth `d`. */
  function Printed(t: Json, fmt: bool, d: nat): Syntax
    decreases t, 1
  {
    match t
    case Null => SNull
    case Bool(b) => if b then STrue else SFalse
    case Num(n) => if C.finite(n) then SNum(NumberText(n)) else SNull
    case Str(s) => SStr(EscapeAll(s))
    case Arr(items) => SArr([], PrintedItems(items, [], fmt, d + 1))
    case Obj(ms) => SObj(NewLine(fmt) + Indent(fmt, d), PrintedMembers(ms, fmt, d + 1, Indent(fmt, d)))
  }

  function PrintedItems(items: seq<Json>, before: string, fmt: bool, d: nat): (r: seq<SItem>)
    ensures |r| == |items|
    decreases items, 0
  {
    if items == [] then []
    else [SItem(before, Printed(items[0], fmt, d), [])] + PrintedItems(items[1..], Gap(fmt), fmt, d)
  }

  /** Each member on a line of its own, the closing brace on one more. */
  function PrintedMembers(ms: seq<Member>, fmt: bool, d: nat, close: string): (r: seq<SMember>)
    ensures |r| == |ms|
    decreases ms, 0
  {
    if ms == [] then []
    else
      [SMember(NewLine(fmt) + Indent(fmt, d), EscapeAll(ms[0].key), [], KeyGap(fmt), Printed(ms[0].value, fmt, d),
       if |ms| == 1 then NewLine(fmt) + close else [])]
      + PrintedMembers(ms[1..], fmt, d, close)
  }

  /** The tree that is read back: numbers may differ in the last digits, and NaN and infinities become null. */
  ghost function Reread(t: Json): Json
    decreases t, 1
  {
    match t
    case Num(n) => if C.finite(n) then Num(Recovered(n)) else Null
    case Arr(items) => Arr(RereadItems(items))
    case Obj(ms) => Obj(RereadMembers(ms))
    case _ => t
  }

  ghost function RereadItems(items: seq<Json>): seq<Json>
    decreases items, 0
  {
    if items == [] then [] else [Reread(items[0])] + RereadItems(items[1..])
  }

  ghost function RereadMembers(ms: seq<Member>): seq<Member>
    decreases ms, 0
  {
    if ms == [] then [] else [Member(ms[0].key, Reread(ms[0].value))] + RereadMembers(ms[1..])
  }

  /** Every number in the tree is read from its text as that number. */
  ghost predicate Survives(t: Json)
    decreases t
  {
    match t
    case Num(n) => C.finite(n) && Recovered(n) == n
    case Arr(items) => forall i :: 0 <= i < |items| ==> Survives(items[i])
    case Obj(ms) => forall i :: 0 <= i < |ms| ==> Survives(ms[i].value)
    case _ => true
  }

  /** The tree that is read back is the one that was printed exactly if its numbers survive. */
  lemma {:induction false} RereadSame(t: Json)
    ensures Reread(t) == t <==> Survives(t)
    decreases t, 1
  {
    hide Recovered;
    match t
    case Arr(items) => ItemsSame(items);
    case Obj(ms) => MembersSame(ms);
    case _ =>
  }

  lemma {:induction false} ItemsSame(items: seq<Json>)
    ensures RereadItems(items) == items <==> forall i :: 0 <= i < |items| ==> Survives(items[i])
    decreases items, 0
  {
    hide Survives, Reread;
    if items != [] {
      var rest := items[1..];
      RereadSame(items[0]);
      ItemsSame(rest);
      assert items == [items[0]] + rest;
      assert ([Reread(items[0])] + RereadItems(rest))[1..] == RereadItems(rest);
    }
  }

  lemma {:induction false} MembersSame(ms: seq<Member>)
    ensures RereadMembers(ms) == ms <==> forall i :: 0 <= i < |ms| ==> Survives(ms[i].value)
    decreases ms, 0
  {
    hide Survives, Reread;
    if ms != [] {
      var rest := ms[1..];
      RereadSame(ms[0].value);
      MembersSame(rest);
      assert ms == [ms[0]] + rest;
      assert ([Member(ms[0].key, Reread(ms[0].value))] + RereadMembers(rest))[1..] == RereadMembers(rest);
    }
  }

  /** Reading back does not change how deeply a tree is nested. */
  lemma {:induction false} RereadNest(t: Json)
    ensures Nest(Reread(t)) == Nest(t)
    decreases t, 1
  {
    match t
    case Arr(items) => ItemsNest(items);
    case Obj(ms) => MembersNest(ms);
    case _ =>
  }

  lemma {:induction false} ItemsNest(items: seq<Json>)
    ensures NestItems(RereadItems(items)) == NestItems(items)
    decreases items, 0
  {
    hide Reread, Nest;
    if items != [] {
      RereadNest(items[0]);
      ItemsNest(items[1..]);
      assert ([Reread(items[0])] + RereadItems(items[1..]))[1..] == RereadItems(items[1..]);
    }
  }

  lemma {:induction false} MembersNest(ms: seq<Member>)
    ensures NestMembers(RereadMembers(ms)) == NestMembers(ms)
    decreases ms, 0
  {
    hide Reread, Nest;
    if ms != [] {
      RereadNest(ms[0].value);
      MembersNest(ms[1..]);
      assert ([Member(ms[0].key, Reread(ms[0].value))] + RereadMembers(ms[1..]))[1..] == RereadMembers(ms[1..]);
    }
  }

  // ---------------------------------------------------------------- it is written as it is printed

  lemma Assoc(a: string, b: string, c: string)
    ensures (a + b) + c == a + (b + c)
  {
  }

  lemma Nothing(a: string)
    ensures [] + a == a && a + [] == a
  {
  }

  /** Every tree that can be printed is printed as its syntax is written. */
  lemma {:induction false} PrintedText(t: Json, fmt: bool, d: nat)
    requires Printable(t)
    ensures Write(Printed(t, fmt, d)) == Text(t, fmt, d)
    decreases t, 1
  {
    match t
    case Arr(items) => ArrayText(items, fmt, d);
    case Obj(ms) => ObjectText(ms, fmt, d);
    case _ =>
  }

  lemma {:induction false} ArrayText(items: seq<Json>, fmt: bool, d: nat)
    requires forall i :: 0 <= i < |items| ==> Printable(items[i])
    ensures Write(SArr([], PrintedItems(items, [], fmt, d + 1))) == "[" + (ItemsText(items, fmt, d + 1) + "]")
    decreases items, 1
  {
    hide Text, Printed, PrintedItems, Printable, WriteItems;
    if items != [] {
      ItemsPrinted(items, [], fmt, d + 1);
      Nothing(ItemsText(items, fmt, d + 1) + "]");
    }
  }

  lemma FirstPrinted(items: seq<Json>, before: string, fmt: bool, d: nat)
    requires items != []
    ensures var p := PrintedItems(items, before, fmt, d);
            && p != [] && p[1..] == PrintedItems(items[1..], Gap(fmt), fmt, d)
            && p[0] == SItem(before, Printed(items[0], fmt, d), [])
  {
    hide Printed;
  }

  lemma {:induction false} ItemsPrinted(items: seq<Json>, before: string, fmt: bool, d: nat)
    requires items != [] && forall i :: 0 <= i < |items| ==> Printable(items[i])
    ensures WriteItems(PrintedItems(items, before, fmt, d)) == before + (ItemsText(items, fmt, d) + "]")
    decreases items, 0
  {
    hide Text, Printed, PrintedItems, Printable, Write, WriteItems, ItemsText, MoreItems, Gap;
    var rest := items[1..];
    var text := Text(items[0], fmt, d);
    FirstPrinted(items, before, fmt, d);
    ItemsWritten(PrintedItems(items, before, fmt, d));
    PrintedText(items[0], fmt, d);
    ItemsTextAt(items, fmt, d);
    Assoc(text, MoreItems(rest, fmt, d), "]");
    if rest == [] {
      Nothing("]");
    } else {
      ItemsPrinted(rest, Gap(fmt), fmt, d);
      MoreTextAt(rest, fmt, d);
      Assoc(",", Gap(fmt) + ItemsText(rest, fmt, d), "]");
      Assoc(Gap(fmt), ItemsText(rest, fmt, d), "]");
      Nothing("," + (Gap(fmt) + (ItemsText(rest, fmt, d) + "]")));
    }
  }

  lemma ItemsTextAt(items: seq<Json>, fmt: bool, d: nat)
    requires items != []
    ensures ItemsText(items, fmt, d) == Text(items[0], fmt, d) + MoreItems(items[1..], fmt, d)
    ensures MoreItems([], fmt, d) == [] && Comma(false) == [] && Comma(true) == ","
  {
    hide Text;
  }

  lemma MoreTextAt(items: seq<Json>, fmt: bool, d: nat)
    requires items != []
    ensures MoreItems(items, fmt, d) == "," + (Gap(fmt) + ItemsText(items, fmt, d))
  {
    hide Text, Gap;
  }

  lemma {:induction false} ObjectText(ms: seq<Member>, fmt: bool, d: nat)
    requires forall i :: 0 <= i < |ms| ==> NulFree(ms[i].key) && Printable(ms[i].value)
    ensures Write(SObj(NewLine(fmt) + Indent(fmt, d), PrintedMembers(ms, fmt, d + 1, Indent(fmt, d))))
            == "{" + (NewLine(fmt) + (MembersText(ms, fmt, d + 1) + (Indent(fmt, d) + "}")))
    decreases ms, 1
  {
    hide Text, Printed, PrintedMembers, Printable, WriteMembers, NewLine, Indent, MembersText, NulFree;
    if ms != [] {
      MembersPrinted(ms, fmt, d + 1, Indent(fmt, d));
    } else {
      NoMembers(fmt, d + 1);
      Nothing(Indent(fmt, d) + "}");
      Assoc(NewLine(fmt), Indent(fmt, d), "}");
    }
  }

  lemma FirstMemberPrinted(ms: seq<Member>, fmt: bool, d: nat, close: string)
    requires ms != []
    ensures var p := PrintedMembers(ms, fmt, d, close);
            && p != [] && p[1..] == PrintedMembers(ms[1..], fmt, d, close)
            && WriteKey(p[0]) == (NewLine(fmt) + Indent(fmt, d)) + (Quoted(ms[0].key) + ([] + ":"))
            && p[0].next == KeyGap(fmt) && p[0].value == Printed(ms[0].value, fmt, d)
            && p[0].after == if ms[1..] == [] then NewLine(fmt) + close else []
  {
    hide Printed, NewLine, Indent, KeyGap, EscapeAll;
  }

  lemma MembersTextAt(ms: seq<Member>, fmt: bool, d: nat)
    requires ms != []
    ensures MembersText(ms, fmt, d)
            == Indent(fmt, d) + (Quoted(ms[0].key) + (":" + (KeyGap(fmt) + (Text(ms[0].value, fmt, d)
               + (Comma(ms[1..] != []) + (NewLine(fmt) + MembersText(ms[1..], fmt, d)))))))
    ensures MembersText([], fmt, d) == [] && Comma(false) == [] && Comma(true) == ","
  {
    hide Text, Indent, Quoted, KeyGap, NewLine;
  }

  /** The last brackets move to the left. */
  lemma Regroup(i: string, q: string, g: string, t: string, rest: string, close: string)
    ensures (i + (q + (":" + (g + (t + rest))))) + close == i + (q + (":" + (g + (t + (rest + close)))))
  {
    Assoc(i, q + (":" + (g + (t + rest))), close);
    Assoc(q, ":" + (g + (t + rest)), close);
    Assoc(":", g + (t + rest), close);
    Assoc(g, t + rest, close);
    Assoc(t, rest, close);
  }

  lemma KeyRegroup(n: string, i: string, q: string, value: string)
    ensures ((n + i) + (q + ([] + ":"))) + value == n + (i + (q + (":" + value)))
  {
    Nothing(":");
    Assoc(n + i, q + ":", value);
    Assoc(q, ":", value);
    Assoc(n, i, q + (":" + value));
  }

  lemma {:induction false} MembersPrinted(ms: seq<Member>, fmt: bool, d: nat, close: string)
    requires ms != [] && forall i :: 0 <= i < |ms| ==> NulFree(ms[i].key) && Printable(ms[i].value)
    ensures WriteMembers(PrintedMembers(ms, fmt, d, close)) == NewLine(fmt) + (MembersText(ms, fmt, d) + (close + "}"))
    decreases ms, 0
  {
    hide Text, Printed, PrintedMembers, Printable, Write, WriteKey, WriteMembers, NewLine, Indent, MembersText, NulFree,
      Quoted, KeyGap;
    var rest := ms[1..];
    var p := PrintedMembers(ms, fmt, d, close);
    var n, i, q, g, t := NewLine(fmt), Indent(fmt, d), Quoted(ms[0].key), KeyGap(fmt), Text(ms[0].value, fmt, d);
    FirstMemberPrinted(ms, fmt, d, close);
    MembersWritten(p);
    PrintedText(ms[0].value, fmt, d);
    MembersTextAt(ms, fmt, d);
    var more := Comma(rest != []) + (n + MembersText(rest, fmt, d));
    Regroup(i, q, g, t, more, close + "}");
    KeyRegroup(n, i, q, g + (t + (p[0].after + (Comma(p[1..] != []) + WriteMembers(p[1..])))));
    if rest != [] { MembersPrinted(rest, fmt, d, close); }
    MoreRegroup(n, rest != [], MembersText(rest, fmt, d), close, p[0].after, WriteMembers(p[1..]));
  }

  lemma MoreRegroup(n: string, more: bool, text: string, close: string, after: string, written: string)
    requires after == if more then [] else n + close
    requires if more then written == n + (text + (close + "}")) else text == [] && written == "}"
    ensures (Comma(more) + (n + text)) + (close + "}") == after + (Comma(more) + written)
  {
    Assoc(Comma(more), n + text, close + "}");
    Assoc(n, text, close + "}");
    if more {
      Nothing("," + written);
    } else {
      Nothing(close + "}");
      Nothing(n + (close + "}"));
      Nothing("}");
      Assoc(n, close, "}");
    }
  }

  // ---------------------------------------------------------------- it is well written and stands for the tree

  lemma {:induction false} TabsBlank(n: nat)
    ensures Blanks(Tabs(n))
  {
    if n > 0 { TabsBlank(n - 1); }
  }

  lemma GapsBlank(fmt: bool, d: nat)
    ensures Blanks(Gap(fmt)) && Blanks(KeyGap(fmt)) && Blanks(NewLine(fmt)) && Blanks(Indent(fmt, d)) && Blanks([])
  {
    TabsBlank(d);
  }

  lemma BlanksJoin(a: string, b: string)
    requires Blanks(a) && Blanks(b)
    ensures Blanks(a + b)
  {
  }

  lemma EscapedLiteral(s: string)
    requires NulFree(s)
    ensures Unquoted(EscapeAll(s)) == Some(s) && Meaning(EscapeAll(s)) == s
  {
    hide Scan, Unescape, EscapeAll;
    AtAll(EscapeAll(s) + "\"");
    QuotedBack(EscapeAll(s) + "\"", 0, s);
  }

  lemma AtAll(content: string)
    ensures At(content, 0, content)
  {
  }

  lemma NumeralRead(n: int)
    requires C.finite(n)
    ensures IsNumber(NumberText(n)) && NumberIn(NumberText(n)) == Recovered(n)
  {
    hide NumberText;
  }

  /** The printed syntax is in the grammar and stands for the tree that is read back. */
  lemma {:induction false} PrintedTree(t: Json, fmt: bool, d: nat)
    requires Printable(t)
    ensures WellWritten(Printed(t, fmt, d)) && Tree(Printed(t, fmt, d)) == Reread(t)
    decreases t, 1
  {
    hide RereadItems, RereadMembers, IsNumber, NumberIn, NumberText, Recovered, Unquoted, Meaning, EscapeAll, Blanks;
    hide Gap, NewLine, Indent, GoodItems, GoodMembers, Items, Members, PrintedItems,
      PrintedMembers, NulFree;
    match t
    case Num(n) => if C.finite(n) { NumeralRead(n); }
    case Str(s) => EscapedLiteral(s);
    case Arr(items) =>
      GapsBlank(fmt, d);
      ItemsGood(items, [], fmt, d + 1);
    case Obj(ms) =>
      GapsBlank(fmt, d);
      BlanksJoin(NewLine(fmt), Indent(fmt, d));
      MembersGood(ms, fmt, d + 1, Indent(fmt, d));
    case _ =>
  }

  lemma {:induction false} ItemsGood(items: seq<Json>, before: string, fmt: bool, d: nat)
    requires Blanks(before) && forall i :: 0 <= i < |items| ==> Printable(items[i])
    ensures GoodItems(PrintedItems(items, before, fmt, d))
    ensures Items(PrintedItems(items, before, fmt, d)) == RereadItems(items)
    decreases items, 0
  {
    hide Printed, Printable, WellWritten, Tree, Blanks, Gap, Reread;
    if items != [] {
      GapsBlank(fmt, d);
      PrintedTree(items[0], fmt, d);
      ItemsGood(items[1..], Gap(fmt), fmt, d);
      ItemsBuilt(SItem(before, Printed(items[0], fmt, d), []), PrintedItems(items[1..], Gap(fmt), fmt, d));
    }
  }

  lemma {:induction false} MembersGood(ms: seq<Member>, fmt: bool, d: nat, close: string)
    requires Blanks(close) && forall i :: 0 <= i < |ms| ==> NulFree(ms[i].key) && Printable(ms[i].value)
    ensures GoodMembers(PrintedMembers(ms, fmt, d, close))
    ensures Members(PrintedMembers(ms, fmt, d, close)) == RereadMembers(ms)
    decreases ms, 0
  {
    hide Printed, Printable, WellWritten, Tree, Blanks, NewLine, Indent, KeyGap, Unquoted, Meaning, EscapeAll, NulFree,
      Reread;
    if ms != [] {
      GapsBlank(fmt, d);
      BlanksJoin(NewLine(fmt), Indent(fmt, d));
      BlanksJoin(NewLine(fmt), close);
      EscapedLiteral(ms[0].key);
      PrintedTree(ms[0].value, fmt, d);
      MembersGood(ms[1..], fmt, d, close);
      MembersBuilt(PrintedMembers(ms, fmt, d, close)[0], PrintedMembers(ms[1..], fmt, d, close));
    }
  }

  lemma NothingBehind(s: Syntax)
    requires WellWritten(s)
    ensures SettledBefore(s, [])
  {
    hide Run;
    if s.SNum? {
      assert s.text + [] == s.text;
      RunOfNumeral(s.text);
    }
  }

  /** What the printer writes is a text of the grammar that stands for the tree printed, but for its numbers. */
  lemma PrintedDerives(t: Json, fmt: bool, d: nat, requireEnd: bool)
    requires Printable(t)
    ensures Derives(Text(t, fmt, d), requireEnd, Reread(t), |Text(t, fmt, d)|)
  {
    hide Text, Printed, Write, WellWritten, Tree, SettledBefore;
    var s := Printed(t, fmt, d);
    PrintedText(t, fmt, d);
    PrintedTree(t, fmt, d);
    Starts(s);
    GapsBlank(fmt, d);
    var text := Write(s);
    assert Start(text) == 0 by {
      if 3 < |text| { assert text[..3][0] == text[0]; }
      assert BOM[0] != text[0];
    }
    NothingBehind(s);
    assert text[0..] == [] + (text + []);
    assert IsText(text[Start(text)..], requireEnd, [], s, []) && |text| == EndOf(text, requireEnd, [], s);
  }
}
