/**
  The grammar of JSON texts, sections 2 to 7 of RFC 8259 with what this parser takes for blanks, numbers
  and string literals: a concrete syntax with its blanks, how it is written, and that whatever is written
  so is read, if it is not nested too deeply.
  Source: liblinktool/cJSON/cJSON.c, lines 301-375, 767-893, 1032-1055, 1306-1358, 1435-1530 and 1595-1705.
 */
module CJsonGrammar {
  import opened CJsonNumber
  import opened CJsonRead
  import opened CJsonText
  import opened JsonTree
  import opened Wrappers

  // ---------------------------------------------------------------- concrete syntax

  datatype Syntax =
    | SNull
    | SFalse
    | STrue
    | SNum(text: string)
    | SStr(body: string)
    | SArr(gap: string, items: seq<SItem>)
    | SObj(gap: string, members: seq<SMember>)

  /** An item with the blanks around it. */
  datatype SItem = SItem(before: string, value: Syntax, after: string)

  /** A member: blanks, the key between its quotes, blanks, the colon, blanks, the value, blanks. */
  datatype SMember = SMember(before: string, key: string, mid: string, next: string, value: Syntax, after: string)

  function Write(s: Syntax): string
    decreases s, 1
  {
    match s
    case SNull => "null"
    case SFalse => "false"
    case STrue => "true"
    case SNum(text) => text
    case SStr(body) => "\"" + (body + "\"")
    case SArr(gap, items) => "[" + (if items == [] then gap + "]" else WriteItems(items))
    case SObj(gap, ms) => "{" + (if ms == [] then gap + "}" else WriteMembers(ms))
  }

  /** Items with commas between them, and the closing bracket. */
  function WriteItems(items: seq<SItem>): string
    decreases items, 0
  {
    if items == [] then "]"
    else
      items[0].before + (Write(items[0].value) + (items[0].after + (Comma(|items| > 1) + WriteItems(items[1..]))))
  }

  function WriteMembers(ms: seq<SMember>): string
    decreases ms, 0
  {
    if ms == [] then "}"
    else
      WriteKey(ms[0])
      + (ms[0].next + (Write(ms[0].value) + (ms[0].after + (Comma(|ms| > 1) + WriteMembers(ms[1..])))))
  }

  function WriteKey(m: SMember): string {
    m.before + (("\"" + (m.key + "\"")) + (m.mid + ":"))
  }

  ghost predicate Blanks(s: string) {
    forall i :: 0 <= i < |s| ==> Blank(s[i])
  }

  /** What the characters between two quotes stand for, if they are a literal. */
  ghost function Unquoted(body: string): Option<string> {
    var c := body + "\"";
    if Scan(c, 0) == |body| then Unescape(c, 0, |body|) else None
  }

  ghost function Meaning(body: string): string {
    match Unquoted(body)
    case None => []
    case Some(s) => s
  }

  /** A numeral that fits the buffer and is a number as a whole. */
  ghost predicate IsNumber(text: string) {
    Numeral(text, NUMBER_ROOM) && Strtod(text).Some? && Strtod(text).value.length == |text|
  }

  ghost function NumberIn(text: string): int {
    match Strtod(text)
    case None => 0
    case Some(t) => t.number
  }

  ghost predicate WellWritten(s: Syntax)
    decreases s, 1
  {
    match s
    case SNum(text) => IsNumber(text)
    case SStr(body) => Unquoted(body).Some?
    case SArr(gap, items) =>
      Blanks(gap) && GoodItems(items)
    case SObj(gap, ms) =>
      Blanks(gap) && GoodMembers(ms)
    case _ => true
  }

  ghost predicate GoodItems(items: seq<SItem>)
    decreases items, 0
  {
    items == [] || (GoodItem(items[0]) && GoodItems(items[1..]))
  }

  ghost predicate GoodMembers(ms: seq<SMember>)
    decreases ms, 0
  {
    ms == [] || (GoodMember(ms[0]) && GoodMembers(ms[1..]))
  }

  ghost predicate GoodItem(i: SItem)
    decreases i
  {
    Blanks(i.before) && WellWritten(i.value) && Blanks(i.after)
  }

  ghost predicate GoodMember(m: SMember)
    decreases m
  {
    && Blanks(m.before) && Unquoted(m.key).Some? && Blanks(m.mid) && Blanks(m.next)
    && WellWritten(m.value) && Blanks(m.after)
  }

  /** The tree that a syntax stands for. */
  ghost function Tree(s: Syntax): Json
    decreases s, 1
  {
    match s
    case SNull => Null
    case SFalse => Bool(false)
    case STrue => Bool(true)
    case SNum(text) => Num(NumberIn(text))
    case SStr(body) => Str(Meaning(body))
    case SArr(_, items) => Arr(Items(items))
    case SObj(_, ms) => Obj(Members(ms))
  }

  ghost function Items(items: seq<SItem>): seq<Json>
    decreases items, 0
  {
    if items == [] then [] else [Tree(items[0].value)] + Items(items[1..])
  }

  ghost function Members(ms: seq<SMember>): seq<Member>
    decreases ms, 0
  {
    if ms == [] then [] else [Member(Meaning(ms[0].key), Tree(ms[0].value))] + Members(ms[1..])
  }

  // ---------------------------------------------------------------- literals in place

  /** A literal is scanned where it stands as it is alone. */
  lemma {:induction false} ScanLocal(content: string, p: nat, body: string, i: nat)
    requires At(content, p, body + "\"") && i <= |body| + 1
    ensures Scan(body + "\"", i) <= |body| ==> Scan(content, p + i) == p + Scan(body + "\"", i)
    ensures Scan(content, p + i) <= p + |body| ==> Scan(body + "\"", i) == Scan(content, p + i) - p
    decreases |body| + 1 - i
  {
    var c := body + "\"";
    if i < |c| {
      AtChar(content, p, c, i);
      if c[i] == '\"' {
      } else if c[i] == '\\' {
        if i + 1 < |c| { ScanLocal(content, p, body, i + 2); }
      } else {
        ScanLocal(content, p, body, i + 1);
      }
    }
  }

  lemma {:induction false} UnescapeLocal(content: string, p: nat, body: string, i: nat)
    requires At(content, p, body + "\"") && p + |body| < |content|
    ensures Unescape(content, p + i, p + |body|) == Unescape(body + "\"", i, |body|)
    decreases |body| - i
  {
    hide ReadOne, At;
    if i < |body| {
      OneLocal(content, p, body, i);
      var one := ReadOne(body + "\"", i, |body|);
      if one.Some? { UnescapeLocal(content, p, body, i + one.value.length); }
    }
  }

  lemma OneLocal(content: string, p: nat, body: string, i: nat)
    requires At(content, p, body + "\"") && i < |body| && p + |body| < |content|
    ensures ReadOne(content, p + i, p + |body|) == ReadOne(body + "\"", i, |body|)
  {
    hide Hex4, Utf8, ReadUtf16, At;
    var c := body + "\"";
    AtChar(content, p, c, i);
    AtChar(content, p, c, i + 1);
    Utf16Local(content, p, body, i);
  }

  lemma Utf16Local(content: string, p: nat, body: string, i: nat)
    requires At(content, p, body + "\"") && i < |body| && p + |body| < |content|
    ensures ReadUtf16(content, p + i, p + |body|) == ReadUtf16(body + "\"", i, |body|)
  {
    hide Hex4, Utf8, At;
    var c := body + "\"";
    if |body| - i >= 6 {
      AtSlice(content, p, c, i + 2, i + 6);
      if |body| - i >= 12 {
        AtChar(content, p, c, i + 6);
        AtChar(content, p, c, i + 7);
        AtSlice(content, p, c, i + 8, i + 12);
      }
    }
  }

  lemma AtSlice(content: string, p: nat, text: string, i: nat, j: nat)
    requires At(content, p, text) && i <= j <= |text|
    ensures p + j <= |content| && content[p + i..p + j] == text[i..j]
  {
    forall k | i <= k < j ensures content[p + k] == text[k] {
      AtChar(content, p, text, k);
    }
  }

  lemma LiteralAt(content: string, p: nat, body: string)
    requires Ended(content) && At(content, p, body + "\"")
    ensures p + |body| < |content|
    ensures Unquoted(body).Some? ==>
              Scan(content, p) == p + |body| && Unescape(content, p, p + |body|) == Some(Meaning(body))
    ensures Scan(content, p) == p + |body| ==> Unescape(content, p, p + |body|) == Unquoted(body)
  {
    AtChar(content, p, body + "\"", |body|);
    ScanLocal(content, p, body, 0);
    hide Scan, Unescape, At;
    UnescapeLocal(content, p, body, 0);
  }

  /** A string literal is read as what it stands for. */
  lemma StringRead(content: string, o: nat, body: string)
    requires Ended(content) && At(content, o, "\"" + (body + "\"")) && Unquoted(body).Some?
    ensures o < |content| && content[o] == '\"' && ReadString(content, o) == Got(Meaning(body), o + |body| + 2)
  {
    hide At, Unquoted, Scan, Unescape, Meaning;
    AtSplit(content, o, "\"", body + "\"");
    AtFirst(content, o, "\"");
    LiteralAt(content, o + 1, body);
  }

  /** And whatever is read is a literal. */
  lemma StringFound(content: string, o: nat) returns (body: string)
    requires Ended(content) && o < |content| && ReadString(content, o).Got?
    ensures At(content, o, "\"" + (body + "\"")) && Unquoted(body).Some?
    ensures ReadString(content, o) == Got(Meaning(body), o + |body| + 2)
  {
    var end := Scan(content, o + 1);
    body := content[o + 1..end];
    assert content[o + 1..end + 1] == body + "\"";
    assert content[o..o + 1] == "\"";
    AtSplit(content, o, "\"", body + "\"");
    hide Unquoted, Scan, Unescape;
    LiteralAt(content, o + 1, body);
  }

  // ---------------------------------------------------------------- blanks

  lemma {:induction false} SkipOver(content: string, p: nat, ws: string)
    requires At(content, p, ws) && Blanks(ws) && p + |ws| < |content| && !Blank(content[p + |ws|])
    ensures Skip(content, p) == p + |ws|
    decreases |ws|
  {
    if ws != [] {
      AtFirst(content, p, ws);
      assert ws == [ws[0]] + ws[1..];
      AtSplit(content, p, [ws[0]], ws[1..]);
      SkipOver(content, p + 1, ws[1..]);
    }
  }

  /** The blanks skipped. */
  lemma {:induction false} SkippedBlanks(content: string, p: nat)
    requires p < |content|
    ensures Blanks(content[p..Skip(content, p)]) && At(content, p, content[p..Skip(content, p)])
    ensures Skip(content, p) == |content| - 1 || !Blank(content[Skip(content, p)])
    decreases |content| - p
  {
    if Blank(content[p]) && p + 1 < |content| {
      SkippedBlanks(content, p + 1);
      var s := Skip(content, p);
      assert content[p..s] == [content[p]] + content[p + 1..s];
    }
  }

  // ---------------------------------------------------------------- what is written is read

  /** The first character of a value tells which it is. */
  lemma Starts(s: Syntax)
    requires WellWritten(s)
    ensures Write(s) != []
    ensures var c := Write(s)[0];
            && !Blank(c) && c != ']' && c != '}'
            && (c == 'n' <==> s.SNull?) && (c == 'f' <==> s.SFalse?) && (c == 't' <==> s.STrue?)
            && (c == '\"' <==> s.SStr?) && (c == '[' <==> s.SArr?) && (c == '{' <==> s.SObj?)
            && (NumberStart(c) <==> s.SNum?)
  {
    hide Blanks, GoodItems, GoodMembers, Unquoted;
  }

  lemma StartsAt(content: string, o: nat, s: Syntax)
    requires At(content, o, Write(s)) && WellWritten(s)
    ensures o < |content| && content[o] == Write(s)[0] && !Blank(content[o])
    ensures Here(content, o, "null") <==> s.SNull?
    ensures Here(content, o, "false") <==> s.SFalse?
    ensures Here(content, o, "true") <==> s.STrue?
    ensures (content[o] == '\"' <==> s.SStr?) && (content[o] == '[' <==> s.SArr?) && (content[o] == '{' <==> s.SObj?)
    ensures (NumberStart(content[o]) <==> s.SNum?) && content[o] != ']' && content[o] != '}'
  {
    hide WellWritten;
    Starts(s);
    AtFirst(content, o, Write(s));
    HereStarts(content, o, "null");
    HereStarts(content, o, "false");
    HereStarts(content, o, "true");
  }

  lemma HereStarts(content: string, o: nat, word: string)
    requires word != [] && o < |content|
    ensures Here(content, o, word) ==> content[o] == word[0]
    ensures At(content, o, word) <==> Here(content, o, word)
  {
    if Here(content, o, word) { assert content[o..o + |word|][0] == word[0]; }
  }

  /** The items read so far, and those that follow. */
  ghost function Joined<T>(acc: seq<T>, rest: seq<T>): seq<T> {
    acc + rest
  }

  lemma JoinedFrom<T>(rest: seq<T>)
    ensures Joined([], rest) == rest
  {
  }

  lemma JoinedOn<T>(acc: seq<T>, t: T, rest: seq<T>)
    ensures Joined(acc + [t], rest) == Joined(acc, [t] + rest)
    ensures Joined(acc + [t], []) == acc + [t]
  {
  }

  /** What strtod takes of the text behind a number is that number. */
  ghost predicate Settled(content: string, o: nat, s: Syntax) {
    s.SNum? ==> o <= |content| && Strtod(Run(content, o)) == Strtod(s.text)
  }

  /** So it is if no character of a number follows. */
  lemma ApartSettled(content: string, o: nat, s: Syntax)
    requires At(content, o, Write(s)) && WellWritten(s) && o + |Write(s)| < |content|
    requires !NumberChar(content[o + |Write(s)|])
    ensures Settled(content, o, s)
  {
    hide RunEnd, Run, WellWritten;
    if s.SNum? {
      NumberWritten(s);
      RunInside(content, o, s.text);
      RunOfNumeral(s.text);
    }
  }

  lemma NumberWritten(s: Syntax)
    requires s.SNum? && WellWritten(s)
    ensures IsNumber(s.text)
  {
  }

  /** A number is read as far as strtod takes it. */
  lemma NumberRead(content: string, o: nat, s: Syntax)
    requires Ended(content) && o < |content| && s.SNum? && WellWritten(s) && Settled(content, o, s)
    ensures ReadNumber(content, o) == Got(Tree(s), o + |Write(s)|) && Nest(Tree(s)) == 0
  {
    hide Run;
    NumberWritten(s);
  }

  ghost predicate AsFar(r: Read<Json>, ok: bool, t: Json, end: nat) {
    r == if ok then Got(t, end) else Fail
  }

  /** A value is read exactly if it is not nested too deeply. */
  lemma {:induction false} ValueRead(content: string, o: nat, depth: nat, s: Syntax)
    requires Ended(content) && At(content, o, Write(s)) && WellWritten(s) && depth <= NESTING_LIMIT
    requires Settled(content, o, s)
    ensures o < |content|
    ensures AsFar(ReadValue(content, o, depth), depth + Nest(Tree(s)) <= NESTING_LIMIT, Tree(s), o + |Write(s)|)
    decreases s, 3
  {
    hide ReadArray, ReadObject, ReadString, ReadNumber, IsNumber, At, Here, NestItems, NestMembers, WriteItems;
    hide WriteMembers, Items, Members,
      Unquoted, Meaning, Blanks, GoodItems, GoodMembers;
    StartsAt(content, o, s);
    match s
    case SNum(_) => NumberRead(content, o, s);
    case SStr(body) => StringRead(content, o, body);
    case SArr(gap, items) => ArrayRead(content, o, depth, s);
    case SObj(gap, ms) => ObjectRead(content, o, depth, s);
    case _ =>
  }

  /** Only blanks before the closing bracket. */
  lemma EmptyRead(content: string, p: nat, gap: string, close: string)
    requires At(content, p, gap + close) && Blanks(gap) && |close| == 1 && !Blank(close[0])
    ensures p < |content| && p + |gap| < |content| && Skip(content, p) == p + |gap| && content[p + |gap|] == close[0]
  {
    AtSplit(content, p, gap, close);
    AtFirst(content, p + |gap|, close);
    SkipOver(content, p, gap);
  }

  /** A value between blanks from `q` on, and where what follows it starts. */
  ghost predicate Laid(content: string, q: nat, v: nat, s: Syntax, e: nat, c: nat) {
    && q <= v < e <= c < |content| && At(content, v, Write(s)) && e == v + |Write(s)|
    && Skip(content, q) == v && Skip(content, e) == c && content[v] != ']' && content[v] != '}'
    && Settled(content, v, s)
  }

  lemma ValueLayout(content: string, q: nat, before: string, s: Syntax, after: string, rest: string)
    returns (v: nat, e: nat, c: nat)
    requires At(content, q, before + (Write(s) + (after + rest))) && Blanks(before) && Blanks(after)
    requires rest != [] && !Blank(rest[0]) && !NumberChar(rest[0]) && WellWritten(s)
    ensures Laid(content, q, v, s, e, c) && c == q + |before| + |Write(s)| + |after|
    ensures At(content, c, rest) && content[c] == rest[0]
  {
    hide At, Skip, Write, WellWritten, Settled;
    v := q + |before|;
    e := v + |Write(s)|;
    c := e + |after|;
    AtSplit(content, q, before, Write(s) + (after + rest));
    AtSplit(content, v, Write(s), after + rest);
    AtSplit(content, e, after, rest);
    Starts(s);
    StartsAt(content, v, s);
    AtFirst(content, c, rest);
    SkipOver(content, q, before);
    SkipOver(content, e, after);
    if after != [] { AtFirst(content, e, after); }
    ApartSettled(content, v, s);
  }

  /** What follows a value: more behind a comma, or the end of the list. */
  ghost predicate Follows(content: string, c: nat, more: bool, close: char, rest: string) {
    && c < |content|
    && if more then content[c] == ',' && c + 1 < |content| && At(content, c + 1, rest)
       else content[c] == close && rest == [close]
  }

  lemma FollowsHere(content: string, c: nat, more: bool, close: char, rest: string)
    requires Ended(content) && At(content, c, Comma(more) + rest) && c < |content|
    requires !more ==> rest == [close] && content[c] == close
    ensures Follows(content, c, more, close, rest)
  {
    if more {
      AtSplit(content, c, ",", rest);
      AtFirst(content, c, ",");
      NotLast(content, c);
    }
  }

  lemma ItemsGoOn(items: seq<SItem>)
    ensures var text := Comma(items != []) + WriteItems(items);
            text != [] && text[0] == (if items == [] then ']' else ',')
  {
  }

  lemma ItemsWritten(items: seq<SItem>)
    requires items != []
    ensures WriteItems(items)
            == items[0].before + (Write(items[0].value) + (items[0].after
               + (Comma(items[1..] != []) + WriteItems(items[1..]))))
    ensures WriteItems([]) == "]"
  {
  }

  lemma GoodParts(items: seq<SItem>)
    requires items != [] && GoodItems(items)
    ensures var i := items[0];
            GoodItem(i) && Blanks(i.before) && WellWritten(i.value) && Blanks(i.after) && GoodItems(items[1..])
  {
  }

  lemma ItemLayout(content: string, q: nat, items: seq<SItem>) returns (v: nat, e: nat, c: nat)
    requires Ended(content) && items != [] && At(content, q, WriteItems(items)) && GoodItems(items)
    ensures Laid(content, q, v, items[0].value, e, c)
    ensures Follows(content, c, items[1..] != [], ']', WriteItems(items[1..]))
    ensures q + |WriteItems(items)| == c + |Comma(items[1..] != [])| + |WriteItems(items[1..])|
  {
    hide Write, WriteItems, WellWritten, At, Blanks, Skip;
    var i := items[0];
    var rest := items[1..];
    ItemsWritten(items);
    ItemsGoOn(rest);
    GoodParts(items);
    v, e, c := ValueLayout(content, q, i.before, i.value, i.after, Comma(rest != []) + WriteItems(rest));
    hide Comma, Follows;
    FollowsHere(content, c, rest != [], ']', WriteItems(rest));
  }

  lemma FirstItem(content: string, q: nat, items: seq<SItem>)
    requires Ended(content) && items != [] && At(content, q, WriteItems(items)) && GoodItems(items)
    ensures q < |content| && content[Skip(content, q)] != ']'
  {
    hide WriteItems, WellWritten, At, Follows;
    var v, e, c := ItemLayout(content, q, items);
  }

  /** One round of reading a list. */
  lemma ItemStep(content: string, q: nat, depth: nat, acc: seq<Json>, v: nat, s: Syntax, e: nat, c: nat, ok: bool)
    requires Ended(content) && Laid(content, q, v, s, e, c) && depth <= NESTING_LIMIT
    requires AsFar(ReadValue(content, v, depth), ok, Tree(s), e)
    ensures var r := ReadItems(content, q, depth, acc);
            && (!ok ==> r.Fail?)
            && (ok && content[c] == ']' ==> r == Got(Arr(acc + [Tree(s)]), c + 1))
            && (ok && content[c] == ',' && c + 1 < |content| ==>
                  r == ReadItems(content, c + 1, depth, acc + [Tree(s)]))
  {
    hide ReadValue, Tree, Write, At, Skip;
  }

  /** The items read so far, and the rest. */
  lemma ItemsTree(items: seq<SItem>)
    requires items != []
    ensures var t := Tree(items[0].value);
            && Items(items) == [t] + Items(items[1..])
            && NestItems(Items(items)) == Max(Nest(t), NestItems(Items(items[1..])))
    ensures Items([]) == [] && NestItems([]) == 0
  {
    hide Tree, Nest;
    var t := Tree(items[0].value);
    assert ([t] + Items(items[1..]))[1..] == Items(items[1..]);
  }

  lemma {:induction false} ItemsRead(content: string, q: nat, depth: nat, acc: seq<Json>, items: seq<SItem>)
    requires Ended(content) && items != [] && At(content, q, WriteItems(items)) && depth <= NESTING_LIMIT
        && q < |content|
    requires GoodItems(items)
    ensures AsFar(ReadItems(content, q, depth, acc), depth + NestItems(Items(items)) <= NESTING_LIMIT,
                  Arr(Joined(acc, Items(items))), q + |WriteItems(items)|)
    decreases items, 0
  {
    hide At, Skip, Write, WriteItems, WellWritten, ReadValue, ReadItems, Tree, Items, Nest, NestItems,
      GoodItem, GoodItems, Joined;
    var s := items[0].value;
    var rest := items[1..];
    ItemsWritten(items);
    GoodParts(items);
    var v, e, c := ItemLayout(content, q, items);
    ValueRead(content, v, depth, s);
    ItemStep(content, q, depth, acc, v, s, e, c, depth + Nest(Tree(s)) <= NESTING_LIMIT);
    ItemsTree(items);
    JoinedOn(acc, Tree(s), Items(rest));
    if rest != [] { ItemsRead(content, c + 1, depth, acc + [Tree(s)], rest); }
  }

  lemma ArrayWritten(s: Syntax)
    requires s.SArr?
    ensures Write(s) == "[" + (if s.items == [] then s.gap + "]" else WriteItems(s.items))
    ensures WellWritten(s) ==> Blanks(s.gap) && GoodItems(s.items)
    ensures Tree(s) == Arr(Items(s.items)) && Nest(Tree(s)) == 1 + NestItems(Items(s.items))
    ensures s.items == [] ==> Items(s.items) == [] && NestItems(Items(s.items)) == 0
  {
  }

  lemma {:induction false} ArrayRead(content: string, o: nat, depth: nat, s: Syntax)
    requires Ended(content) && s.SArr? && At(content, o, Write(s)) && WellWritten(s) && depth <= NESTING_LIMIT
    requires o < |content| && content[o] == '['
    ensures AsFar(ReadArray(content, o, depth), depth + Nest(Tree(s)) <= NESTING_LIMIT, Tree(s), o + |Write(s)|)
    decreases s, 2
  {
    hide At, Skip, Write, WriteItems, WellWritten, ReadArray, ReadItems, Tree, Items, Nest, NestItems,
      GoodItem, GoodItems, Blanks, Joined;
    ArrayWritten(s);
    ArrayBegins(content, o, depth);
    if s.items == [] {
      AtSplit(content, o, "[", s.gap + "]");
      EmptyRead(content, o + 1, s.gap, "]");
    } else {
      AtSplit(content, o, "[", WriteItems(s.items));
      FirstItem(content, o + 1, s.items);
      if depth < NESTING_LIMIT {
        ItemsRead(content, o + 1, depth + 1, [], s.items);
        JoinedFrom(Items(s.items));
      }
    }
  }

  lemma MembersGoOn(ms: seq<SMember>)
    ensures var text := Comma(ms != []) + WriteMembers(ms);
            text != [] && text[0] == (if ms == [] then '}' else ',')
  {
  }

  lemma MembersWritten(ms: seq<SMember>)
    requires ms != []
    ensures WriteMembers(ms)
            == WriteKey(ms[0]) + (ms[0].next + (Write(ms[0].value) + (ms[0].after
               + (Comma(ms[1..] != []) + WriteMembers(ms[1..])))))
    ensures WriteMembers([]) == "}"
  {
  }

  /** A key and its colon. */
  lemma KeyRead(content: string, q: nat, m: SMember)
    requires Ended(content) && At(content, q, WriteKey(m)) && GoodMember(m) && q < |content|
    ensures content[Skip(content, q)] != '}'
    ensures ReadKey(content, q) == Got(Meaning(m.key), q + |WriteKey(m)|)
  {
    hide At, Skip, ReadString, Unquoted, Meaning, WellWritten;
    var quoted := "\"" + (m.key + "\"");
    var k := q + |m.before|;
    var e := k + |quoted|;
    AtSplit(content, q, m.before, quoted + (m.mid + ":"));
    AtSplit(content, k, quoted, m.mid + ":");
    StringRead(content, k, m.key);
    SkipOver(content, q, m.before);
    EmptyRead(content, e, m.mid, ":");
  }

  lemma GoodMemberParts(ms: seq<SMember>)
    requires ms != [] && GoodMembers(ms)
    ensures var m := ms[0];
            GoodMember(m) && Blanks(m.next) && WellWritten(m.value) && Blanks(m.after) && GoodMembers(ms[1..])
  {
  }

  lemma MemberLayout(content: string, q: nat, ms: seq<SMember>) returns (n: nat, v: nat, e: nat, c: nat)
    requires Ended(content) && ms != [] && At(content, q, WriteMembers(ms)) && GoodMembers(ms) && q < |content|
    ensures content[Skip(content, q)] != '}' && q <= n && ReadKey(content, q) == Got(Meaning(ms[0].key), n)
    ensures Laid(content, n, v, ms[0].value, e, c)
    ensures Follows(content, c, ms[1..] != [], '}', WriteMembers(ms[1..]))
    ensures q + |WriteMembers(ms)| == c + |Comma(ms[1..] != [])| + |WriteMembers(ms[1..])|
  {
    hide Write, WriteMembers, WriteKey, WellWritten, At, Blanks, Skip, ReadKey, Meaning, Unquoted, GoodMember;
    var m := ms[0];
    var rest := ms[1..];
    var text := Comma(rest != []) + WriteMembers(rest);
    MembersWritten(ms);
    MembersGoOn(rest);
    GoodMemberParts(ms);
    n := q + |WriteKey(m)|;
    AtSplit(content, q, WriteKey(m), m.next + (Write(m.value) + (m.after + text)));
    KeyRead(content, q, m);
    v, e, c := ValueLayout(content, n, m.next, m.value, m.after, text);
    hide Comma, Follows;
    FollowsHere(content, c, rest != [], '}', WriteMembers(rest));
  }

  lemma FirstMember(content: string, q: nat, ms: seq<SMember>)
    requires Ended(content) && ms != [] && At(content, q, WriteMembers(ms)) && GoodMembers(ms) && q < |content|
    ensures content[Skip(content, q)] != '}'
  {
    hide WriteMembers, WellWritten, At, Follows, Skip, Laid;
    var n, v, e, c := MemberLayout(content, q, ms);
  }

  /** One round of reading an object. */
  lemma MemberStep(content: string, q: nat, depth: nat, acc: seq<Member>, key: string, n: nat,
      v: nat, s: Syntax, e: nat, c: nat, ok: bool)
    requires Ended(content) && q < |content| && depth <= NESTING_LIMIT
    requires ReadKey(content, q) == Got(key, n) && Laid(content, n, v, s, e, c)
    requires AsFar(ReadValue(content, v, depth), ok, Tree(s), e)
    ensures var r := ReadMembers(content, q, depth, acc);
            && (!ok ==> r.Fail?)
            && (ok && content[c] == '}' ==> r == Got(Obj(acc + [Member(key, Tree(s))]), c + 1))
            && (ok && content[c] == ',' && c + 1 < |content| ==>
                  r == ReadMembers(content, c + 1, depth, acc + [Member(key, Tree(s))]))
  {
    hide ReadKey, ReadValue, Tree, Write, At, Skip;
  }

  lemma MembersTree(ms: seq<SMember>)
    requires ms != []
    ensures var m := Member(Meaning(ms[0].key), Tree(ms[0].value));
            && Members(ms) == [m] + Members(ms[1..])
            && NestMembers(Members(ms)) == Max(Nest(m.value), NestMembers(Members(ms[1..])))
    ensures Members([]) == [] && NestMembers([]) == 0
  {
    hide Tree, Nest, Meaning;
    var m := Member(Meaning(ms[0].key), Tree(ms[0].value));
    assert ([m] + Members(ms[1..]))[1..] == Members(ms[1..]);
  }

  lemma {:induction false} MembersRead(content: string, q: nat, depth: nat, acc: seq<Member>, ms: seq<SMember>)
    requires Ended(content) && ms != [] && At(content, q, WriteMembers(ms)) && depth <= NESTING_LIMIT && q < |content|
    requires GoodMembers(ms)
    ensures AsFar(ReadMembers(content, q, depth, acc), depth + NestMembers(Members(ms)) <= NESTING_LIMIT,
                  Obj(Joined(acc, Members(ms))), q + |WriteMembers(ms)|)
    decreases ms, 0
  {
    hide At, Skip, Write, WriteMembers, WriteKey, WellWritten, ReadKey, ReadValue, ReadMembers,
      Tree, Members, Nest, NestMembers, GoodMember, GoodMembers, Meaning, Joined;
    var s := ms[0].value;
    var rest := ms[1..];
    var m := Member(Meaning(ms[0].key), Tree(s));
    MembersWritten(ms);
    GoodMemberParts(ms);
    var n, v, e, c := MemberLayout(content, q, ms);
    ValueRead(content, v, depth, s);
    MemberStep(content, q, depth, acc, m.key, n, v, s, e, c, depth + Nest(Tree(s)) <= NESTING_LIMIT);
    MembersTree(ms);
    JoinedOn(acc, m, Members(rest));
    if rest != [] { MembersRead(content, c + 1, depth, acc + [m], rest); }
  }

  lemma ObjectWritten(s: Syntax)
    requires s.SObj?
    ensures Write(s) == "{" + (if s.members == [] then s.gap + "}" else WriteMembers(s.members))
    ensures WellWritten(s) ==> Blanks(s.gap) && GoodMembers(s.members)
    ensures Tree(s) == Obj(Members(s.members)) && Nest(Tree(s)) == 1 + NestMembers(Members(s.members))
    ensures s.members == [] ==> Members(s.members) == [] && NestMembers(Members(s.members)) == 0
  {
  }

  lemma {:induction false} ObjectRead(content: string, o: nat, depth: nat, s: Syntax)
    requires Ended(content) && s.SObj? && At(content, o, Write(s)) && WellWritten(s) && depth <= NESTING_LIMIT
    requires o < |content| && content[o] == '{'
    ensures AsFar(ReadObject(content, o, depth), depth + Nest(Tree(s)) <= NESTING_LIMIT, Tree(s), o + |Write(s)|)
    decreases s, 2
  {
    hide At, Skip, Write, WriteMembers, WellWritten, ReadObject, ReadMembers, Tree, Members, Nest, NestMembers,
      GoodMember, GoodMembers, Blanks, ReadKey, Meaning, Joined;
    ObjectWritten(s);
    ObjectBegins(content, o, depth);
    if s.members == [] {
      AtSplit(content, o, "{", s.gap + "}");
      EmptyRead(content, o + 1, s.gap, "}");
    } else {
      AtSplit(content, o, "{", WriteMembers(s.members));
      FirstMember(content, o + 1, s.members);
      if depth < NESTING_LIMIT {
        MembersRead(content, o + 1, depth + 1, [], s.members);
        JoinedFrom(Members(s.members));
      }
    }
  }
}
