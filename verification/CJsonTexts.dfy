/**
  JSON texts: whatever the parser reads is in the grammar, and exactly which whole texts it accepts.
  Source: liblinktool/cJSON/cJSON.c, lines 301-375, 767-893, 1032-1132, 1306-1358, 1435-1530 and 1595-1705.
 */
module CJsonTexts {
  import opened CJsonGrammar
  import opened CJsonNumber
  import opened CJsonRead
  import opened CJsonText
  import opened JsonTree
  import opened Wrappers

  // ---------------------------------------------------------------- what is read is written so

  /** A syntax stands at a position and is what was read there. */
  ghost predicate Stands(content: string, o: nat, s: Syntax, r: Read<Json>) {
    WellWritten(s) && At(content, o, Write(s)) && Settled(content, o, s) && r == Got(Tree(s), o + |Write(s)|)
  }

  ghost predicate ItemsStand(content: string, q: nat, items: seq<SItem>, acc: seq<Json>, r: Read<Json>) {
    && items != [] && GoodItems(items) && At(content, q, WriteItems(items))
    && r == Got(Arr(Joined(acc, Items(items))), q + |WriteItems(items)|)
  }

  ghost predicate MembersStand(content: string, q: nat, ms: seq<SMember>, acc: seq<Member>, r: Read<Json>) {
    && ms != [] && GoodMembers(ms) && At(content, q, WriteMembers(ms))
    && r == Got(Obj(Joined(acc, Members(ms))), q + |WriteMembers(ms)|)
  }

  lemma NumberFound(content: string, o: nat) returns (s: Syntax)
    requires Ended(content) && o < |content| && NumberStart(content[o]) && ReadNumber(content, o).Got?
    ensures Stands(content, o, s, ReadNumber(content, o))
  {
    hide RunEnd;
    var run := Run(content, o);
    var t := Strtod(run).value;
    TakenInside(content, o);
    var text := run[..t.length];
    s := SNum(text);
    assert content[o..o + |text|] == text;
    assert text[0] == content[o];
  }

  /** Whatever value is read has a syntax that stands there. */
  lemma {:induction false} ValueFound(content: string, o: nat, depth: nat) returns (s: Syntax)
    requires Ended(content) && o < |content| && depth <= NESTING_LIMIT && ReadValue(content, o, depth).Got?
    ensures Stands(content, o, s, ReadValue(content, o, depth))
    decreases |content| - o, 3
  {
    hide ReadString, ReadNumber, ReadArray, ReadObject, Here, At, Unquoted, Meaning, WriteItems, WriteMembers, IsNumber;
    HereStarts(content, o, "null");
    HereStarts(content, o, "false");
    HereStarts(content, o, "true");
    if Here(content, o, "null") { s := SNull; }
    else if Here(content, o, "false") { s := SFalse; }
    else if Here(content, o, "true") { s := STrue; }
    else if content[o] == '\"' {
      var body := StringFound(content, o);
      s := SStr(body);
    } else if NumberStart(content[o]) {
      s := NumberFound(content, o);
    } else if content[o] == '[' {
      s := ArrayFound(content, o, depth);
    } else {
      s := ObjectFound(content, o, depth);
    }
  }

  /** Blanks up to the next character. */
  lemma GapFound(content: string, p: nat, close: string)
    requires p < |content| && |close| == 1 && content[Skip(content, p)] == close[0]
    ensures Blanks(content[p..Skip(content, p)]) && At(content, p, content[p..Skip(content, p)] + close)
    ensures |content[p..Skip(content, p)]| == Skip(content, p) - p
  {
    hide Blanks;
    SkippedBlanks(content, p);
    var c := Skip(content, p);
    assert content[c..c + 1] == close;
    AtSplit(content, p, content[p..c], close);
  }

  lemma {:induction false} ArrayFound(content: string, o: nat, depth: nat) returns (s: Syntax)
    requires Ended(content) && o < |content| && depth <= NESTING_LIMIT && content[o] == '['
    requires ReadArray(content, o, depth).Got?
    ensures Stands(content, o, s, ReadArray(content, o, depth))
    decreases |content| - o, 2
  {
    hide ReadArray, ReadItems, Skip, At, Write, WriteItems, WellWritten, Tree, Items, GoodItems, Blanks, Joined, Nest,
      NestItems;
    ArrayBegins(content, o, depth);
    Bracket(content, o, "[");
    var p := Skip(content, o + 1);
    if content[p] == ']' {
      GapFound(content, o + 1, "]");
      var gap := content[o + 1..p];
      s := SArr(gap, []);
      NoItemsGood();
      AtSplit(content, o, "[", gap + "]");
    } else {
      var items := ItemsFound(content, o + 1, depth + 1, []);
      s := SArr([], items);
      NoBlanks();
      JoinedFrom(Items(items));
      AtSplit(content, o, "[", WriteItems(items));
    }
    ArrayWritten(s);
    ArrayGood(s);
  }

  lemma Bracket(content: string, o: nat, text: string)
    requires o < |content| && |text| == 1 && content[o] == text[0]
    ensures At(content, o, text)
  {
    assert content[o..o + 1] == text;
  }

  lemma NoBlanks()
    ensures Blanks([])
  {
  }

  lemma NoItemsGood()
    ensures GoodItems([]) && GoodMembers([])
  {
  }

  lemma ArrayGood(s: Syntax)
    requires s.SArr?
    ensures WellWritten(s) <==> Blanks(s.gap) && GoodItems(s.items)
  {
    hide Blanks, GoodItems;
  }

  /** A value with the blanks around it, and what follows. */
  lemma AroundValue(content: string, q: nat, v: nat, s: Syntax, e: nat, c: nat, rest: string)
    requires q < |content| && v == Skip(content, q) && At(content, v, Write(s)) && e == v + |Write(s)| && e < |content|
    requires c == Skip(content, e) && At(content, c, rest)
    ensures Blanks(content[q..v]) && Blanks(content[e..c])
    ensures At(content, q, content[q..v] + (Write(s) + (content[e..c] + rest)))
    ensures |content[q..v]| == v - q && |content[e..c]| == c - e
  {
    hide Skip, At, Write, Blanks;
    SkippedBlanks(content, q);
    SkippedBlanks(content, e);
    var before, after := content[q..v], content[e..c];
    AtSplit(content, e, after, rest);
    AtSplit(content, v, Write(s), after + rest);
    AtSplit(content, q, before, Write(s) + (after + rest));
  }

  lemma ItemsBuilt(i: SItem, rest: seq<SItem>)
    requires Blanks(i.before) && WellWritten(i.value) && Blanks(i.after) && GoodItems(rest)
    ensures GoodItems([i] + rest)
    ensures WriteItems([i] + rest) == i.before + (Write(i.value) + (i.after + (Comma(rest != []) + WriteItems(rest))))
    ensures Items([i] + rest) == [Tree(i.value)] + Items(rest)
    ensures Items([]) == [] && WriteItems([]) == "]"
  {
    hide Write, Tree, WellWritten, Blanks;
    assert ([i] + rest)[1..] == rest;
  }

  lemma {:induction false} ItemsFound(content: string, q: nat, depth: nat, acc: seq<Json>) returns (items: seq<SItem>)
    requires Ended(content) && q < |content| && depth <= NESTING_LIMIT && ReadItems(content, q, depth, acc).Got?
    ensures ItemsStand(content, q, items, acc, ReadItems(content, q, depth, acc))
    decreases |content| - q, 4
  {
    hide ReadValue, ReadItems, Skip, At, Write, WriteItems, WellWritten, Tree, Items, GoodItems, Blanks, Joined;
    var v := Skip(content, q);
    ItemsUnfold(content, q, depth, acc);
    var s := ValueFound(content, v, depth);
    var e := v + |Write(s)|;
    var c := Skip(content, e);
    var rest := [];
    if content[c] == ',' {
      Bracket(content, c, ",");
      rest := ItemsFound(content, c + 1, depth, acc + [Tree(s)]);
      AtSplit(content, c, ",", WriteItems(rest));
    } else {
      Bracket(content, c, "]");
      NoItemsGood();
    }
    ItemsEnd(rest);
    AroundValue(content, q, v, s, e, c, Comma(rest != []) + WriteItems(rest));
    var i := SItem(content[q..v], s, content[e..c]);
    ItemsBuilt(i, rest);
    JoinedOn(acc, Tree(s), Items(rest));
    items := [i] + rest;
  }

  lemma ItemsEnd(items: seq<SItem>)
    ensures items == [] ==> Comma(items != []) + WriteItems(items) == "]" && Items(items) == []
  {
  }

  /** What is read from `q` on, if it is read. */
  lemma ItemsUnfold(content: string, q: nat, depth: nat, acc: seq<Json>)
    requires Ended(content) && q < |content| && depth <= NESTING_LIMIT && ReadItems(content, q, depth, acc).Got?
    ensures var v := ReadValue(content, Skip(content, q), depth);
            && v.Got? && v.end < |content|
            && var c := Skip(content, v.end);
            if content[c] == ',' then
              && c + 1 < |content|
              && ReadItems(content, q, depth, acc) == ReadItems(content, c + 1, depth, acc + [v.value])
            else
              content[c] == ']' && ReadItems(content, q, depth, acc) == Got(Arr(acc + [v.value]), c + 1)
  {
    hide ReadValue, Skip;
    var c := Skip(content, ReadValue(content, Skip(content, q), depth).end);
    if content[c] == ',' { NotLast(content, c); }
  }

  lemma {:induction false} ObjectFound(content: string, o: nat, depth: nat) returns (s: Syntax)
    requires Ended(content) && o < |content| && depth <= NESTING_LIMIT && content[o] == '{'
    requires ReadObject(content, o, depth).Got?
    ensures Stands(content, o, s, ReadObject(content, o, depth))
    decreases |content| - o, 2
  {
    hide ReadObject, ReadMembers, Skip, At, Write, WriteMembers, WellWritten, Tree, Members, GoodMembers, Blanks;
    hide Joined, Nest, NestMembers;
    ObjectBegins(content, o, depth);
    Bracket(content, o, "{");
    var p := Skip(content, o + 1);
    if content[p] == '}' {
      GapFound(content, o + 1, "}");
      var gap := content[o + 1..p];
      s := SObj(gap, []);
      NoItemsGood();
      AtSplit(content, o, "{", gap + "}");
    } else {
      var ms := MembersFound(content, o + 1, depth + 1, []);
      s := SObj([], ms);
      NoBlanks();
      JoinedFrom(Members(ms));
      AtSplit(content, o, "{", WriteMembers(ms));
    }
    ObjectWritten(s);
    ObjectGood(s);
  }

  lemma ObjectGood(s: Syntax)
    requires s.SObj?
    ensures WellWritten(s) <==> Blanks(s.gap) && GoodMembers(s.members)
  {
    hide Blanks, GoodMembers;
  }

  /** A key that was read, in a member whose value is still to come. */
  lemma KeyFound(content: string, q: nat) returns (m: SMember)
    requires Ended(content) && q < |content| && ReadKey(content, q).Got?
    ensures Blanks(m.before) && Unquoted(m.key).Some? && Blanks(m.mid) && At(content, q, WriteKey(m))
    ensures ReadKey(content, q) == Got(Meaning(m.key), q + |WriteKey(m)|)
  {
    hide ReadString, Skip, At, Blanks, Unquoted, Meaning;
    var k := Skip(content, q);
    SkippedBlanks(content, q);
    var key := StringFound(content, k);
    var quoted := "\"" + (key + "\"");
    var e := k + |quoted|;
    GapFound(content, e, ":");
    var before, mid := content[q..k], content[e..Skip(content, e)];
    AtSplit(content, k, quoted, mid + ":");
    AtSplit(content, q, before, quoted + (mid + ":"));
    m := SMember(before, key, mid, [], SNull, []);
  }

  lemma MembersBuilt(m: SMember, rest: seq<SMember>)
    requires Blanks(m.before) && Unquoted(m.key).Some? && Blanks(m.mid) && Blanks(m.next)
    requires WellWritten(m.value) && Blanks(m.after) && GoodMembers(rest)
    ensures GoodMembers([m] + rest)
    ensures WriteMembers([m] + rest)
            == WriteKey(m) + (m.next + (Write(m.value) + (m.after + (Comma(rest != []) + WriteMembers(rest)))))
    ensures Members([m] + rest) == [Member(Meaning(m.key), Tree(m.value))] + Members(rest)
  {
    hide Write, WriteKey, Tree, WellWritten, Blanks, Unquoted, Meaning;
    assert ([m] + rest)[1..] == rest;
  }

  lemma MembersEnd(ms: seq<SMember>)
    ensures ms == [] ==> Comma(ms != []) + WriteMembers(ms) == "}" && Members(ms) == []
  {
  }

  lemma MembersUnfold(content: string, q: nat, depth: nat, acc: seq<Member>)
    requires Ended(content) && q < |content| && depth <= NESTING_LIMIT && ReadMembers(content, q, depth, acc).Got?
    ensures ReadKey(content, q).Got?
    ensures var key := ReadKey(content, q);
            var v := ReadValue(content, Skip(content, key.end), depth);
            && v.Got? && v.end < |content|
            && var c := Skip(content, v.end);
            var acc' := acc + [Member(key.value, v.value)];
            if content[c] == ',' then
              && c + 1 < |content|
              && ReadMembers(content, q, depth, acc) == ReadMembers(content, c + 1, depth, acc')
            else
              content[c] == '}' && ReadMembers(content, q, depth, acc) == Got(Obj(acc'), c + 1)
  {
    hide ReadValue, ReadKey, Skip;
    var c := Skip(content, ReadValue(content, Skip(content, ReadKey(content, q).end), depth).end);
    if content[c] == ',' { NotLast(content, c); }
  }

  lemma {:induction false} MembersFound(content: string, q: nat, depth: nat, acc: seq<Member>)
      returns (ms: seq<SMember>)
    requires Ended(content) && q < |content| && depth <= NESTING_LIMIT && ReadMembers(content, q, depth, acc).Got?
    ensures MembersStand(content, q, ms, acc, ReadMembers(content, q, depth, acc))
    decreases |content| - q, 4
  {
    hide ReadValue, ReadKey, ReadMembers, Skip, At, Write, WriteMembers, WellWritten, Tree, Members, GoodMembers;
    hide Blanks, Joined, Unquoted, Meaning;
    MembersUnfold(content, q, depth, acc);
    var m := KeyFound(content, q);
    var n := q + |WriteKey(m)|;
    var v := Skip(content, n);
    var s := ValueFound(content, v, depth);
    var e := v + |Write(s)|;
    var c := Skip(content, e);
    var t := Member(Meaning(m.key), Tree(s));
    var rest := [];
    if content[c] == ',' {
      Bracket(content, c, ",");
      rest := MembersFound(content, c + 1, depth, acc + [t]);
      AtSplit(content, c, ",", WriteMembers(rest));
    } else {
      Bracket(content, c, "}");
      NoItemsGood();
    }
    MembersEnd(rest);
    AroundValue(content, n, v, s, e, c, Comma(rest != []) + WriteMembers(rest));
    m := m.(next := content[n..v], value := s, after := content[e..c]);
    AtSplit(content, q, WriteKey(m), m.next + (Write(s) + (m.after + (Comma(rest != []) + WriteMembers(rest)))));
    MembersBuilt(m, rest);
    JoinedOn(acc, t, Members(rest));
    ms := [m] + rest;
  }

  // ---------------------------------------------------------------- whole texts

  /** A value between blanks; what is behind it matters only if the text has to end there. */
  ghost predicate IsText(body: string, requireEnd: bool, before: string, s: Syntax, after: string) {
    && body == before + (Write(s) + after) && Blanks(before) && WellWritten(s)
    && (requireEnd ==> Blanks(after)) && SettledBefore(s, after)
  }

  /** What strtod takes of the text behind a number is that number. */
  ghost predicate SettledBefore(s: Syntax, after: string) {
    s.SNum? ==> Strtod(Run(s.text + after, 0)) == Strtod(s.text)
  }

  lemma SettledInText(value: string, v: nat, s: Syntax, after: string)
    requires v <= |value| && value[v..] == Write(s) + after
    ensures Settled(value + [0 as char], v, s) <==> SettledBefore(s, after)
  {
    hide Run;
    var content := value + [0 as char];
    if s.SNum? {
      assert content[v..|value|] == value[v..];
      RunInside(content, v, s.text + after);
    }
  }

  /** Where the value ends, or the whole text if nothing but blanks may follow. */
  function EndOf(value: string, requireEnd: bool, before: string, s: Syntax): nat {
    if requireEnd then |value| else Start(value) + |before| + |Write(s)|
  }

  /** The text, without a byte order mark, is in the grammar and stands for a tree; parsing it ends there. */
  ghost predicate Derives(value: string, requireEnd: bool, t: Json, end: nat) {
    exists before, s, after ::
      && IsText(value[Start(value)..], requireEnd, before, s, after)
      && Tree(s) == t && end == EndOf(value, requireEnd, before, s)
  }

  lemma {:induction false} SkipRest(content: string, p: nat)
    requires p < |content| && forall i :: p <= i < |content| - 1 ==> content[i] as int != 0
    ensures content[|content| - 1] as int == 0 && Blanks(content[p..]) ==> content[Skip(content, p)] as int == 0
    ensures content[Skip(content, p)] as int == 0 ==> Blanks(content[p..|content| - 1])
    decreases |content| - p
  {
    if p + 1 < |content| {
      assert content[p..][0] == content[p] && content[p..][1..] == content[p + 1..];
      if Blank(content[p]) {
        SkipRest(content, p + 1);
        assert content[p..|content| - 1] == [content[p]] + content[p + 1..|content| - 1];
      }
    }
  }

  /** Every text in the grammar is read, unless it is nested too deeply. */
  lemma TextRead(value: string, requireEnd: bool, before: string, s: Syntax, after: string)
    requires NulFree(value) && IsText(value[Start(value)..], requireEnd, before, s, after)
    ensures ReadText(value, requireEnd) ==
              if Nest(Tree(s)) <= NESTING_LIMIT then Got(Tree(s), EndOf(value, requireEnd, before, s)) else Fail
  {
    hide ReadValue, Skip, At, Write, WellWritten, Tree, Nest, Blanks, Start, Settled, SettledBefore, Blank;
    var content := value + [0 as char];
    var o := Start(value);
    var v := o + |before|;
    var e := v + |Write(s)|;
    assert content[o..|value|] == value[o..];
    assert At(content, o, before + (Write(s) + after)) by { AtHere(content, o, |value|); }
    AtSplit(content, o, before, Write(s) + after);
    AtSplit(content, v, Write(s), after);
    StartsAt(content, v, s);
    SkipOver(content, o, before);
    TailOf(value, o, before, Write(s) + after);
    SettledInText(value, v, s, after);
    ValueRead(content, v, 0, s);
    if requireEnd {
      assert content[e..|value|] == after;
      AfterBlanks(value, e);
    }
  }

  lemma AtHere(content: string, o: nat, e: nat)
    requires o <= e <= |content|
    ensures At(content, o, content[o..e])
  {
  }

  /** Behind a value nothing but blanks is left exactly if skipping blanks ends at the NUL. */
  lemma AfterBlanks(value: string, e: nat)
    requires NulFree(value) && e <= |value|
    ensures var content := value + [0 as char];
            && (content[Skip(content, e)] as int == 0 <==> Blanks(content[e..|value|]))
            && (content[Skip(content, e)] as int == 0 ==> Skip(content, e) == |value|)
  {
    hide Skip;
    var content := value + [0 as char];
    assert forall i :: 0 <= i < |value| ==> content[i] == value[i];
    assert content[e..] == content[e..|value|] + [0 as char];
    SkipRest(content, e);
  }

  /** Whatever is read is in the grammar. */
  lemma TextFound(value: string, requireEnd: bool)
    requires NulFree(value) && ReadText(value, requireEnd).Got?
    ensures var r := ReadText(value, requireEnd); Derives(value, requireEnd, r.value, r.end)
  {
    hide ReadValue, Skip, At, Write, WellWritten, Tree, Blanks, Start, Settled, SettledBefore;
    var content := value + [0 as char];
    var o := Start(value);
    var v := Skip(content, o);
    var s := ValueFound(content, v, 0);
    var e := v + |Write(s)|;
    SkippedBlanks(content, o);
    var before, after := content[o..v], content[e..|value|];
    AfterBlanks(value, e);
    assert value[o..] == before + (Write(s) + after) by {
      AtMeans(content, v, Write(s));
      assert content[o..v] + (content[v..e] + content[e..|value|]) == content[o..|value|];
    }
    assert value[v..] == Write(s) + after by { TailOf(value, o, before, Write(s) + after); }
    SettledInText(value, v, s, after);
    assert IsText(value[Start(value)..], requireEnd, before, s, after)
           && ReadText(value, requireEnd).end == EndOf(value, requireEnd, before, s);
  }

  lemma TailOf(value: string, o: nat, before: string, tail: string)
    requires o <= |value| && value[o..] == before + tail
    ensures o + |before| <= |value| && value[o + |before|..] == tail
  {
    assert value[o + |before|..] == value[o..][|before|..];
  }

  /** What is read from a text that stands for a tree. */
  ghost predicate AsDerived(r: Read<Json>, t: Json, end: nat) {
    r == if Nest(t) <= NESTING_LIMIT then Got(t, end) else Fail
  }

  /** Reading succeeds exactly on the grammar within the limit. */
  lemma TextDerives(value: string, requireEnd: bool)
    requires NulFree(value)
    ensures var r := ReadText(value, requireEnd);
            && (forall t, end :: Derives(value, requireEnd, t, end) ==> AsDerived(r, t, end))
            && (r.Got? ==> Derives(value, requireEnd, r.value, r.end))
  {
    hide ReadText, IsText, Nest, Tree, Write, EndOf;
    forall t, end | Derives(value, requireEnd, t, end) ensures AsDerived(ReadText(value, requireEnd), t, end) {
      var before, s, after :|
        && IsText(value[Start(value)..], requireEnd, before, s, after)
        && Tree(s) == t && end == EndOf(value, requireEnd, before, s);
      TextRead(value, requireEnd, before, s, after);
    }
    if ReadText(value, requireEnd).Got? { TextFound(value, requireEnd); }
  }
}
