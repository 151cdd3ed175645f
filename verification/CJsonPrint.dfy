/**
  The JSON printer: a buffer that grows on demand, unless it was supplied by the caller, filled with
  the text of a tree.
  Source: liblinktool/cJSON/cJSON.c, lines 423-533, 896-1021, 1181-1303, 1361-1432, 1533-1592 and 1708-1819.
 */
module CJsonPrint {
  import opened CJsonNumber
  import opened CJsonText
  import opened JsonTree
  import opened Wrappers

  const INT_MAX := 0x7FFF_FFFF

  // ---------------------------------------------------------------- printed text contains no NUL

  lemma NulFreeConcat(a: string, b: string)
    ensures NulFree(a + b) <==> NulFree(a) && NulFree(b)
  {
    assert forall i :: 0 <= i < |a| ==> (a + b)[i] == a[i];
    assert forall i :: 0 <= i < |b| ==> (a + b)[|a| + i] == b[i];
    if NulFree(a + b) {
      forall i | 0 <= i < |b| ensures b[i] as int != 0 { assert (a + b)[|a| + i] as int != 0; }
      forall i | 0 <= i < |a| ensures a[i] as int != 0 { assert (a + b)[i] as int != 0; }
    }
  }

  lemma {:induction false} TabsNulFree(n: nat)
    ensures NulFree(Tabs(n)) && |Tabs(n)| == n
  {
    if n > 0 { TabsNulFree(n - 1); }
  }

  lemma EscapeNulFree(c: char)
    requires c as int != 0
    ensures NulFree(Escape(c))
  {
  }

  lemma {:induction false} EscapeAllNulFree(s: string)
    requires NulFree(s)
    ensures NulFree(EscapeAll(s))
  {
    if s != [] {
      EscapeNulFree(s[0]);
      EscapeAllNulFree(s[1..]);
      NulFreeConcat(Escape(s[0]), EscapeAll(s[1..]));
    }
  }

  lemma QuotedNulFree(s: string)
    requires NulFree(s)
    ensures NulFree(Quoted(s))
  {
    EscapeAllNulFree(s);
    NulFreeConcat(EscapeAll(s), "\"");
    NulFreeConcat("\"", EscapeAll(s) + "\"");
  }

  lemma WordsNulFree()
    ensures NulFree([]) && NulFree("null") && NulFree("true") && NulFree("false")
    ensures NulFree("[") && NulFree("]") && NulFree("{") && NulFree("}") && NulFree("\n")
  {
  }

  lemma NumberNulFree(n: int)
    ensures NulFree(NumberText(n))
  {
    hide Recovered;
    WordsNulFree();
  }

  lemma {:induction false} TextNulFree(t: Json, fmt: bool, d: nat)
    requires Printable(t)
    ensures NulFree(Text(t, fmt, d))
    decreases t, 1
  {
    hide NulFree, NumberText;
    WordsNulFree();
    match t
    case Num(n) => NumberNulFree(n);
    case Str(s) => QuotedNulFree(s);
    case Arr(items) =>
      ItemsNulFree(items, fmt, d + 1);
      NulFreeConcat(ItemsText(items, fmt, d + 1), "]");
      NulFreeConcat("[", ItemsText(items, fmt, d + 1) + "]");
    case Obj(ms) =>
      MembersNulFree(ms, fmt, d + 1);
      TabsNulFree(d);
      NulFreeConcat(Indent(fmt, d), "}");
      NulFreeConcat(MembersText(ms, fmt, d + 1), Indent(fmt, d) + "}");
      NulFreeConcat(NewLine(fmt), MembersText(ms, fmt, d + 1) + (Indent(fmt, d) + "}"));
      NulFreeConcat("{", NewLine(fmt) + (MembersText(ms, fmt, d + 1) + (Indent(fmt, d) + "}")));
    case _ =>
  }

  lemma {:induction false} ItemsNulFree(items: seq<Json>, fmt: bool, d: nat)
    requires forall i :: 0 <= i < |items| ==> Printable(items[i])
    ensures NulFree(ItemsText(items, fmt, d)) && NulFree(MoreItems(items, fmt, d))
    decreases items, 0
  {
    if items != [] {
      var x, y := Text(items[0], fmt, d), MoreItems(items[1..], fmt, d);
      TextNulFree(items[0], fmt, d);
      ItemsNulFree(items[1..], fmt, d);
      NulFreeConcat(x, y);
      NulFreeConcat(Gap(fmt), x + y);
      NulFreeConcat(",", Gap(fmt) + (x + y));
    }
  }

  lemma {:induction false} MembersNulFree(ms: seq<Member>, fmt: bool, d: nat)
    requires forall i :: 0 <= i < |ms| ==> NulFree(ms[i].key) && Printable(ms[i].value)
    ensures NulFree(MembersText(ms, fmt, d))
    decreases ms, 0
  {
    if ms != [] {
      var rest, t, c := MembersText(ms[1..], fmt, d), Text(ms[0].value, fmt, d), Comma(|ms| > 1);
      MembersNulFree(ms[1..], fmt, d);
      TextNulFree(ms[0].value, fmt, d);
      QuotedNulFree(ms[0].key);
      TabsNulFree(d);
      var x5 := NewLine(fmt) + rest;
      var x4 := c + x5;
      var x3 := t + x4;
      var x2 := KeyGap(fmt) + x3;
      var x1 := ":" + x2;
      var x0 := Quoted(ms[0].key) + x1;
      NulFreeConcat(NewLine(fmt), rest);
      NulFreeConcat(c, x5);
      NulFreeConcat(t, x4);
      NulFreeConcat(KeyGap(fmt), x3);
      NulFreeConcat(":", x2);
      NulFreeConcat(Quoted(ms[0].key), x1);
      NulFreeConcat(Indent(fmt, d), x0);
    }
  }

  // ---------------------------------------------------------------- the buffer

  lemma SamePrefix(a: string, b: string, n: nat)
    requires n <= |a| && n <= |b| && forall k :: 0 <= k < n ==> a[k] == b[k]
    ensures a[..n] == b[..n]
  {
  }

  class PrintBuffer {
    var buffer: array<char>
    var offset: nat
    var depth: nat
    const noalloc: bool
    const format: bool

    ghost predicate Valid()
      reads this, buffer
    {
      offset < buffer.Length
    }

    /** What has been written so far. */
    ghost function Out(): string
      reads this, buffer
      requires Valid()
    {
      buffer[..offset]
    }

    /** How far the text can go: the size of the caller's buffer, or the largest size. */
    ghost function Room(): int
      reads this, buffer
    {
      if noalloc && buffer.Length < INT_MAX then buffer.Length else INT_MAX
    }

    constructor (space: array<char>, noalloc: bool, format: bool)
      requires 0 < space.Length
      ensures Valid() && buffer == space && this.noalloc == noalloc && this.format == format && offset == 0
          && depth == 0
    {
      buffer := space;
      offset, depth := 0, 0;
      this.noalloc := noalloc;
      this.format := format;
    }

    /** ensure: room for `needed` more characters and one behind them. */
    method Ensure(needed: nat) returns (ok: bool)
      requires Valid()
      modifies this`buffer
      ensures Valid() && Out() == old(Out()) && SameOrFresh()
      ensures ok ==> offset + needed + 1 <= buffer.Length
      ensures offset + needed + 1 <= Room() ==> ok
    {
      if needed > INT_MAX { return false; }
      var total := needed + offset + 1;
      if total <= buffer.Length { return true; }
      if noalloc { return false; }
      var newsize;
      if total > INT_MAX / 2 {
        if total <= INT_MAX {
          newsize := INT_MAX;
        } else {
          return false;
        }
      } else {
        newsize := total * 2;
      }
      var newbuffer := new char[newsize](_ => 0 as char);
      var i := 0;
      while i <= offset
        invariant 0 <= i <= offset + 1 && forall k :: 0 <= k < i ==> newbuffer[k] == buffer[k]
        modifies newbuffer
      {
        newbuffer[i] := buffer[i];
        i := i + 1;
      }
      SamePrefix(newbuffer[..], buffer[..], offset);
      buffer := newbuffer;
      return true;
    }

    /** Writing characters at `at`. */
    method Store(at: nat, text: string)
      requires at + |text| <= buffer.Length
      modifies buffer
      ensures buffer[..] == old(buffer[..at]) + text + old(buffer[at + |text|..])
    {
      var i := 0;
      while i < |text|
        invariant 0 <= i <= |text|
        invariant forall k :: 0 <= k < i ==> buffer[at + k] == text[k]
        invariant forall k :: 0 <= k < at || at + i <= k < buffer.Length ==> buffer[k] == old(buffer[k])
      {
        buffer[at + i] := text[i];
        i := i + 1;
      }
    }

    /** update_offset: on to the NUL that ends what was printed. */
    method UpdateOffset(ghost end: nat)
      requires offset <= end < buffer.Length && buffer[end] as int == 0
      requires forall i :: offset <= i < end ==> buffer[i] as int != 0
      modifies `offset
      ensures offset == end
    {
      while buffer[offset] as int != 0
        invariant old(offset) <= offset <= end
        decreases end - offset
      {
        offset := offset + 1;
      }
    }

    /** The buffer is the old one, or a larger one of its own; a caller's buffer stays. */
    twostate predicate SameOrFresh()
      reads this
    {
      (buffer == old(buffer) || fresh(buffer)) && (noalloc ==> buffer == old(buffer))
    }

    /** `text` was printed behind `out`; the offset may still lag behind its end. */
    ghost predicate Printed(out: string, text: string)
      reads this, buffer
    {
      && |out| <= offset <= |out| + |text| < buffer.Length
      && buffer[..|out| + |text|] == out + text && buffer[|out| + |text|] as int == 0
    }

    /** A constant piece of text, NUL included: `ensure(needed)` and strcpy. */
    method PutWord(word: string, needed: nat) returns (ok: bool)
      requires Valid() && needed == |word| + 1
      modifies this`buffer, buffer
      ensures Valid() && Out() == old(Out()) && SameOrFresh()
      ensures ok ==> Printed(old(Out()), word)
      ensures offset + |word| + 2 <= Room() ==> ok
    {
      ok := Ensure(needed);
      if !ok { return; }
      ghost var out := Out();
      Store(offset, word + [0 as char]);
      StoredAt(buffer[..], out, word);
    }

    /** A piece of text inside arrays and objects, stepped over at once; `nul` says whether NUL is written too. */
    method PutPiece(piece: string, needed: nat, nul: bool) returns (ok: bool)
      requires Valid() && |piece| <= needed && (nul ==> |piece| + 1 <= needed)
      modifies this`buffer, this`offset, buffer
      ensures Valid() && SameOrFresh()
      ensures ok ==> Out() == old(Out()) + piece
      ensures old(offset) + needed + 1 <= Room() ==> ok
    {
      ok := Ensure(needed);
      if !ok { return; }
      ghost var out := Out();
      Store(offset, if nul then piece + [0 as char] else piece);
      assert buffer[..offset + |piece|] == out + piece;
      offset := offset + |piece|;
    }

    /** Writing characters behind what is there. */
    method StoreAfter(ghost out: string, at: nat, text: string)
      requires at + |text| <= buffer.Length && at == |out| && buffer[..at] == out
      modifies buffer
      ensures buffer[..at + |text|] == out + text
    {
      Store(at, text);
      assert buffer[..at + |text|] == out + text;
    }

    /** The first loop of print_string_ptr: how many characters the escapes add. */
    method CountEscapes(s: string) returns (escapes: nat)
      ensures |s| + escapes == |EscapeAll(s)|
    {
      hide Escape;
      var i := 0;
      escapes := 0;
      assert s[..0] == [];
      while i < |s|
        invariant 0 <= i <= |s| && i + escapes == |EscapeAll(s[..i])|
      {
        EscapePrefix(s, i);
        ExtraIs(s[i]);
        escapes := escapes + Extra(s[i]);
        i := i + 1;
      }
      assert s[..i] == s;
    }

    /** print_string_ptr: the string quoted and escaped. */
    method PrintStringPtr(s: string) returns (ok: bool)
      requires Valid() && NulFree(s)
      modifies this`buffer, buffer
      ensures Valid() && Out() == old(Out()) && SameOrFresh()
      ensures ok ==> Printed(old(Out()), Quoted(s))
      ensures offset + |Quoted(s)| + 2 <= Room() ==> ok
    {
      hide EscapeAll, Escape, NulFree;
      var escapes := CountEscapes(s);
      var length := |s| + escapes;
      ok := Ensure(length + 3);
      if !ok { return; }
      WriteQuoted(s, escapes, Out());
      StoredAt(buffer[..], old(Out()), Quoted(s));
    }

    /** The rest of print_string_ptr, once there is room. */
    method WriteQuoted(s: string, escapes: nat, ghost out: string)
      requires |s| + escapes == |EscapeAll(s)| && offset + |s| + escapes + 3 <= buffer.Length
      requires |out| == offset && buffer[..offset] == out
      modifies buffer
      ensures buffer[..offset + |s| + escapes + 3] == out + (Quoted(s) + [0 as char])
    {
      hide EscapeAll, Escape, Quoted;
      var length := |s| + escapes;
      if escapes == 0 {
        EscapeLonger(s);
        QuotedPlain(s);
        StoreAfter(out, offset, "\"" + s + "\"" + [0 as char]);
      } else {
        StoreAfter(out, offset, "\"");
        StoreEscaped(s, out + "\"", offset + 1);
        StoreAfter((out + "\"") + EscapeAll(s), offset + length + 1, "\"" + [0 as char]);
        QuotedJoin(out, s);
      }
    }

    /** The loop of print_string_ptr, behind the opening quote. */
    method StoreEscaped(s: string, ghost out: string, start: nat)
      requires start + |EscapeAll(s)| <= buffer.Length && start == |out| && buffer[..start] == out
      modifies buffer
      ensures buffer[..start + |EscapeAll(s)|] == out + EscapeAll(s)
    {
      hide Escape;
      var at, i := start, 0;
      assert s[..0] == [];
      assert out + [] == out;
      while i < |s|
        invariant 0 <= i <= |s| && at == start + |EscapeAll(s[..i])|
        invariant at <= buffer.Length && buffer[..at] == out + EscapeAll(s[..i])
      {
        EscapePrefix(s, i);
        PrefixShorter(s, i + 1);
        Concat(out, EscapeAll(s[..i]), Escape(s[i]));
        StoreAfter(out + EscapeAll(s[..i]), at, Escape(s[i]));
        at := at + |Escape(s[i])|;
        i := i + 1;
      }
      assert s[..i] == s;
    }

    /** print_number: the text that sprintf gives, which it steps over at once. */
    method PrintNumber(n: int) returns (ok: bool)
      requires Valid()
      modifies this`buffer, this`offset, buffer
      ensures Valid() && SameOrFresh()
      ensures ok ==> Printed(old(Out()), NumberText(n))
      ensures old(offset) + |NumberText(n)| + 2 <= old(Room()) ==> ok
    {
      hide NumberText;
      var text := NumberText(n);
      ok := Ensure(|text| + 1);
      if !ok { return; }
      ghost var out := Out();
      Store(offset, text + [0 as char]);
      StoredAt(buffer[..], out, text);
      offset := offset + |text|;
    }

    /** print_value */
    method PrintValue(t: Json) returns (ok: bool)
      requires Valid() && Printable(t)
      modifies this`buffer, this`offset, this`depth, buffer
      ensures Valid() && SameOrFresh()
      ensures ok ==> depth == old(depth) && Printed(old(Out()), Text(t, format, old(depth)))
      ensures old(offset) + |Text(t, format, old(depth))| + 2 <= old(Room()) ==> ok
      decreases t, 2
    {
      match t {
        case Null =>
          ok := PutWord("null", 5);
        case Bool(b) =>
          if b { ok := PutWord("true", 5); } else { ok := PutWord("false", 6); }
        case Num(n) =>
          ok := PrintNumber(n);
        case Str(s) =>
          ok := PrintStringPtr(s);
        case Arr(items) =>
          ok := PrintArray(t);
        case Obj(ms) =>
          ok := PrintObject(t);
      }
    }

    /** print_value, and update_offset behind it. */
    method PrintOver(t: Json) returns (ok: bool)
      requires Valid() && Printable(t)
      modifies this`buffer, this`offset, this`depth, buffer
      ensures Valid() && SameOrFresh()
      ensures ok ==> depth == old(depth) && Out() == old(Out()) + Text(t, format, depth)
      ensures old(offset) + |Text(t, format, old(depth))| + 2 <= old(Room()) ==> ok
      decreases t, 3
    {
      ghost var out, text := Out(), Text(t, format, depth);
      ok := PrintValue(t);
      if ok {
        TextNulFree(t, format, depth);
        NoNulBetween(buffer[..], out, text, offset);
        UpdateOffset(|out| + |text|);
      }
    }

    /** print_array */
    method PrintArray(t: Json) returns (ok: bool)
      requires Valid() && t.Arr? && Printable(t)
      modifies this`buffer, this`offset, this`depth, buffer
      ensures Valid() && SameOrFresh()
      ensures ok ==> depth == old(depth) && Printed(old(Out()), Text(t, format, old(depth)))
      ensures old(offset) + |Text(t, format, old(depth))| + 2 <= old(Room()) ==> ok
      decreases t, 1
    {
      hide Text, ItemsText, Printable;
      ArrayText(t, format, depth, Out());
      ok := OpenArray(t);
      if !ok { return; }
      ok := PutWord("]", 2);
      if !ok { return; }
      depth := depth - 1;
    }

    /** print_array up to the closing bracket. */
    method OpenArray(t: Json) returns (ok: bool)
      requires Valid() && t.Arr? && Printable(t)
      modifies this`buffer, this`offset, this`depth, buffer
      ensures Valid() && SameOrFresh()
      ensures ok ==> depth == old(depth) + 1 && Out() == (old(Out()) + "[") + ItemsText(t.items, format, depth)
      ensures old(offset) + |ItemsText(t.items, format, old(depth) + 1)| + 4 <= old(Room()) ==> ok
      decreases t, 1, 0
    {
      hide Text, ItemsText, Printable;
      ok := PutPiece("[", 1, false);
      if !ok { return; }
      depth := depth + 1;
      ok := PrintItems(t);
    }

    /** The loop of print_array. */
    method PrintItems(t: Json) returns (ok: bool)
      requires Valid() && t.Arr? && Printable(t)
      modifies this`buffer, this`offset, this`depth, buffer
      ensures Valid() && SameOrFresh()
      ensures ok ==> depth == old(depth) && Out() == old(Out()) + ItemsText(t.items, format, depth)
      ensures old(offset) + |ItemsText(t.items, format, old(depth))| + 3 <= old(Room()) ==> ok
      decreases t, 0
    {
      hide Text, ItemsText, MoreItems, Printable;
      ghost var whole := Out() + ItemsText(t.items, format, depth);
      var i := 0;
      assert t.items[0..] == t.items;
      while i < |t.items|
        invariant 0 <= i <= |t.items| && Valid() && SameOrFresh() && depth == old(depth)
        invariant Out() + ItemsText(t.items[i..], format, depth) == whole
      {
        ItemsStep(t, i, format, depth);
        ghost var o := Out();
        ok := PrintOver(t.items[i]);
        if !ok { return; }
        Concat(o, Text(t.items[i], format, depth), MoreItems(t.items[i + 1..], format, depth));
        if i + 1 < |t.items| {
          o := Out();
          ok := PutPiece("," + Gap(format), if format then 3 else 2, true);
          if !ok { return; }
          Concat(o, "," + Gap(format), ItemsText(t.items[i + 1..], format, depth));
        }
        i := i + 1;
      }
      NoItems(format, depth);
      assert t.items[i..] == [] && Out() + [] == Out();
      return true;
    }

    /** print_object */
    method PrintObject(t: Json) returns (ok: bool)
      requires Valid() && t.Obj? && Printable(t)
      modifies this`buffer, this`offset, this`depth, buffer
      ensures Valid() && SameOrFresh()
      ensures ok ==> depth == old(depth) && Printed(old(Out()), Text(t, format, old(depth)))
      ensures old(offset) + |Text(t, format, old(depth))| + 2 <= old(Room()) ==> ok
      decreases t, 1
    {
      PieceLengths(format, false, depth);
      hide Text, MembersText, Printable, Tabs, NewLine, Indent;
      ObjectText(t, format, depth, Out());
      ok := OpenObject(t);
      if !ok { return; }
      ok := PutWord(Indent(format, depth - 1) + "}", if format then depth + 1 else 2);
      if !ok { return; }
      depth := depth - 1;
    }

    /** print_object up to the line of the closing brace. */
    method OpenObject(t: Json) returns (ok: bool)
      requires Valid() && t.Obj? && Printable(t)
      modifies this`buffer, this`offset, this`depth, buffer
      ensures Valid() && SameOrFresh()
      ensures ok ==> depth == old(depth) + 1
                     && Out() == (old(Out()) + ("{" + NewLine(format))) + MembersText(t.members, format, depth)
      ensures var need := |NewLine(format)| + |MembersText(t.members, format, old(depth) + 1)| + 4;
              old(offset) + need <= old(Room()) ==> ok
      decreases t, 1, 0
    {
      PieceLengths(format, false, depth);
      hide Text, MembersText, Printable, Tabs, NewLine;
      ok := PutPiece("{" + NewLine(format), if format then 3 else 2, false);
      if !ok { return; }
      depth := depth + 1;
      ok := PrintMembers(t);
    }

    /** The loop of print_object. */
    method PrintMembers(t: Json) returns (ok: bool)
      requires Valid() && t.Obj? && Printable(t)
      modifies this`buffer, this`offset, this`depth, buffer
      ensures Valid() && SameOrFresh()
      ensures ok ==> depth == old(depth) && Out() == old(Out()) + MembersText(t.members, format, depth)
      ensures old(offset) + |MembersText(t.members, format, old(depth))| + 3 <= old(Room()) ==> ok
      decreases t, 0
    {
      hide Text, MembersText, MemberText, Printable;
      ghost var whole := Out() + MembersText(t.members, format, depth);
      var i := 0;
      assert t.members[0..] == t.members;
      while i < |t.members|
        invariant 0 <= i <= |t.members| && Valid() && SameOrFresh() && depth == old(depth)
        invariant Out() + MembersText(t.members[i..], format, depth) == whole
      {
        MembersStep(t, i, format, depth);
        ghost var o := Out();
        ok := PrintMember(t.members[i].key, t.members[i].value, i + 1 < |t.members|);
        if !ok { return; }
        Concat(o, MemberText(t.members[i], i + 1 < |t.members|, format, depth),
               MembersText(t.members[i + 1..], format, depth));
        i := i + 1;
      }
      NoMembers(format, depth);
      assert t.members[i..] == [] && Out() + [] == Out();
      return true;
    }

    /** One round of that loop. */
    method PrintMember(key: string, value: Json, more: bool) returns (ok: bool)
      requires Valid() && NulFree(key) && Printable(value)
      modifies this`buffer, this`offset, this`depth, buffer
      ensures Valid() && SameOrFresh()
      ensures ok ==> depth == old(depth) && Out() == old(Out()) + MemberText(Member(key, value), more, format, depth)
      ensures old(offset) + |MemberText(Member(key, value), more, format, old(depth))| + 3 <= old(Room()) ==> ok
      decreases value, 4
    {
      hide Text, Printable, NulFree, Quoted, Tabs, Indent, KeyGap, NewLine, Comma, MemberText;
      PieceLengths(format, more, depth);
      ghost var out := Out();
      NoIndent(format, depth, out);
      MemberPieces(Member(key, value), more, format, depth, out);
      if format {
        ok := PutPiece(Indent(format, depth), depth, false);
        if !ok { return; }
      }
      ok := PrintStringOver(key);
      if !ok { return; }
      ok := PutPiece(":" + KeyGap(format), if format then 2 else 1, false);
      if !ok { return; }
      ok := PrintOver(value);
      if !ok { return; }
      ok := PutPiece(Comma(more) + NewLine(format),
                     (if format then 1 else 0) + (if more then 1 else 0) + 1, true);
    }

    /** print_string_ptr, and update_offset behind it. */
    method PrintStringOver(s: string) returns (ok: bool)
      requires Valid() && NulFree(s)
      modifies this`buffer, this`offset, buffer
      ensures Valid() && SameOrFresh()
      ensures ok ==> Out() == old(Out()) + Quoted(s)
      ensures old(offset) + |Quoted(s)| + 2 <= old(Room()) ==> ok
    {
      ghost var out := Out();
      ok := PrintStringPtr(s);
      if ok {
        QuotedNulFree(s);
        NoNulBetween(buffer[..], out, Quoted(s), offset);
        UpdateOffset(|out| + |Quoted(s)|);
      }
    }
  }

  lemma PieceLengths(fmt: bool, more: bool, d: nat)
    ensures |Indent(fmt, d)| == (if fmt then d else 0) && |KeyGap(fmt)| == (if fmt then 1 else 0)
    ensures |NewLine(fmt)| == (if fmt then 1 else 0) && |Comma(more)| == (if more then 1 else 0)
  {
    TabsNulFree(d);
  }

  lemma NoIndent(fmt: bool, d: nat, out: string)
    ensures !fmt ==> out + Indent(fmt, d) == out
  {
  }

  lemma ObjectText(t: Json, fmt: bool, d: nat, out: string)
    requires t.Obj?
    ensures out + Text(t, fmt, d)
            == ((out + ("{" + NewLine(fmt))) + MembersText(t.members, fmt, d + 1)) + (Indent(fmt, d) + "}")
    ensures |Text(t, fmt, d)| == |NewLine(fmt)| + |MembersText(t.members, fmt, d + 1)| + |Indent(fmt, d)| + 2
  {
    var x, e := MembersText(t.members, fmt, d + 1), Indent(fmt, d) + "}";
    Concat("{", NewLine(fmt), x + e);
    Concat(out, "{" + NewLine(fmt), x + e);
    Concat(out + ("{" + NewLine(fmt)), x, e);
  }

  /** The text of one member, with the comma behind it if there are more. */
  function MemberText(m: Member, more: bool, fmt: bool, d: nat): string {
    Indent(fmt, d) + (Quoted(m.key) + ((":" + KeyGap(fmt)) + (Text(m.value, fmt, d) + (Comma(more) + NewLine(fmt)))))
  }

  lemma MembersStep(t: Json, i: int, fmt: bool, d: nat)
    requires t.Obj? && Printable(t) && 0 <= i < |t.members|
    ensures NulFree(t.members[i].key) && Printable(t.members[i].value)
    ensures MembersText(t.members[i..], fmt, d)
            == MemberText(t.members[i], i + 1 < |t.members|, fmt, d) + MembersText(t.members[i + 1..], fmt, d)
  {
    var ms := t.members[i..];
    assert ms[0] == t.members[i] && ms[1..] == t.members[i + 1..];
    var r, c, n := MembersText(ms[1..], fmt, d), Comma(|ms| > 1), NewLine(fmt);
    var x, k, q, w := Text(ms[0].value, fmt, d), KeyGap(fmt), Quoted(ms[0].key), Indent(fmt, d);
    Concat(c, n, r);
    Concat(x, c + n, r);
    Concat(":", k, (x + (c + n)) + r);
    Concat(":" + k, x + (c + n), r);
    Concat(q, (":" + k) + (x + (c + n)), r);
    Concat(w, q + ((":" + k) + (x + (c + n))), r);
  }

  /** The same text, piece by piece behind `out`. */
  lemma MemberPieces(m: Member, more: bool, fmt: bool, d: nat, out: string)
    ensures out + MemberText(m, more, fmt, d)
            == ((((out + Indent(fmt, d)) + Quoted(m.key)) + (":" + KeyGap(fmt))) + Text(m.value, fmt, d))
               + (Comma(more) + NewLine(fmt))
    ensures |MemberText(m, more, fmt, d)|
            == |Indent(fmt, d)| + |Quoted(m.key)| + 1 + |KeyGap(fmt)| + |Text(m.value, fmt, d)|
               + |Comma(more)| + |NewLine(fmt)|
  {
    var q, k, x, e, w := Quoted(m.key), ":" + KeyGap(fmt), Text(m.value, fmt, d), Comma(more) + NewLine(fmt),
        Indent(fmt, d);
    Concat(out, w, q + (k + (x + e)));
    Concat(out + w, q, k + (x + e));
    Concat((out + w) + q, k, x + e);
    Concat(((out + w) + q) + k, x, e);
  }

  lemma ArrayText(t: Json, fmt: bool, d: nat, out: string)
    requires t.Arr?
    ensures out + Text(t, fmt, d) == ((out + "[") + ItemsText(t.items, fmt, d + 1)) + "]"
    ensures |Text(t, fmt, d)| == |ItemsText(t.items, fmt, d + 1)| + 2
  {
    var x := ItemsText(t.items, fmt, d + 1);
    Concat(out, "[", x);
    Concat(out, "[" + x, "]");
    Concat("[", x, "]");
  }

  lemma NoItems(fmt: bool, d: nat)
    ensures ItemsText([], fmt, d) == [] && MoreItems([], fmt, d) == []
  {
  }

  /** The text of the items from `i` on: item `i`, and if there are more, a separator and their text. */
  lemma ItemsStep(t: Json, i: int, fmt: bool, d: nat)
    requires t.Arr? && Printable(t) && 0 <= i < |t.items|
    ensures Printable(t.items[i])
    ensures ItemsText(t.items[i..], fmt, d) == Text(t.items[i], fmt, d) + MoreItems(t.items[i + 1..], fmt, d)
    ensures i + 1 < |t.items| ==>
              MoreItems(t.items[i + 1..], fmt, d) == ("," + Gap(fmt)) + ItemsText(t.items[i + 1..], fmt, d)
    ensures i + 1 == |t.items| ==>
              MoreItems(t.items[i + 1..], fmt, d) == [] && ItemsText(t.items[i + 1..], fmt, d) == []
  {
    assert t.items[i..][0] == t.items[i] && t.items[i..][1..] == t.items[i + 1..];
    if i + 1 < |t.items| {
      Concat(",", Gap(fmt), ItemsText(t.items[i + 1..], fmt, d));
    }
  }

  lemma NoNulBetween(b: string, out: string, text: string, offset: nat)
    requires |out| <= offset <= |out| + |text| < |b| && b[..|out| + |text|] == out + text && NulFree(text)
    ensures forall i :: offset <= i < |out| + |text| ==> b[i] as int != 0
  {
    forall i | offset <= i < |out| + |text| ensures b[i] as int != 0 {
      assert b[..|out| + |text|][i] == text[i - |out|];
    }
  }

  lemma Concat(a: string, b: string, c: string)
    ensures (a + b) + c == a + (b + c)
  {
  }

  lemma ExtraIs(c: char)
    ensures |Escape(c)| == 1 + Extra(c)
  {
  }

  lemma QuotedPlain(s: string)
    requires EscapeAll(s) == s
    ensures "\"" + s + "\"" + [0 as char] == Quoted(s) + [0 as char]
  {
  }

  lemma QuotedJoin(out: string, s: string)
    ensures ((out + "\"") + EscapeAll(s)) + ("\"" + [0 as char]) == out + (Quoted(s) + [0 as char])
  {
    var e := EscapeAll(s);
    Concat(out, "\"", e);
    Concat(out, "\"" + e, "\"" + [0 as char]);
    assert ("\"" + e) + ("\"" + [0 as char]) == ("\"" + (e + "\"")) + [0 as char];
  }

  lemma {:induction false} PrefixShorter(s: string, i: int)
    requires 0 <= i <= |s|
    ensures |EscapeAll(s[..i])| <= |EscapeAll(s)|
    decreases |s| - i
  {
    if i < |s| {
      EscapePrefix(s, i);
      PrefixShorter(s, i + 1);
    } else {
      assert s[..i] == s;
    }
  }

  lemma StoredAt(b: string, out: string, word: string)
    requires |out| + |word| < |b| && b[..|out| + |word| + 1] == out + (word + [0 as char])
    ensures b[..|out|] == out && b[..|out| + |word|] == out + word && b[|out| + |word|] as int == 0
  {
    var n := |out| + |word|;
    var t := out + (word + [0 as char]);
    assert t == (out + word) + [0 as char];
    assert b[..n] == b[..n + 1][..n];
    assert b[n] == b[..n + 1][n];
  }

  // ---------------------------------------------------------------- escaping

  /** How many characters the escape of `c` has more. */
  function Extra(c: char): nat {
    if c == '\"' || c == '\\' || c as int == 8 || c as int == 12 || c == '\n' || c == '\r' || c == '\t' then 1
    else if c as int < 32 then 5
    else 0
  }

  lemma {:induction false} EscapePrefix(s: string, i: int)
    requires 0 <= i < |s|
    ensures EscapeAll(s[..i + 1]) == EscapeAll(s[..i]) + Escape(s[i])
    decreases |s|
  {
    hide Escape;
    if i == 0 {
      assert s[..1] == [s[0]] && s[..0] == [];
      assert [s[0]][1..] == [];
    } else {
      assert s[..i + 1][1..] == s[1..][..i] && s[..i][1..] == s[1..][..i - 1];
      EscapePrefix(s[1..], i - 1);
    }
  }

  lemma {:induction false} EscapeLonger(s: string)
    ensures |EscapeAll(s)| >= |s| && (|EscapeAll(s)| == |s| ==> EscapeAll(s) == s)
  {
    if s != [] {
      EscapeLonger(s[1..]);
      assert s == [s[0]] + s[1..];
    }
  }

  // ---------------------------------------------------------------- printing a tree

  /** print: into a buffer that starts with 256 characters, and a copy of what was written. */
  method Print(t: Json, format: bool) returns (r: Option<string>)
    requires Printable(t)
    ensures r.Some? ==> r.value == Text(t, format, 0)
    ensures |Text(t, format, 0)| + 2 <= INT_MAX ==> r.Some?
  {
    var space := new char[256](_ => 0 as char);
    var p := new PrintBuffer(space, false, format);
    assert p.Out() == [];
    var ok := p.PrintOver(t);
    if !ok { return None; }
    assert [] + Text(t, format, 0) == Text(t, format, 0);
    return Some(p.buffer[..p.offset]);
  }

  /**
    cJSON_PrintPreallocated: into the caller's buffer, never beyond it; two characters more than the
    text, one of them for NUL, are always enough.
   */
  method PrintPreallocated(t: Json, space: array<char>, format: bool) returns (ok: bool)
    requires Printable(t)
    modifies space
    ensures ok ==> |Text(t, format, 0)| < space.Length
                   && space[..|Text(t, format, 0)|] == Text(t, format, 0) && space[|Text(t, format, 0)|] as int == 0
    ensures |Text(t, format, 0)| + 2 <= space.Length && |Text(t, format, 0)| + 2 <= INT_MAX ==> ok
  {
    if space.Length == 0 { return false; }
    var p := new PrintBuffer(space, true, format);
    assert p.Out() == [];
    ok := p.PrintValue(t);
    assert [] + Text(t, format, 0) == Text(t, format, 0);
  }
}
