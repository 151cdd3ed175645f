/**
  The JSON parser: a cursor over NUL-terminated text, with a limit on nesting.
  Source: liblinktool/cJSON/cJSON.c, lines 279-298, 767-893, 1032-1132, 1306-1358, 1435-1530 and 1595-1705.
 */
module CJsonParse {
  import opened CJsonNumber
  import opened CJsonRead
  import opened CJsonText
  import opened CJsonTexts
  import opened JsonTree
  import opened Wrappers

  ghost function Prepend(a: string, r: Option<string>): Option<string> {
    match r
    case None => None
    case Some(rest) => Some(a + rest)
  }

  lemma PrependNothing(r: Option<string>)
    ensures Prepend([], r) == r
  {
    if r.Some? { assert [] + r.value == r.value; }
  }

  lemma NothingLeft(content: string, p: nat, end: nat, a: string)
    requires end <= p && end < |content|
    ensures Prepend(a, Unescape(content, p, end)) == Some(a)
  {
    assert a + [] == a;
  }

  lemma UnescapeOn(content: string, p: nat, end: nat, output: string)
    requires p < end < |content| && ReadOne(content, p, end).Some?
    ensures var one := ReadOne(content, p, end).value;
            Prepend(output, Unescape(content, p, end))
            == Prepend(output + one.bytes, Unescape(content, p + one.length, end))
  {
    var one := ReadOne(content, p, end).value;
    var u := Unescape(content, p + one.length, end);
    if u.Some? {
      assert output + (one.bytes + u.value) == (output + one.bytes) + u.value;
    }
  }

  /** The outcome of a method that reads: the cursor matters only after success. */
  ghost predicate Reads<T>(x: Read<T>, r: Option<T>, offset: int) {
    match x
    case Fail => r.None?
    case Got(v, e) => r == Some(v) && offset == e
  }

  class ParseBuffer {
    const content: string
    var offset: nat
    var depth: nat

    /** The text ends in NUL, and the cursor is on it or before. */
    ghost predicate Valid()
      reads this
    {
      Ended(content) && offset < |content|
    }

    constructor (text: string)
      ensures content == text && offset == 0 && depth == 0
    {
      content := text;
      offset, depth := 0, 0;
    }

    /** buffer_skip_whitespace: on to the next character above the blank, or the last one. */
    method SkipWhitespace()
      requires content != [] && offset <= |content|
      modifies `offset
      ensures old(offset) < |content| ==> offset == Skip(content, old(offset))
      ensures old(offset) == |content| ==> offset == |content|
    {
      if offset >= |content| { return; }
      while offset < |content| && Blank(content[offset])
        invariant old(offset) <= offset <= |content|
        invariant Skip(content, old(offset)) == if offset < |content| then Skip(content, offset) else |content| - 1
      {
        offset := offset + 1;
      }
      if offset == |content| { offset := offset - 1; }
    }

    /** parse_string: a literal is what `Scan` and `Unescape` make of it. */
    method ParseString() returns (r: Option<string>)
      requires Valid()
      modifies `offset
      ensures offset <= |content| && Reads(ReadString(content, old(offset)), r, offset)
    {
      var p := offset + 1;
      if content[offset] != '\"' {
        offset := p;
        return None;
      }
      var end, skipped := FindEnd(p);
      if end >= |content| {
        offset := p;
        return None;
      }
      SkipsBelow(content, p, end);
      var output := new char[end - offset - skipped + 1];
      r := ReadLiteral(p, end, output);
      offset := if r.Some? then end + 1 else p;
    }

    /**
      The first loop of parse_string: the end of the literal and the backslashes in it; the length
      stands for a literal that does not end.
     */
    method FindEnd(start: nat) returns (end: nat, skipped: nat)
      requires start <= |content|
      ensures end == Scan(content, start)
      ensures end < |content| ==> skipped == Skips(content, start, end)
    {
      end, skipped := start, 0;
      ghost var goal := Scan(content, start);
      while end < |content| && content[end] != '\"'
        invariant start <= end <= |content| && Scan(content, end) == goal
        invariant Skips(content, start, goal) == skipped + Skips(content, end, goal)
      {
        if content[end] == '\\' {
          if end + 1 >= |content| { return |content|, skipped; }
          skipped := skipped + 1;
          end := end + 1;
        }
        end := end + 1;
      }
    }

    /** The second loop of parse_string, into a buffer of the size that the first one found: no write is outside it. */
    method ReadLiteral(start: nat, end: nat, output: array<char>) returns (r: Option<string>)
      requires start <= end < |content| && end == Scan(content, start)
      requires output.Length == end + 1 - start - Skips(content, start, end) + 1
      modifies output
      ensures r == Unescape(content, start, end)
    {
      var n, p := 0, start;
      RoomAtStart(content, start, end);
      RoomLeft(content, start, p, end, n, output.Length);
      PrependNothing(Unescape(content, start, end));
      ghost var text: string := [];
      hide Room, Scan, Unescape, ReadOne, Prepend, Skips;
      while p < end
        invariant Room(content, start, p, end, n, output.Length) && 0 <= n < output.Length
        invariant output[..n] == text && Unescape(content, start, end) == Prepend(text, Unescape(content, p, end))
        decreases |content| - p
      {
        var one := ReadOne(content, p, end);
        if one.None? { return None; }
        UnescapeOn(content, p, end, text);
        RoomOn(content, start, p, end, n, output.Length);
        RoomLeft(content, start, p + one.value.length, end, n + |one.value.bytes|, output.Length);
        Emit(output, n, one.value.bytes);
        text := text + one.value.bytes;
        n := n + |one.value.bytes|;
        p := p + one.value.length;
      }
      NothingLeft(content, p, end, text);
      Terminate(output, n);
      return Some(output[..n]);
    }

    /** The zero after the string. */
    static method Terminate(output: array<char>, n: nat)
      requires n < output.Length
      modifies output
      ensures output[..n] == old(output[..n]) && output[n] == 0 as char
    {
      ghost var bytes := output[..n];
      output[n] := 0 as char;
      assert output[..n] == bytes;
    }

    /** Writes some bytes at position `n`. */
    static method Emit(output: array<char>, n: nat, bytes: string)
      requires n + |bytes| <= output.Length
      modifies output
      ensures output[..n + |bytes|] == old(output[..n]) + bytes
    {
      var i := 0;
      while i < |bytes|
        invariant 0 <= i <= |bytes| && output[..n + i] == old(output[..n]) + bytes[..i]
      {
        output[n + i] := bytes[i];
        i := i + 1;
      }
      assert bytes[..i] == bytes;
    }

    /** parse_number */
    method ParseNumber() returns (r: Option<Json>)
      requires Valid()
      modifies `offset
      ensures offset <= |content| && Reads(ReadNumber(content, old(offset)), r, offset)
    {
      hide Run;
      var number := CopyNumber();
      var taken := Strtod(number);
      if taken.None? { return None; }
      TakenInside(content, offset);
      offset := offset + taken.value.length;
      r := Some(Num(taken.value.number));
    }

    /** The loop of parse_number: the characters go into a buffer of fixed size, a zero behind them. */
    method CopyNumber() returns (number: string)
      requires Valid()
      ensures number == Run(content, offset)
    {
      hide RunEnd, NumberChar;
      var buffer := new char[NUMBER_ROOM + 1];
      var i := 0;
      while i < NUMBER_ROOM && offset + i < |content| && NumberChar(content[offset + i])
        invariant i <= NUMBER_ROOM && offset + i <= |content|
        invariant forall k :: 0 <= k < i ==> buffer[k] == content[offset + k]
        invariant RunEnd(content, offset, NUMBER_ROOM) == RunEnd(content, offset + i, NUMBER_ROOM - i)
      {
        RunOn(content, offset + i, NUMBER_ROOM - i);
        buffer[i] := content[offset + i];
        i := i + 1;
      }
      RunOn(content, offset + i, NUMBER_ROOM - i);
      buffer[i] := 0 as char;
      number := buffer[..i];
    }

    /** parse_value */
    method ParseValue() returns (r: Option<Json>)
      requires Valid() && depth <= NESTING_LIMIT
      modifies `offset, `depth
      ensures offset <= |content| && (r.Some? ==> depth == old(depth))
      ensures Reads(ReadValue(content, old(offset), old(depth)), r, offset)
      decreases |content| - offset, 3
    {
      if Here(content, offset, "null") {
        WordEnds(content, offset, "null");
        offset := offset + 4;
        return Some(Null);
      }
      if Here(content, offset, "false") {
        WordEnds(content, offset, "false");
        offset := offset + 5;
        return Some(Bool(false));
      }
      if Here(content, offset, "true") {
        WordEnds(content, offset, "true");
        offset := offset + 4;
        return Some(Bool(true));
      }
      hide ReadString, ReadNumber, ReadArray, ReadObject, Here;
      if content[offset] == '\"' {
        var s := ParseString();
        r := if s.Some? then Some(Str(s.value)) else None;
      } else if NumberStart(content[offset]) {
        r := ParseNumber();
      } else if content[offset] == '[' {
        r := ParseArray();
      } else if content[offset] == '{' {
        r := ParseObject();
      } else {
        r := None;
      }
    }

    /** parse_array */
    method ParseArray() returns (r: Option<Json>)
      requires Valid() && depth <= NESTING_LIMIT && content[offset] == '['
      modifies `offset, `depth
      ensures offset <= |content| && (r.Some? ==> depth == old(depth))
      ensures Reads(ReadArray(content, old(offset), old(depth)), r, offset)
      decreases |content| - offset, 2
    {
      hide ReadArray, ReadItems, Skip;
      ArrayBegins(content, offset, depth);
      if depth >= NESTING_LIMIT { return None; }
      depth := depth + 1;
      offset := offset + 1;
      SkipWhitespace();
      if content[offset] == ']' {
        NotLast(content, offset);
        depth := depth - 1;
        offset := offset + 1;
        return Some(Arr([]));
      }
      offset := offset - 1;
      r := ParseItems();
    }

    /** One round of the loop of parse_array, behind the items already read. */
    method ParseItem(ghost items: seq<Json>) returns (r: Option<Json>)
      requires Valid() && depth <= NESTING_LIMIT
      modifies `offset, `depth
      ensures offset <= |content|
      ensures r.None? ==> forall o :: Reads(ReadItems(content, old(offset), old(depth), items), None, o)
      ensures r.Some? ==>
                && depth == old(depth) && old(offset) < offset < |content|
                && Next(content, ReadItems(content, old(offset), depth, items), items + [r.value], depth, offset)
      decreases |content| - offset, 4
    {
      ghost var q := offset;
      hide ReadValue, Skip, ReadItems, Reads, Closed, Next;
      SkipWhitespace();
      r := ParseValue();
      NextItem(content, q, old(depth), items, r, offset);
      if r.Some? { SkipWhitespace(); }
    }

    /** The loop of parse_array, from the character before the first item. */
    method ParseItems() returns (r: Option<Json>)
      requires Ended(content) && offset + 1 < |content| && 0 < depth <= NESTING_LIMIT
      modifies `offset, `depth
      ensures offset <= |content| && (r.Some? ==> depth == old(depth) - 1)
      ensures Reads(ReadItems(content, old(offset) + 1, old(depth), []), r, offset)
      decreases |content| - offset, 0
    {
      var items := [];
      var more := true;
      ghost var whole := ReadItems(content, offset + 1, depth, []);
      hide ReadValue, Skip, ReadItems, Reads, Closed;
      while more
        invariant old(offset) <= offset < |content| && depth == old(depth)
        invariant more ==> offset + 1 < |content| && whole == ReadItems(content, offset + 1, depth, items)
        invariant !more ==> old(offset) < offset && content[offset] != ','
        invariant !more ==> Closed(whole, content[offset], ']', Arr(items), offset + 1)
        decreases |content| - offset, more
      {
        offset := offset + 1;
        var value := ParseItem(items);
        if value.None? { return None; }
        items := items + [value.value];
        more := content[offset] == ',';
      }
      ClosedReads(whole, content[offset], ']', Arr(items), offset + 1);
      if content[offset] != ']' { return None; }
      depth := depth - 1;
      offset := offset + 1;
      r := Some(Arr(items));
    }

    /** parse_object */
    method ParseObject() returns (r: Option<Json>)
      requires Valid() && depth <= NESTING_LIMIT && content[offset] == '{'
      modifies `offset, `depth
      ensures offset <= |content| && (r.Some? ==> depth == old(depth))
      ensures Reads(ReadObject(content, old(offset), old(depth)), r, offset)
      decreases |content| - offset, 2
    {
      hide ReadObject, ReadMembers, Skip;
      ObjectBegins(content, offset, depth);
      if depth >= NESTING_LIMIT { return None; }
      depth := depth + 1;
      offset := offset + 1;
      SkipWhitespace();
      if content[offset] == '}' {
        NotLast(content, offset);
        depth := depth - 1;
        offset := offset + 1;
        return Some(Obj([]));
      }
      offset := offset - 1;
      r := ParseMembers();
    }

    /** The loop of parse_object, from the character before the first key. */
    method ParseMembers() returns (r: Option<Json>)
      requires Ended(content) && offset + 1 < |content| && 0 < depth <= NESTING_LIMIT
      modifies `offset, `depth
      ensures offset <= |content| && (r.Some? ==> depth == old(depth) - 1)
      ensures Reads(ReadMembers(content, old(offset) + 1, old(depth), []), r, offset)
      decreases |content| - offset, 0
    {
      var members := [];
      var more := true;
      ghost var whole := ReadMembers(content, offset + 1, depth, []);
      hide ReadValue, Skip, ReadMembers, Reads, Closed;
      while more
        invariant old(offset) <= offset < |content| && depth == old(depth)
        invariant more ==> offset + 1 < |content| && whole == ReadMembers(content, offset + 1, depth, members)
        invariant !more ==> old(offset) < offset && content[offset] != ','
        invariant !more ==> Closed(whole, content[offset], '}', Obj(members), offset + 1)
        decreases |content| - offset, more
      {
        offset := offset + 1;
        var member := ParseMember(members);
        if member.None? { return None; }
        members := members + [member.value];
        more := content[offset] == ',';
      }
      ClosedReads(whole, content[offset], '}', Obj(members), offset + 1);
      if content[offset] != '}' { return None; }
      depth := depth - 1;
      offset := offset + 1;
      r := Some(Obj(members));
    }

    /** One round of the loop of parse_object, behind the members already read. */
    method ParseMember(ghost ms: seq<Member>) returns (r: Option<Member>)
      requires Valid() && depth <= NESTING_LIMIT
      modifies `offset, `depth
      ensures offset <= |content|
      ensures r.None? ==> forall o :: Reads(ReadMembers(content, old(offset), old(depth), ms), None, o)
      ensures r.Some? ==>
                && depth == old(depth) && old(offset) < offset < |content|
                && NextKey(content, ReadMembers(content, old(offset), depth, ms), ms + [r.value], depth, offset)
      decreases |content| - offset, 4
    {
      ghost var q := offset;
      hide ReadKey, ReadValue, Skip, ReadMembers, Closed, NextKey;
      var name := ParseKey();
      if name.None? {
        NextMember(content, q, old(depth), ms, None, offset);
        return None;
      }
      SkipWhitespace();
      var value := ParseValue();
      r := if value.Some? then Some(Member(name.value, value.value)) else None;
      NextMember(content, q, old(depth), ms, r, offset);
      if r.Some? { SkipWhitespace(); }
    }

    /** The key of a member, and the colon. */
    method ParseKey() returns (r: Option<string>)
      requires Valid()
      modifies `offset
      ensures offset <= |content| && Reads(ReadKey(content, old(offset)), r, offset)
    {
      SkipWhitespace();
      hide ReadString, Skip;
      r := ParseString();
      if r.None? { return; }
      SkipWhitespace();
      if content[offset] != ':' { return None; }
      NotLast(content, offset);
      offset := offset + 1;
    }
  }

  /** How a list that has come to its end is read. */
  ghost predicate Closed(whole: Read<Json>, c: char, close: char, t: Json, end: nat) {
    whole == if c == close then Got(t, end) else Fail
  }

  lemma ClosedReads(whole: Read<Json>, c: char, close: char, t: Json, end: nat)
    requires Closed(whole, c, close, t, end)
    ensures c == close ==> Reads(whole, Some(t), end)
    ensures c != close ==> forall o :: Reads(whole, None, o)
  {
  }

  /** After an item the loop goes on at a comma, or the list has come to its end. */
  ghost predicate Next(content: string, whole: Read<Json>, items: seq<Json>, depth: nat, c: nat)
    requires Ended(content) && c < |content| && depth <= NESTING_LIMIT
  {
    if content[c] == ',' then c + 1 < |content| && whole == ReadItems(content, c + 1, depth, items)
    else Closed(whole, content[c], ']', Arr(items), c + 1)
  }

  /** One round of the loop of parse_array. */
  lemma NextItem(content: string, q: nat, depth: nat, items: seq<Json>, r: Option<Json>, e: nat)
    requires Ended(content) && q < |content| && depth <= NESTING_LIMIT
    requires Reads(ReadValue(content, Skip(content, q), depth), r, e)
    ensures r.None? ==> forall o :: Reads(ReadItems(content, q, depth, items), None, o)
    ensures r.Some? ==>
              && q < e < |content|
              && Next(content, ReadItems(content, q, depth, items), items + [r.value], depth, Skip(content, e))
  {
    if r.Some? {
      var c := Skip(content, e);
      if content[c] == ',' { NotLast(content, c); }
    }
  }

  ghost predicate NextKey(content: string, whole: Read<Json>, ms: seq<Member>, depth: nat, c: nat)
    requires Ended(content) && c < |content| && depth <= NESTING_LIMIT
  {
    if content[c] == ',' then c + 1 < |content| && whole == ReadMembers(content, c + 1, depth, ms)
    else Closed(whole, content[c], '}', Obj(ms), c + 1)
  }

  /** One round of the loop of parse_object. */
  lemma NextMember(content: string, q: nat, depth: nat, ms: seq<Member>, r: Option<Member>, e: nat)
    requires Ended(content) && q < |content| && depth <= NESTING_LIMIT
    requires Reads(ReadMember(content, q, depth), r, e)
    ensures r.None? ==> forall o :: Reads(ReadMembers(content, q, depth, ms), None, o)
    ensures r.Some? ==>
              && q < e < |content|
              && NextKey(content, ReadMembers(content, q, depth, ms), ms + [r.value], depth, Skip(content, e))
  {
    if r.Some? {
      var c := Skip(content, e);
      if content[c] == ',' { NotLast(content, c); }
    }
  }

  // ---------------------------------------------------------------- whole texts

  /**
    cJSON_ParseWithOpts on a NUL-terminated string: it succeeds exactly on the texts of the grammar
    that are not nested too deeply, with the tree that the text stands for, and says where it ended.
    Anything may follow the value if the end is not required.
   */
  method Parse(value: string, requireEnd: bool) returns (r: Option<Json>, parseEnd: nat)
    requires NulFree(value)
    ensures forall t, end :: Derives(value, requireEnd, t, end) ==>
              if Nest(t) <= NESTING_LIMIT then r == Some(t) && parseEnd == end else r.None?
    ensures r.Some? ==> Derives(value, requireEnd, r.value, parseEnd)
  {
    hide ReadValue, Derives, Nest;
    var buffer := new ParseBuffer(value + [0 as char]);
    if 4 < |buffer.content| && buffer.content[..3] == BOM { buffer.offset := 3; }
    BomMeans(value);
    buffer.SkipWhitespace();
    r := buffer.ParseValue();
    if r.Some? && requireEnd {
      buffer.SkipWhitespace();
      if buffer.content[buffer.offset] as int != 0 { r := None; }
    }
    parseEnd := buffer.offset;
    assert Reads(ReadText(value, requireEnd), r, parseEnd);
    TextDerives(value, requireEnd);
  }

  lemma BomMeans(value: string)
    ensures var content := value + [0 as char];
            Start(value) == if 4 < |content| && content[..3] == BOM then 3 else 0
  {
    if 3 < |value| { assert (value + [0 as char])[..3] == value[..3]; }
  }
}
