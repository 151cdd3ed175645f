/**
  Reading JSON text, as functions: what the parser's methods compute.
  Source: liblinktool/cJSON/cJSON.c, lines 279-298, 767-893, 1032-1055, 1306-1358, 1435-1530 and 1595-1705.
 */
module CJsonRead {
  import opened CJsonNumber
  import opened CJsonText
  import opened JsonTree
  import opened Wrappers

  const NESTING_LIMIT: nat := 1000

  predicate Blank(c: char) {
    c as int <= 32
  }

  /** The text ends in NUL. */
  ghost predicate Ended(content: string) {
    content != [] && content[|content| - 1] as int == 0
  }

  /** Nothing, or a value and the position behind it. */
  datatype Read<+T> = Fail | Got(value: T, end: nat)

  /** buffer_skip_whitespace: the next character that is no blank, or the last one. */
  function Skip(content: string, p: nat): (r: nat)
    requires p < |content|
    ensures p <= r < |content|
    decreases |content| - p
  {
    if Blank(content[p]) && p + 1 < |content| then Skip(content, p + 1) else p
  }

  /** strncmp with a word, within the text. */
  predicate Here(content: string, o: nat, word: string) {
    o + |word| <= |content| && content[o..o + |word|] == word
  }

  /** A character that is not NUL is not the last one. */
  lemma NotLast(content: string, o: nat)
    requires Ended(content) && o < |content| && content[o] as int != 0
    ensures o + 1 < |content|
  {
  }

  /** parse_string */
  ghost function ReadString(content: string, o: nat): (r: Read<string>)
    requires Ended(content) && o < |content|
    ensures r.Got? ==> o < r.end < |content|
  {
    if content[o] != '\"' || Scan(content, o + 1) == |content| then Fail
    else
      var end := Scan(content, o + 1);
      match Unescape(content, o + 1, end)
      case None => Fail
      case Some(s) => NotLast(content, end); Got(s, end + 1)
  }

  /** A number ends before the text does. */
  lemma TakenInside(content: string, o: nat)
    requires Ended(content) && o < |content| && Strtod(Run(content, o)).Some?
    ensures var t := Strtod(Run(content, o)).value;
            0 < t.length <= |Run(content, o)| && o + t.length < |content|
  {
    var run := Run(content, o);
    assert NumberChar(run[|run| - 1]) && run[|run| - 1] == content[o + |run| - 1];
  }

  /** parse_number */
  ghost function ReadNumber(content: string, o: nat): (r: Read<Json>)
    requires Ended(content) && o < |content|
    ensures r.Got? ==> o < r.end < |content|
  {
    match Strtod(Run(content, o))
    case None => Fail
    case Some(t) => TakenInside(content, o); Got(Num(t.number), o + t.length)
  }

  /** parse_value */
  ghost function ReadValue(content: string, o: nat, depth: nat): (r: Read<Json>)
    requires Ended(content) && o < |content| && depth <= NESTING_LIMIT
    ensures r.Got? ==> o < r.end < |content|
    decreases |content| - o, 3
  {
    if Here(content, o, "null") then WordEnds(content, o, "null"); Got(Null, o + 4)
    else if Here(content, o, "false") then WordEnds(content, o, "false"); Got(Bool(false), o + 5)
    else if Here(content, o, "true") then WordEnds(content, o, "true"); Got(Bool(true), o + 4)
    else if content[o] == '\"' then
      match ReadString(content, o)
      case Fail => Fail
      case Got(s, e) => Got(Str(s), e)
    else if NumberStart(content[o]) then ReadNumber(content, o)
    else if content[o] == '[' then ReadArray(content, o, depth)
    else if content[o] == '{' then ReadObject(content, o, depth)
    else Fail
  }

  lemma WordEnds(content: string, o: nat, word: string)
    requires Ended(content) && Here(content, o, word) && word != []
        && forall i :: 0 <= i < |word| ==> word[i] as int != 0
    ensures o < o + |word| < |content|
  {
    var last := |word| - 1;
    assert content[o..o + |word|][last] == word[last];
  }

  /** parse_array */
  ghost function ReadArray(content: string, o: nat, depth: nat): (r: Read<Json>)
    requires Ended(content) && o < |content| && depth <= NESTING_LIMIT && content[o] == '['
    ensures r.Got? ==> o < r.end < |content|
    decreases |content| - o, 2
  {
    if depth >= NESTING_LIMIT then Fail
    else
      NotLast(content, o);
      var p := Skip(content, o + 1);
      if content[p] == ']' then NotLast(content, p); Got(Arr([]), p + 1)
      else ReadItems(content, p, depth + 1, [])
  }

  /** The items from `q` on, behind those already read. */
  ghost function ReadItems(content: string, q: nat, depth: nat, items: seq<Json>): (r: Read<Json>)
    requires Ended(content) && q < |content| && depth <= NESTING_LIMIT
    ensures r.Got? ==> q < r.end < |content|
    decreases |content| - q, 4
  {
    var v := Skip(content, q);
    match ReadValue(content, v, depth)
    case Fail => Fail
    case Got(t, e) =>
      var c := Skip(content, e);
      if content[c] == ',' then NotLast(content, c); ReadItems(content, c + 1, depth, items + [t])
      else if content[c] == ']' then NotLast(content, c); Got(Arr(items + [t]), c + 1)
      else Fail
  }

  /** parse_object */
  ghost function ReadObject(content: string, o: nat, depth: nat): (r: Read<Json>)
    requires Ended(content) && o < |content| && depth <= NESTING_LIMIT && content[o] == '{'
    ensures r.Got? ==> o < r.end < |content|
    decreases |content| - o, 2
  {
    if depth >= NESTING_LIMIT then Fail
    else
      NotLast(content, o);
      var p := Skip(content, o + 1);
      if content[p] == '}' then NotLast(content, p); Got(Obj([]), p + 1)
      else ReadMembers(content, p, depth + 1, [])
  }

  /** A key and its colon: the key and the position behind the colon. */
  ghost function ReadKey(content: string, q: nat): (r: Read<string>)
    requires Ended(content) && q < |content|
    ensures r.Got? ==> q < r.end < |content|
  {
    match ReadString(content, Skip(content, q))
    case Fail => Fail
    case Got(name, e) =>
      var c := Skip(content, e);
      if content[c] == ':' then NotLast(content, c); Got(name, c + 1) else Fail
  }

  /** A key, its colon and its value. */
  ghost function ReadMember(content: string, q: nat, depth: nat): (r: Read<Member>)
    requires Ended(content) && q < |content| && depth <= NESTING_LIMIT
    ensures r.Got? ==> q < r.end < |content|
    decreases |content| - q, 4
  {
    match ReadKey(content, q)
    case Fail => Fail
    case Got(name, k) =>
      match ReadValue(content, Skip(content, k), depth)
      case Fail => Fail
      case Got(t, e) => Got(Member(name, t), e)
  }

  /** The members from `q` on, behind those already read. */
  ghost function ReadMembers(content: string, q: nat, depth: nat, ms: seq<Member>): (r: Read<Json>)
    requires Ended(content) && q < |content| && depth <= NESTING_LIMIT
    ensures r.Got? ==> q < r.end < |content|
    decreases |content| - q, 5
  {
    match ReadMember(content, q, depth)
    case Fail => Fail
    case Got(m, e) =>
      var c := Skip(content, e);
      if content[c] == ',' then NotLast(content, c); ReadMembers(content, c + 1, depth, ms + [m])
      else if content[c] == '}' then NotLast(content, c); Got(Obj(ms + [m]), c + 1)
      else Fail
  }

  /** Skipping again changes nothing. */
  lemma {:induction false} SkipTwice(content: string, p: nat)
    requires p < |content|
    ensures Skip(content, Skip(content, p)) == Skip(content, p)
    decreases |content| - p
  {
    if Blank(content[p]) && p + 1 < |content| { SkipTwice(content, p + 1); }
  }

  /** An array is read by way of its items. */
  lemma ArrayBegins(content: string, o: nat, depth: nat)
    requires Ended(content) && o < |content| && depth <= NESTING_LIMIT && content[o] == '['
    ensures o + 1 < |content|
    ensures depth == NESTING_LIMIT ==> ReadArray(content, o, depth).Fail?
    ensures depth < NESTING_LIMIT && content[Skip(content, o + 1)] == ']' ==>
              ReadArray(content, o, depth) == Got(Arr([]), Skip(content, o + 1) + 1)
    ensures depth < NESTING_LIMIT && content[Skip(content, o + 1)] != ']' ==>
              && ReadArray(content, o, depth) == ReadItems(content, o + 1, depth + 1, [])
              && ReadArray(content, o, depth) == ReadItems(content, Skip(content, o + 1), depth + 1, [])
  {
    hide Skip;
    NotLast(content, o);
    SkipTwice(content, o + 1);
  }

  /** An object is read by way of its members. */
  lemma ObjectBegins(content: string, o: nat, depth: nat)
    requires Ended(content) && o < |content| && depth <= NESTING_LIMIT && content[o] == '{'
    ensures o + 1 < |content|
    ensures depth == NESTING_LIMIT ==> ReadObject(content, o, depth).Fail?
    ensures depth < NESTING_LIMIT && content[Skip(content, o + 1)] == '}' ==>
              ReadObject(content, o, depth) == Got(Obj([]), Skip(content, o + 1) + 1)
    ensures depth < NESTING_LIMIT && content[Skip(content, o + 1)] != '}' ==>
              && ReadObject(content, o, depth) == ReadMembers(content, o + 1, depth + 1, [])
              && ReadObject(content, o, depth) == ReadMembers(content, Skip(content, o + 1), depth + 1, [])
  {
    hide ReadString, ReadValue;
    NotLast(content, o);
    SkipTwice(content, o + 1);
    assert ReadKey(content, Skip(content, o + 1)) == ReadKey(content, o + 1);
    if depth < NESTING_LIMIT {
      assert ReadMember(content, Skip(content, o + 1), depth + 1) == ReadMember(content, o + 1, depth + 1);
    }
  }

  const BOM := "\U{EF}\U{BB}\U{BF}"

  /** skip_utf8_bom: where the text starts. */
  function Start(value: string): (o: nat)
    ensures o <= |value|
  {
    if 3 < |value| && value[..3] == BOM then 3 else 0
  }

  /** cJSON_ParseWithOpts on a NUL-terminated string: the tree, and where parsing ended. */
  ghost function ReadText(value: string, requireEnd: bool): Read<Json> {
    var content := value + [0 as char];
    match ReadValue(content, Skip(content, Start(value)), 0)
    case Fail => Fail
    case Got(t, e) =>
      if !requireEnd then Got(t, e) else if content[Skip(content, e)] as int != 0 then Fail else Got(t, Skip(content,
          e))
  }
}
