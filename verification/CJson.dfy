/**
  Printing a tree and parsing the text.
  Source: liblinktool/cJSON/cJSON.c, lines 1073-1172, 1181-1254.
 */
module CJson {
  import opened CJsonParse
  import opened CJsonPrint
  import opened CJsonRead
  import opened CJsonText
  import opened CJsonTexts
  import opened CJsonWritten
  import opened JsonTree
  import opened Wrappers

  /**
    Whether formatted or not, the printed text of a tree is parsed back, with its numbers as they are
    read from their own texts, exactly if the tree is nested at most 1000 deep; deeper trees are refused.
    It is the same tree exactly if every number survives. Texts of nearly `INT_MAX` characters may not be
    printed at all.
   */
  method RoundTrip(t: Json, format: bool, requireEnd: bool) returns (r: Option<Json>)
    requires Printable(t)
    ensures |Text(t, format, 0)| + 2 <= INT_MAX ==>
              && r == (if Nest(t) <= NESTING_LIMIT then Some(Reread(t)) else None)
              && (r == Some(t) <==> Nest(t) <= NESTING_LIMIT && Survives(t))
  {
    hide Derives, Reread, Nest, Survives;
    var text := Print(t, format);
    if text.None? { return None; }
    TextNulFree(t, format, 0);
    PrintedDerives(t, format, 0, requireEnd);
    RereadNest(t);
    RereadSame(t);
    ghost var end;
    r, end := Parse(text.value, requireEnd);
  }
}
