/**
  Which texts the parser refuses, and why: parentheses that do not match, a comma outside a call, and
  operands that do not add up to one value.
  Source: liblinktool/klib/kexpr.c, lines 269-343 and 376-395.
 */
module KexprErrors {
  import opened Kexpr
  import opened KexprEval
  import opened Wrappers

  /** Parentheses opened and not closed. */
  function Depth(toks: seq<Tok>): int {
    if toks == [] then 0
    else
      var last := toks[|toks| - 1];
      Depth(toks[..|toks| - 1]) + if last.TLeft? then 1 else if last.TRight? then -1 else 0
  }

  /** No right parenthesis comes without a left one before it. */
  ghost predicate NeverBelow(toks: seq<Tok>) {
    forall n :: 0 <= n <= |toks| ==> 0 <= Depth(toks[..n])
  }

  function Lefts(op: seq<Entry>): nat {
    if op == [] then 0 else Lefts(op[..|op| - 1]) + if op[|op| - 1].Left? then 1 else 0
  }

  lemma LeftsPush(op: seq<Entry>, e: Entry)
    ensures Lefts(op + [e]) == Lefts(op) + if e.Left? then 1 else 0
  {
    assert (op + [e])[..|op|] == op;
  }

  lemma {:induction false} LeftsToLeft(out: seq<Elem>, op: seq<Entry>)
    ensures var r := PopToLeft(out, op).1; Lefts(r) == Lefts(op) && (r == [] <==> Lefts(op) == 0)
    decreases |op|
  {
    if op != [] && !Top(op).Left? { LeftsToLeft(out + [Emit(Top(op))], Below(op)); }
  }

  lemma {:induction false} LeftsOps(out: seq<Elem>, op: seq<Entry>, o: Op)
    ensures Lefts(PopOps(out, op, o).1) == Lefts(op)
    decreases |op|
  {
    if op != [] && Top(op).EOp? && !Stays(o, Top(op).op) { LeftsOps(out + [Oper(Top(op).op)], Below(op), o); }
  }

  /** Counting an argument changes no parenthesis. */
  lemma LeftsCount(op: seq<Entry>, e: Entry)
    requires 2 <= |op| && op[|op| - 2].EFunc? && e.EFunc?
    ensures Lefts(op[|op| - 2 := e]) == Lefts(op)
  {
    var op' := op[|op| - 2 := e];
    assert op'[..|op| - 1][..|op| - 2] == op[..|op| - 1][..|op| - 2];
    assert Lefts(op[..|op| - 1]) == Lefts(op[..|op| - 1][..|op| - 2]);
    assert Lefts(op'[..|op| - 1]) == Lefts(op'[..|op| - 1][..|op| - 2]);
  }

  /** One token: the left parentheses on the stack are those not closed. */
  lemma FeedDepth(s: State, tok: Tok)
    requires s.St?
    ensures var r := Feed(s, tok);
            && (r.St? ==> Lefts(r.op) == Lefts(s.op) + (if tok.TLeft? then 1 else if tok.TRight? then -1 else 0))
            && (r == Stop(KEE_UNRP) <==> tok.TRight? && Lefts(s.op) == 0)
            && (r.Stop? && r != Stop(KEE_UNRP) ==> r == Stop(KEE_FUNC) && tok.TComma?)
            && (tok.TComma? && Lefts(s.op) == 0 ==> r == Stop(KEE_FUNC))
  {
    hide PopToLeft, PopOps;
    match tok
    case TLeft => LeftsPush(s.op, Left);
    case TRight =>
      LeftsToLeft(s.out, s.op);
      if 0 < Lefts(s.op) { PoppedIsLeft(s.out, s.op); }
    case TComma =>
      LeftsToLeft(s.out, s.op);
      var op := PopToLeft(s.out, s.op).1;
      if 2 <= |op| && op[|op| - 2].EFunc? { LeftsCount(op, EFunc(op[|op| - 2].name, op[|op| - 2].nArgs + 1)); }
    case TNum(_) =>
    case TVar(_) =>
    case TFunc(f) => LeftsPush(s.op, EFunc(f, 1));
    case _ =>
      var o := ReadOp(tok, s.last);
      LeftsOps(s.out, s.op, o);
      LeftsPush(PopOps(s.out, s.op, o).1, EOp(o));
  }

  /** Once the left parenthesis and the function below it are gone, one parenthesis is closed. */
  lemma PoppedIsLeft(out: seq<Elem>, op: seq<Entry>)
    requires Lefts(op) > 0
    ensures var r := PopToLeft(out, op).1;
            && r != [] && Lefts(Below(r)) == Lefts(op) - 1
            && (Below(r) != [] && Top(Below(r)).EFunc? ==> Lefts(Below(Below(r))) == Lefts(op) - 1)
  {
    LeftsToLeft(out, op);
  }

  /** How far the parser gets. */
  ghost predicate Sound(toks: seq<Tok>, r: State) {
    match r
    case St(_, op, _) => NeverBelow(toks) && Lefts(op) == Depth(toks)
    case Stop(e) =>
      || (e == KEE_UNRP && !NeverBelow(toks))
      || (e == KEE_FUNC && exists n :: 0 <= n < |toks| && toks[n].TComma? && NeverBelow(toks[..n]))
  }

  lemma {:induction false} FeedLast(s: State, toks: seq<Tok>, tok: Tok)
    ensures FeedAll(s, toks + [tok]) == Feed(FeedAll(s, toks), tok)
    decreases |toks|
  {
    if toks == [] {
      assert [tok][1..] == [];
    } else {
      assert (toks + [tok])[1..] == toks[1..] + [tok];
      FeedLast(Feed(s, toks[0]), toks[1..], tok);
    }
  }

  lemma PrefixOf(toks: seq<Tok>, n: nat, i: nat)
    requires i <= n <= |toks|
    ensures toks[..n][..i] == toks[..i]
  {
  }

  lemma DepthLast(toks: seq<Tok>)
    requires toks != []
    ensures var n := |toks| - 1; NeverBelow(toks) <==> NeverBelow(toks[..n]) && 0 <= Depth(toks)
  {
    hide Depth;
    var n := |toks| - 1;
    assert toks[..|toks|] == toks;
    if NeverBelow(toks) { BelowBefore(toks, n); }
    if NeverBelow(toks[..n]) && 0 <= Depth(toks) {
      forall i | 0 <= i <= |toks| ensures 0 <= Depth(toks[..i]) {
        if i <= n { PrefixOf(toks, n, i); }
      }
    }
  }

  lemma BelowBefore(toks: seq<Tok>, n: nat)
    requires n <= |toks| && NeverBelow(toks)
    ensures NeverBelow(toks[..n])
  {
    hide Depth;
    forall i | 0 <= i <= n ensures 0 <= Depth(toks[..n][..i]) { PrefixOf(toks, n, i); }
  }

  lemma {:induction false} FeedSound(toks: seq<Tok>)
    ensures Sound(toks, FeedAll(START, toks))
    decreases |toks|
  {
    if toks != [] {
      var n := |toks| - 1;
      var init, tok := toks[..n], toks[n];
      assert toks == init + [tok];
      FeedSound(init);
      FeedLast(START, init, tok);
      DepthLast(toks);
      var s := FeedAll(START, init);
      if s.St? {
        FeedDepth(s, tok);
      } else if s.error == KEE_FUNC {
        var i :| 0 <= i < n && init[i].TComma? && NeverBelow(init[..i]);
        assert toks[..i] == init[..i];
      }
    } else {
      assert forall i :: 0 <= i <= |toks| ==> toks[..i] == [];
    }
  }

  /**
    Unless a comma stops the parser first, it reports a right parenthesis too many exactly if some prefix
    has one, and otherwise a left one too many exactly if some are not closed in the end.
   */
  lemma ParensChecked(toks: seq<Tok>)
    ensures Parse(toks) != Err(KEE_FUNC) ==>
              && (Parse(toks) == Err(KEE_UNRP) <==> !NeverBelow(toks))
              && (Parse(toks) == Err(KEE_UNLP) <==> NeverBelow(toks) && 0 < Depth(toks))
    ensures Parse(toks) == Err(KEE_FUNC) ==>
              exists n :: 0 <= n < |toks| && toks[n].TComma? && NeverBelow(toks[..n])
  {
    FeedSound(toks);
    var s := FeedAll(START, toks);
    if s.St? { LeftsToLeft(s.out, s.op); }
  }

  /** A comma outside all parentheses is refused, unless a right parenthesis was before. */
  lemma {:induction false} CommaOutside(toks: seq<Tok>, n: nat)
    requires n < |toks| && toks[n].TComma? && Depth(toks[..n]) == 0 && NeverBelow(toks[..n])
    ensures Parse(toks) == Err(KEE_FUNC)
  {
    FeedSound(toks[..n]);
    FeedLast(START, toks[..n], toks[n]);
    var s := FeedAll(START, toks[..n]);
    if s.St? { FeedDepth(s, toks[n]); }
    FeedSplit(START, toks[..n] + [toks[n]], toks[n + 1..]);
    assert toks == toks[..n] + [toks[n]] + toks[n + 1..];
    StopIsFinal(KEE_FUNC, toks[n + 1..]);
  }

  lemma {:induction false} FeedSplit(s: State, a: seq<Tok>, b: seq<Tok>)
    ensures FeedAll(s, a + b) == FeedAll(FeedAll(s, a), b)
    decreases |a|
  {
    if a == [] {
      assert a + b == b;
    } else {
      assert (a + b)[1..] == a[1..] + b;
      FeedSplit(Feed(s, a[0]), a[1..], b);
    }
  }

  // ---------------------------------------------------------------- one value in the end

  /** The elements a text is turned into, whether they are accepted or not. */
  function Output(toks: seq<Tok>): seq<Elem>
    requires FeedAll(START, toks).St?
  {
    PopToLeft(FeedAll(START, toks).out, FeedAll(START, toks).op).0
  }

  /** Running elements changes the height of the stack by what they supply less what they take. */
  lemma {:induction false} Height(sem: Sem, stack: seq<V>, elems: seq<Elem>)
    requires Run(sem, stack, elems).Some?
    ensures |Run(sem, stack, elems).value| == |stack| + Net(elems)
    decreases |elems|
  {
    if elems != [] {
      var n := |elems| - 1;
      assert elems == elems[..n] + [elems[n]];
      RunAppend(sem, stack, elems[..n], [elems[n]]);
      Height(sem, stack, elems[..n]);
      RunOne(sem, Run(sem, stack, elems[..n]).value, elems[n]);
    }
  }

  /**
    A text whose parentheses and commas are in order is accepted exactly if its elements, wherever they
    find their arguments, leave one value.
   */
  lemma OneValue(toks: seq<Tok>, sem: Sem)
    requires FeedAll(START, toks).St? && Depth(toks) == 0 && Run(sem, [], Output(toks)).Some?
    ensures Parse(toks) == if |Run(sem, [], Output(toks)).value| == 1 then Ok(Output(toks)) else Err(KEE_ARG)
  {
    FeedSound(toks);
    LeftsToLeft(FeedAll(START, toks).out, FeedAll(START, toks).op);
    Height(sem, [], Output(toks));
  }
}
