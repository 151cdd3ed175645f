/**
  Exactly which well-written texts the parser of kexpr.c gets right.  `last_is_val` is not reset by
  a comma, so a one-argument `+` or `-` that leads a later argument is read as a two-argument one.
  Source: liblinktool/klib/kexpr.c, lines 214-221, 289-299 and 300-324.
 */
module KexprSigns {
  import opened Kexpr
  import opened KexprTrees

  predicate IsSign(op: Op) { op.Pos? || op.Neg? }

  /** One-argument signs in the output. */
  function Signs(elems: seq<Elem>): nat {
    if elems == [] then 0
    else Signs(elems[..|elems| - 1]) + if elems[|elems| - 1].Oper? && IsSign(elems[|elems| - 1].op) then 1 else 0
  }

  /** One-argument signs on the operator stack. */
  function Pending(op: seq<Entry>): nat {
    if op == [] then 0 else Pending(Below(op)) + if Top(op).EOp? && IsSign(Top(op).op) then 1 else 0
  }

  function NextLast(tok: Tok, last: bool): bool {
    match tok
    case TNum(_) => true
    case TVar(_) => true
    case TLeft => last
    case TRight => last
    case TComma => last
    case _ => false
  }

  function LastAfter(toks: seq<Tok>, last: bool): bool {
    if toks == [] then last else LastAfter(toks[1..], NextLast(toks[0], last))
  }

  predicate ReadsSign(tok: Tok, last: bool) {
    (tok.TPlus? || tok.TMinus? || tok.TOp?) && IsSign(ReadOp(tok, last))
  }

  /** How many symbols the parser reads as one-argument signs. */
  function ReadSigns(toks: seq<Tok>, last: bool): nat {
    if toks == [] then 0
    else ReadSigns(toks[1..], NextLast(toks[0], last)) + if ReadsSign(toks[0], last) then 1 else 0
  }

  // ---------------------------------------------------------------- nothing is lost on the way to the output

  lemma {:induction false} SignsAppend(a: seq<Elem>, b: seq<Elem>)
    ensures Signs(a + b) == Signs(a) + Signs(b)
    decreases |b|
  {
    if b == [] {
      assert a + b == a;
    } else {
      assert (a + b)[..|a + b| - 1] == a + b[..|b| - 1];
      SignsAppend(a, b[..|b| - 1]);
    }
  }

  lemma SignsPush(a: seq<Elem>, x: Elem)
    ensures Signs(a + [x]) == Signs(a) + if x.Oper? && IsSign(x.op) then 1 else 0
  {
    assert (a + [x])[..|a|] == a;
  }

  lemma PendingPush(op: seq<Entry>, x: Entry)
    ensures Pending(op + [x]) == Pending(op) + if x.EOp? && IsSign(x.op) then 1 else 0
  {
    assert Below(op + [x]) == op;
  }

  lemma {:induction false} PopToLeftKeeps(out: seq<Elem>, op: seq<Entry>)
    ensures var (out', op') := PopToLeft(out, op); Signs(out') + Pending(op') == Signs(out) + Pending(op)
    decreases |op|
  {
    if op != [] && !Top(op).Left? {
      SignsPush(out, Emit(Top(op)));
      PopToLeftKeeps(out + [Emit(Top(op))], Below(op));
    }
  }

  lemma {:induction false} PopOpsKeeps(out: seq<Elem>, op: seq<Entry>, o: Op)
    ensures var (out', op') := PopOps(out, op, o); Signs(out') + Pending(op') == Signs(out) + Pending(op)
    decreases |op|
  {
    if op != [] && Top(op).EOp? && !Stays(o, Top(op).op) {
      SignsPush(out, Oper(Top(op).op));
      PopOpsKeeps(out + [Oper(Top(op).op)], Below(op), o);
    }
  }

  lemma PendingUpdate(op: seq<Entry>, x: Entry)
    requires 2 <= |op| && op[|op| - 2].EFunc? && x.EFunc?
    ensures Pending(op[|op| - 2 := x]) == Pending(op)
  {
    var op' := op[|op| - 2 := x];
    assert Below(Below(op')) == Below(Below(op));
  }

  /** Signs read so far, wherever they are. */
  function Balance(s: State): nat
    requires s.St?
  {
    Signs(s.out) + Pending(s.op)
  }

  lemma PoppedFunc(out: seq<Elem>, op: seq<Entry>)
    requires op != [] && Top(op).EFunc?
    ensures Signs(out + [EmitFunc(Top(op).name, Top(op).nArgs)]) + Pending(Below(op)) == Signs(out) + Pending(op)
  {
    SignsPush(out, EmitFunc(Top(op).name, Top(op).nArgs));
  }

  lemma KeepsRight(s: State)
    requires s.St? && Feed(s, TRight).St?
    ensures Feed(s, TRight).last == s.last && Balance(Feed(s, TRight)) == Balance(s)
  {
    PopToLeftKeeps(s.out, s.op);
    var r := PopToLeft(s.out, s.op);
    assert Pending(r.1) == Pending(Below(r.1));
    if Below(r.1) != [] && Top(Below(r.1)).EFunc? { PoppedFunc(r.0, Below(r.1)); }
  }

  lemma KeepsComma(s: State)
    requires s.St? && Feed(s, TComma).St?
    ensures Feed(s, TComma).last == s.last && Balance(Feed(s, TComma)) == Balance(s)
  {
    PopToLeftKeeps(s.out, s.op);
    var (out, op) := PopToLeft(s.out, s.op);
    PendingUpdate(op, EFunc(op[|op| - 2].name, op[|op| - 2].nArgs + 1));
  }

  lemma KeepsSymbol(s: State, tok: Tok)
    requires s.St? && (tok.TPlus? || tok.TMinus? || tok.TOp?)
    ensures Feed(s, tok).St? && !Feed(s, tok).last
    ensures Balance(Feed(s, tok)) == Balance(s) + if ReadsSign(tok, s.last) then 1 else 0
  {
    var o := ReadOp(tok, s.last);
    PopOpsKeeps(s.out, s.op, o);
    PendingPush(PopOps(s.out, s.op, o).1, EOp(o));
  }

  lemma FeedKeeps(s: State, tok: Tok)
    requires s.St? && Feed(s, tok).St?
    ensures Feed(s, tok).last == NextLast(tok, s.last)
    ensures Balance(Feed(s, tok)) == Balance(s) + if ReadsSign(tok, s.last) then 1 else 0
  {
    match tok
    case TLeft => PendingPush(s.op, Left);
    case TRight => KeepsRight(s);
    case TComma => KeepsComma(s);
    case TNum(v) => SignsPush(s.out, Num(v));
    case TVar(x) => SignsPush(s.out, Var(x, UNSET, false));
    case TFunc(f) => PendingPush(s.op, EFunc(f, 1));
    case _ => KeepsSymbol(s, tok);
  }

  lemma {:induction false} FeedAllKeeps(s: State, toks: seq<Tok>)
    requires s.St? && FeedAll(s, toks).St?
    ensures Balance(FeedAll(s, toks)) == Balance(s) + ReadSigns(toks, s.last)
    decreases |toks|, 1
  {
    if toks != [] {
      FeedAllStep(s, Feed(s, toks[0]), toks[0], toks[1..]);
    }
  }

  lemma {:induction false} FeedAllStep(s: State, s1: State, tok: Tok, rest: seq<Tok>)
    requires s.St? && s1 == Feed(s, tok) && FeedAll(s1, rest).St?
    ensures Balance(FeedAll(s1, rest)) ==
        Balance(s) + (if ReadsSign(tok, s.last) then 1 else 0) + ReadSigns(rest, NextLast(tok, s.last))
    decreases |rest| + 1, 0
  {
    if s1.Stop? { StopIsFinal(s1.error, rest); }
    FeedKeeps(s, tok);
    FeedAllKeeps(s1, rest);
  }

  /** Every symbol read as a one-argument sign ends up in the output. */
  lemma ParsedSigns(toks: seq<Tok>)
    requires Parse(toks).Ok?
    ensures Signs(Parse(toks).elems) == ReadSigns(toks, false)
  {
    var s := FeedAll(START, toks);
    FeedAllKeeps(START, toks);
    PopToLeftKeeps(s.out, s.op);
  }

  // ---------------------------------------------------------------- how many signs the tree has

  function TreeSigns(e: Expr): nat {
    match e
    case EUn(op, arg) => TreeSigns(arg) + if IsSign(op) then 1 else 0
    case EBin(_, l, r) => TreeSigns(l) + TreeSigns(r)
    case EParen(e1) => TreeSigns(e1)
    case ECall(_, args) => TreeSignsArgs(args)
    case _ => 0
  }

  function TreeSignsArgs(a: Args): nat {
    match a case Last(e) => TreeSigns(e) case More(e, rest) => TreeSigns(e) + TreeSignsArgs(rest)
  }

  /** How many signs of the tree are read as two-argument operators when reading starts with `last`. */
  function Misread(e: Expr, last: bool): nat {
    match e
    case EUn(op, arg) => Misread(arg, false) + if IsSign(op) && last then 1 else 0
    case EBin(_, l, r) => Misread(l, last) + Misread(r, false)
    case EParen(e1) => Misread(e1, last)
    case ECall(_, args) => MisreadArgs(args, false)
    case _ => 0
  }

  function MisreadArgs(a: Args, last: bool): nat {
    match a case Last(e) => Misread(e, last) case More(e, rest) => Misread(e, last) + MisreadArgs(rest, true)
  }

  lemma {:induction false} SignsOfTree(e: Expr)
    requires WellWritten(e)
    ensures Signs(Rpn(e)) == TreeSigns(e)
    decreases e
  {
    match e
    case ENum(v) => SignsPush([], Num(v));
    case EVar(x) => SignsPush([], Var(x, UNSET, false));
    case EUn(op, arg) =>
      SignsOfTree(arg);
      SignsPush(Rpn(arg), Oper(op));
    case EBin(op, l, r) =>
      SignsOfTree(l);
      SignsOfTree(r);
      SignsAppend(Rpn(l), Rpn(r));
      SignsPush(Rpn(l) + Rpn(r), Oper(op));
    case EParen(e1) => SignsOfTree(e1);
    case ECall(f, args) =>
      SignsOfArgs(args);
      SignsPush(RpnArgs(args), EmitFunc(f, Count(args)));
  }

  lemma {:induction false} SignsOfArgs(a: Args)
    requires WellWrittenArgs(a)
    ensures Signs(RpnArgs(a)) == TreeSignsArgs(a)
    decreases a
  {
    SignsOfTree(a.e);
    if a.More? {
      SignsOfArgs(a.rest);
      SignsAppend(Rpn(a.e), RpnArgs(a.rest));
    }
  }

  lemma {:induction false} ReadAppend(a: seq<Tok>, b: seq<Tok>, last: bool)
    ensures ReadSigns(a + b, last) == ReadSigns(a, last) + ReadSigns(b, LastAfter(a, last))
    ensures LastAfter(a + b, last) == LastAfter(b, LastAfter(a, last))
    decreases |a|
  {
    if a == [] {
      assert a + b == b;
    } else {
      assert (a + b)[0] == a[0] && (a + b)[1..] == a[1..] + b;
      ReadAppend(a[1..], b, NextLast(a[0], last));
    }
  }

  lemma ReadOne(t: Tok, last: bool)
    ensures LastAfter([t], last) == NextLast(t, last)
    ensures ReadSigns([t], last) == if ReadsSign(t, last) then 1 else 0
  {
    assert [t][1..] == [];
  }

  lemma ReadInfix(tl: seq<Tok>, op: Op, tr: seq<Tok>, last: bool)
    requires !IsUnary(op) && LastAfter(tl, last)
    ensures LastAfter(tl + ([Symbol(op)] + tr), last) == LastAfter(tr, false)
    ensures ReadSigns(tl + ([Symbol(op)] + tr), last) == ReadSigns(tl, last) + ReadSigns(tr, false)
  {
    ReadAppend(tl, [Symbol(op)] + tr, last);
    ReadAppend([Symbol(op)], tr, true);
    ReadOne(Symbol(op), true);
  }

  lemma ReadPrefix(op: Op, t: seq<Tok>, last: bool)
    requires IsUnary(op)
    ensures LastAfter([Symbol(op)] + t, last) == LastAfter(t, false)
    ensures ReadSigns([Symbol(op)] + t, last) == ReadSigns(t, false) + if IsSign(op) && !last then 1 else 0
  {
    ReadAppend([Symbol(op)], t, last);
    ReadOne(Symbol(op), last);
  }

  lemma ReadParens(t: seq<Tok>, last: bool)
    requires LastAfter(t, last)
    ensures LastAfter([TLeft] + (t + [TRight]), last)
    ensures ReadSigns([TLeft] + (t + [TRight]), last) == ReadSigns(t, last)
  {
    ReadAppend([TLeft], t + [TRight], last);
    ReadAppend(t, [TRight], last);
    ReadOne(TLeft, last);
    ReadOne(TRight, true);
  }

  lemma ReadCall(f: string, t: seq<Tok>, last: bool)
    requires LastAfter(t, false)
    ensures LastAfter([TFunc(f), TLeft] + (t + [TRight]), last)
    ensures ReadSigns([TFunc(f), TLeft] + (t + [TRight]), last) == ReadSigns(t, false)
  {
    assert [TFunc(f), TLeft] + (t + [TRight]) == [TFunc(f)] + ([TLeft] + (t + [TRight]));
    ReadAppend([TFunc(f)], [TLeft] + (t + [TRight]), last);
    ReadOne(TFunc(f), last);
    ReadParens(t, false);
  }

  /** Reading a tree ends behind a value, and takes all its signs for signs except the misread ones. */
  lemma {:induction false} ReadTree(e: Expr, last: bool)
    requires WellWritten(e)
    ensures LastAfter(Toks(e), last)
    ensures ReadSigns(Toks(e), last) + Misread(e, last) == TreeSigns(e)
    decreases e
  {
    match e
    case ENum(v) => ReadOne(TNum(v), last);
    case EVar(x) => ReadOne(TVar(x), last);
    case EUn(op, arg) =>
      ReadTree(arg, false);
      ReadPrefix(op, Toks(arg), last);
    case EBin(op, l, r) =>
      ReadTree(l, last);
      ReadTree(r, false);
      ReadInfix(Toks(l), op, Toks(r), last);
    case EParen(e1) =>
      ReadTree(e1, last);
      ReadParens(Toks(e1), last);
    case ECall(f, args) =>
      ReadArgs(args, false);
      ReadCall(f, ToksArgs(args), last);
  }

  lemma {:induction false} ReadArgs(a: Args, last: bool)
    requires WellWrittenArgs(a)
    ensures LastAfter(ToksArgs(a), last)
    ensures ReadSigns(ToksArgs(a), last) + MisreadArgs(a, last) == TreeSignsArgs(a)
    decreases a
  {
    ReadTree(a.e, last);
    match a
    case Last(e) =>
    case More(e, rest) =>
      ReadAppend(Toks(e), [TComma] + ToksArgs(rest), last);
      ReadAppend([TComma], ToksArgs(rest), true);
      ReadOne(TComma, true);
      ReadArgs(rest, true);
  }

  /** Nothing is misread exactly when no later argument leads with a sign. */
  lemma {:induction false} MisreadIff(e: Expr, last: bool)
    requires WellWritten(e)
    ensures Misread(e, last) == 0 <==> SignsOk(e) && !(last && LeadsWithSign(e))
    decreases e
  {
    match e
    case EUn(_, arg) => MisreadIff(arg, false);
    case EBin(_, l, r) =>
      MisreadIff(l, last);
      MisreadIff(r, false);
    case EParen(e1) => MisreadIff(e1, last);
    case ECall(_, args) => MisreadArgsIff(args, false);
    case _ =>
  }

  lemma {:induction false} MisreadArgsIff(a: Args, last: bool)
    requires WellWrittenArgs(a)
    ensures MisreadArgs(a, last) == 0 <==> SignsOkArgs(a) && !(last && LeadsWithSign(a.e))
    decreases a
  {
    MisreadIff(a.e, last);
    if a.More? { MisreadArgsIff(a.rest, true); }
  }

  // ---------------------------------------------------------------- main result

  /**
    A well-written text is parsed into its reverse Polish notation exactly when no later argument leads with
    a sign.
   */
  lemma ParseIsExact(e: Expr)
    requires WellWritten(e)
    ensures Parse(Toks(e)) == Ok(Rpn(e)) <==> SignsOk(e)
  {
    if SignsOk(e) {
      ParsePrinted(e);
    } else if Parse(Toks(e)).Ok? {
      ParsedSigns(Toks(e));
      ReadTree(e, false);
      MisreadIff(e, false);
      SignsOfTree(e);
    }
  }

  /** `pow(x,-y)` is one text the parser does not get right. */
  lemma SignInSecondArgument(x: string, y: string)
    ensures var e := ECall("pow", More(EVar(x), Last(EUn(Neg, EVar(y)))));
            WellWritten(e) && Parse(Toks(e)) != Ok(Rpn(e))
  {
    var neg := EUn(Neg, EVar(y));
    assert WellWritten(neg) && LeadsWithSign(neg);
    assert WellWrittenArgs(Last(neg)) && WellWrittenArgs(More(EVar(x), Last(neg)));
    ParseIsExact(ECall("pow", More(EVar(x), Last(neg))));
  }
}
