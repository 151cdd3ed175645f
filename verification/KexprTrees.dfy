/**
  Expression trees, the infix tokens they are written with, the reverse Polish notation they stand
  for, and the proof that the parser of kexpr.c turns the one into the other.
  Source: liblinktool/klib/kexpr.c, lines 64-78 and 254-352.
 */
module KexprTrees {
  import opened Kexpr

  // ---------------------------------------------------------------- trees

  /** `EParen` is a pair of parentheses in the text; a call has at least one argument. */
  datatype Expr =
    | ENum(val: V)
    | EVar(name: string)
    | EUn(op: Op, arg: Expr)
    | EBin(op: Op, l: Expr, r: Expr)
    | EParen(e: Expr)
    | ECall(name: string, args: Args)

  datatype Args = Last(e: Expr) | More(e: Expr, rest: Args)

  function Count(a: Args): (n: int)
    ensures 1 <= n
  {
    match a case Last(_) => 1 case More(_, rest) => 1 + Count(rest)
  }

  /** How loosely the outermost operator binds; 0 when there is none. */
  function Level(e: Expr): nat {
    match e
    case EUn(_, _) => 1
    case EBin(op, _, _) => Prec(op)
    case _ => 0
  }

  /** May an operand of this level stand to the right of `op` without parentheses? */
  predicate AdmitsRight(op: Op, level: nat) {
    if RightAssoc(op) then level <= Prec(op) else level < Prec(op)
  }

  predicate AdmitsLeft(op: Op, level: nat) {
    if RightAssoc(op) then level < Prec(op) else level <= Prec(op)
  }

  /** The text has parentheses wherever precedence and associativity ask for them. */
  predicate WellWritten(e: Expr) {
    match e
    case ENum(_) => true
    case EVar(_) => true
    case EUn(op, arg) => IsUnary(op) && AdmitsRight(op, Level(arg)) && WellWritten(arg)
    case EBin(op, l, r) =>
      !IsUnary(op) && AdmitsLeft(op, Level(l)) && AdmitsRight(op, Level(r)) && WellWritten(l) && WellWritten(r)
    case EParen(e1) => WellWritten(e1)
    case ECall(_, args) => WellWrittenArgs(args)
  }

  predicate WellWrittenArgs(a: Args) {
    match a
    case Last(e) => WellWritten(e)
    case More(e, rest) => WellWritten(e) && WellWrittenArgs(rest)
  }

  // ---------------------------------------------------------------- infix tokens

  function Symbol(op: Op): (t: Tok)
    ensures t.TPlus? || t.TMinus? || t == TOp(op)
  {
    match op
    case Pos => TPlus
    case Add => TPlus
    case Neg => TMinus
    case Sub => TMinus
    case _ => TOp(op)
  }

  function Toks(e: Expr): seq<Tok> {
    match e
    case ENum(v) => [TNum(v)]
    case EVar(x) => [TVar(x)]
    case EUn(op, arg) => [Symbol(op)] + Toks(arg)
    case EBin(op, l, r) => Toks(l) + ([Symbol(op)] + Toks(r))
    case EParen(e1) => [TLeft] + (Toks(e1) + [TRight])
    case ECall(f, args) => [TFunc(f), TLeft] + (ToksArgs(args) + [TRight])
  }

  function ToksArgs(a: Args): seq<Tok> {
    match a
    case Last(e) => Toks(e)
    case More(e, rest) => Toks(e) + ([TComma] + ToksArgs(rest))
  }

  // ---------------------------------------------------------------- reverse Polish notation

  function Rpn(e: Expr): seq<Elem> {
    match e
    case ENum(v) => [Num(v)]
    case EVar(x) => [Var(x, UNSET, false)]
    case EUn(op, arg) => Rpn(arg) + [Oper(op)]
    case EBin(op, l, r) => Rpn(l) + Rpn(r) + [Oper(op)]
    case EParen(e1) => Rpn(e1)
    case ECall(f, args) => RpnArgs(args) + [EmitFunc(f, Count(args))]
  }

  function RpnArgs(a: Args): seq<Elem> {
    match a
    case Last(e) => Rpn(e)
    case More(e, rest) => Rpn(e) + RpnArgs(rest)
  }

  // ---------------------------------------------------------------- the sign rule

  /** The first symbol past opening parentheses is a one-argument `+` or `-`. */
  predicate LeadsWithSign(e: Expr) {
    match e
    case EUn(op, _) => op.Pos? || op.Neg?
    case EBin(_, l, _) => LeadsWithSign(l)
    case EParen(e1) => LeadsWithSign(e1)
    case _ => false
  }

  /** No function argument but the first leads with a sign. */
  predicate SignsOk(e: Expr) {
    match e
    case ENum(_) => true
    case EVar(_) => true
    case EUn(_, arg) => SignsOk(arg)
    case EBin(_, l, r) => SignsOk(l) && SignsOk(r)
    case EParen(e1) => SignsOk(e1)
    case ECall(_, args) => SignsOkArgs(args)
  }

  predicate SignsOkArgs(a: Args) {
    match a
    case Last(e) => SignsOk(e)
    case More(e, rest) => SignsOk(e) && !LeadsWithSign(rest.e) && SignsOkArgs(rest)
  }

  // ---------------------------------------------------------------- what is out and what is pending

  /** The operators still on the stack when the tokens of `e` have been read: those of its right edge. */
  function Spine(e: Expr): seq<Op> {
    match e
    case EUn(op, arg) => [op] + Spine(arg)
    case EBin(op, _, r) => [op] + Spine(r)
    case _ => []
  }

  /** What has been emitted by then. */
  function Emitted(e: Expr): seq<Elem> {
    match e
    case EUn(_, arg) => Emitted(arg)
    case EBin(_, l, r) => Rpn(l) + Emitted(r)
    case _ => Rpn(e)
  }

  function Entries(ops: seq<Op>): (r: seq<Entry>)
    ensures |r| == |ops| && forall i :: 0 <= i < |ops| ==> r[i] == EOp(ops[i])
  {
    if ops == [] then [] else Entries(ops[..|ops| - 1]) + [EOp(ops[|ops| - 1])]
  }

  /** Operators in the order they leave the stack. */
  function Unstacked(ops: seq<Op>): seq<Elem> {
    if ops == [] then [] else [Oper(ops[|ops| - 1])] + Unstacked(ops[..|ops| - 1])
  }

  lemma {:induction false} UnstackedCons(op: Op, ops: seq<Op>)
    ensures Unstacked([op] + ops) == Unstacked(ops) + [Oper(op)]
  {
    var all := [op] + ops;
    if ops != [] {
      assert all[|all| - 1] == ops[|ops| - 1] && all[..|all| - 1] == [op] + ops[..|ops| - 1];
      UnstackedCons(op, ops[..|ops| - 1]);
      assert Unstacked(all) == [Oper(ops[|ops| - 1])] + (Unstacked(ops[..|ops| - 1]) + [Oper(op)]);
    } else {
      assert all[..0] == [];
    }
  }

  lemma Regroup(a: seq<Elem>, b: seq<Elem>, c: seq<Elem>, d: seq<Elem>)
    ensures (a + b) + (c + d) == a + (b + c) + d
  {
  }

  /** Emitted and pending together are the reverse Polish notation. */
  lemma {:induction false} EmittedPlusSpine(e: Expr)
    ensures Emitted(e) + Unstacked(Spine(e)) == Rpn(e)
  {
    match e
    case EUn(op, arg) =>
      EmittedPlusSpine(arg);
      UnstackedCons(op, Spine(arg));
      Regroup([], Emitted(arg), Unstacked(Spine(arg)), [Oper(op)]);
    case EBin(op, l, r) =>
      EmittedPlusSpine(r);
      UnstackedCons(op, Spine(r));
      Regroup(Rpn(l), Emitted(r), Unstacked(Spine(r)), [Oper(op)]);
    case _ =>
  }

  /** Everything on the right edge binds at least as tightly as the outermost operator. */
  lemma {:induction false} SpineTight(e: Expr)
    requires WellWritten(e)
    ensures forall i :: 0 <= i < |Spine(e)| ==> Prec(Spine(e)[i]) <= Level(e)
  {
    match e
    case EUn(op, arg) => SpineTight(arg);
    case EBin(op, _, r) => SpineTight(r);
    case _ =>
  }

  // ---------------------------------------------------------------- popping

  /** Reading `o` pops a spine that binds tightly enough, and nothing below an operator that stays. */
  lemma {:induction false} PopSpine(out: seq<Elem>, base: seq<Entry>, ops: seq<Op>, o: Op)
    requires forall i :: 0 <= i < |ops| ==> AdmitsLeft(o, Prec(ops[i]))
    requires base == [] || !Top(base).EOp? || Stays(o, Top(base).op)
    ensures PopOps(out, base + Entries(ops), o) == (out + Unstacked(ops), base)
    decreases |ops|
  {
    var op := base + Entries(ops);
    if ops == [] {
      assert op == base && out + Unstacked(ops) == out;
    } else {
      var init, last := ops[..|ops| - 1], ops[|ops| - 1];
      assert Top(op) == EOp(last) && Below(op) == base + Entries(init);
      PopSpine(out + [Oper(last)], base, init, o);
      assert out + [Oper(last)] + Unstacked(init) == out + Unstacked(ops);
    }
  }

  /** A right parenthesis, a comma or the end of the text pops the whole spine. */
  lemma {:induction false} PopAll(out: seq<Elem>, base: seq<Entry>, ops: seq<Op>)
    requires base == [] || Top(base).Left?
    ensures PopToLeft(out, base + Entries(ops)) == (out + Unstacked(ops), base)
    decreases |ops|
  {
    var op := base + Entries(ops);
    if ops == [] {
      assert op == base && out + Unstacked(ops) == out;
    } else {
      var init, last := ops[..|ops| - 1], ops[|ops| - 1];
      assert Top(op) == EOp(last) && Below(op) == base + Entries(init);
      PopAll(out + [Oper(last)], base, init);
      assert out + [Oper(last)] + Unstacked(init) == out + Unstacked(ops);
    }
  }

  lemma {:induction false} FeedAppend(s: State, a: seq<Tok>, b: seq<Tok>)
    ensures FeedAll(s, a + b) == FeedAll(FeedAll(s, a), b)
    decreases |a|
  {
    if a == [] {
      assert a + b == b;
    } else {
      assert (a + b)[0] == a[0] && (a + b)[1..] == a[1..] + b;
      FeedAppend(Feed(s, a[0]), a[1..], b);
    }
  }

  lemma FeedOne(s: State, t: Tok, rest: seq<Tok>)
    ensures FeedAll(s, [t] + rest) == FeedAll(Feed(s, t), rest)
  {
    assert ([t] + rest)[1..] == rest;
  }

  // ---------------------------------------------------------------- the parser reads a tree

  /** An operand of this level may be read on top of this stack. */
  predicate Hosts(base: seq<Entry>, level: nat) {
    base == [] || Top(base).Left? || (Top(base).EOp? && AdmitsRight(Top(base).op, level))
  }

  /** Operators of one precedence associate the same way, so a hosted operator does not pop its host. */
  lemma HostStays(base: seq<Entry>, o: Op)
    requires Hosts(base, Prec(o)) && !IsUnary(o)
    ensures base == [] || !Top(base).EOp? || Stays(o, Top(base).op)
  {
  }

  lemma {:induction false} EntriesCons(op: Op, ops: seq<Op>)
    ensures Entries([op] + ops) == [EOp(op)] + Entries(ops)
  {
    var l, r := Entries([op] + ops), [EOp(op)] + Entries(ops);
    forall i | 0 <= i < |l| ensures l[i] == r[i] {
      assert ([op] + ops)[i] == if i == 0 then op else ops[i - 1];
    }
  }

  /** The symbol of a one-argument operator where an operand is expected. */
  lemma FeedPrefix(op: Op, out: seq<Elem>, base: seq<Entry>, last: bool, rest: seq<Tok>)
    requires IsUnary(op) && !(last && (op.Pos? || op.Neg?))
    ensures FeedAll(St(out, base, last), [Symbol(op)] + rest) == FeedAll(St(out, base + [EOp(op)], false), rest)
  {
    FeedOne(St(out, base, last), Symbol(op), rest);
    assert ReadOp(Symbol(op), last) == op;
    assert PopOps(out, base, op) == (out, base);
  }

  /** The symbol of a two-argument operator behind its left operand, of which `spine` is pending. */
  lemma FeedInfix(op: Op, out: seq<Elem>, base: seq<Entry>, spine: seq<Op>, rest: seq<Tok>)
    requires !IsUnary(op) && Hosts(base, Prec(op))
    requires forall i :: 0 <= i < |spine| ==> AdmitsLeft(op, Prec(spine[i]))
    ensures FeedAll(St(out, base + Entries(spine), true), [Symbol(op)] + rest)
         == FeedAll(St(out + Unstacked(spine), base + [EOp(op)], false), rest)
  {
    FeedOne(St(out, base + Entries(spine), true), Symbol(op), rest);
    assert ReadOp(Symbol(op), true) == op;
    HostStays(base, op);
    PopSpine(out, base, spine, op);
  }

  lemma SpinePopped(op: Op, l: Expr)
    requires WellWritten(l) && AdmitsLeft(op, Level(l))
    ensures forall i :: 0 <= i < |Spine(l)| ==> AdmitsLeft(op, Prec(Spine(l)[i]))
  {
    SpineTight(l);
  }

  /** The right edge of the right operand goes on top of the operator. */
  lemma StackRight(base: seq<Entry>, op: Op, ops: seq<Op>)
    ensures base + [EOp(op)] + Entries(ops) == base + Entries([op] + ops)
  {
    EntriesCons(op, ops);
  }

  lemma Push3(out: seq<Elem>, a: seq<Elem>, b: seq<Elem>)
    ensures out + a + b == out + (a + b)
  {
  }

  /** An operator between two operands whose tokens are read as they should be. */
  lemma FeedBinary(op: Op, s: State, tl: seq<Tok>, tr: seq<Tok>, out: seq<Elem>, base: seq<Entry>,
                   el: seq<Elem>, sl: seq<Op>, er: seq<Elem>, sr: seq<Op>)
    requires !IsUnary(op) && Hosts(base, Prec(op))
    requires forall i :: 0 <= i < |sl| ==> AdmitsLeft(op, Prec(sl[i]))
    requires FeedAll(s, tl) == St(out + el, base + Entries(sl), true)
    requires FeedAll(St(out + (el + Unstacked(sl)), base + [EOp(op)], false), tr)
          == St(out + (el + Unstacked(sl)) + er, base + [EOp(op)] + Entries(sr), true)
    ensures FeedAll(s, tl + ([Symbol(op)] + tr))
         == St(out + (el + Unstacked(sl) + er), base + Entries([op] + sr), true)
  {
    FeedAppend(s, tl, [Symbol(op)] + tr);
    FeedInfix(op, out + el, base, sl, tr);
    Push3(out, el, Unstacked(sl));
    Push3(out, el + Unstacked(sl), er);
    StackRight(base, op, sr);
  }

  /** The right parenthesis that ends `spine`, with no function below. */
  lemma FeedClose(out: seq<Elem>, base: seq<Entry>, spine: seq<Op>)
    requires base == [] || !Top(base).EFunc?
    ensures FeedAll(St(out, base + [Left] + Entries(spine), true), [TRight]) == St(out + Unstacked(spine), base, true)
  {
    var s := St(out, base + [Left] + Entries(spine), true);
    PopAll(out, base + [Left], spine);
    assert Below(base + [Left]) == base;
    FeedOne(s, TRight, []);
    assert [TRight] + [] == [TRight];
  }

  /** The right parenthesis that ends the arguments of a call. */
  lemma FeedCloseCall(out: seq<Elem>, base: seq<Entry>, f: string, n: int, spine: seq<Op>)
    ensures FeedAll(St(out, base + [EFunc(f, n), Left] + Entries(spine), true), [TRight])
         == St(out + Unstacked(spine) + [EmitFunc(f, n)], base, true)
  {
    var s := St(out, base + [EFunc(f, n), Left] + Entries(spine), true);
    PopAll(out, base + [EFunc(f, n), Left], spine);
    assert Below(base + [EFunc(f, n), Left]) == base + [EFunc(f, n)];
    assert Below(base + [EFunc(f, n)]) == base;
    FeedOne(s, TRight, []);
    assert [TRight] + [] == [TRight];
  }

  lemma FeedComma(out: seq<Elem>, base: seq<Entry>, f: string, n: int, spine: seq<Op>, rest: seq<Tok>)
    ensures FeedAll(St(out, base + [EFunc(f, n), Left] + Entries(spine), true), [TComma] + rest)
         == FeedAll(St(out + Unstacked(spine), base + [EFunc(f, n + 1), Left], true), rest)
  {
    var s := St(out, base + [EFunc(f, n), Left] + Entries(spine), true);
    var op := base + [EFunc(f, n), Left];
    PopAll(out, op, spine);
    FeedOne(s, TComma, rest);
    assert op[|op| - 2 := EFunc(f, n + 1)] == base + [EFunc(f, n + 1), Left];
  }

  function SpineArgs(a: Args): seq<Op> {
    match a case Last(e) => Spine(e) case More(_, rest) => SpineArgs(rest)
  }

  function EmittedArgs(a: Args): seq<Elem> {
    match a case Last(e) => Emitted(e) case More(e, rest) => Rpn(e) + EmittedArgs(rest)
  }

  lemma {:induction false} EmittedArgsPlusSpine(a: Args)
    ensures EmittedArgs(a) + Unstacked(SpineArgs(a)) == RpnArgs(a)
  {
    match a
    case Last(e) => EmittedPlusSpine(e);
    case More(e, rest) =>
      EmittedArgsPlusSpine(rest);
      Regroup(Rpn(e), EmittedArgs(rest), Unstacked(SpineArgs(rest)), []);
  }

  /** Parentheses around tokens that are read as they should be. */
  lemma FeedParens(s: State, out: seq<Elem>, base: seq<Entry>, last: bool, t: seq<Tok>, e: seq<Elem>, spine: seq<Op>)
    requires s == St(out, base, last) && (base == [] || !Top(base).EFunc?)
    requires FeedAll(St(out, base + [Left], last), t) == St(out + e, base + [Left] + Entries(spine), true)
    ensures FeedAll(s, [TLeft] + (t + [TRight])) == St(out + (e + Unstacked(spine)), base, true)
  {
    FeedOne(s, TLeft, t + [TRight]);
    FeedAppend(St(out, base + [Left], last), t, [TRight]);
    FeedClose(out + e, base, spine);
    Push3(out, e, Unstacked(spine));
  }

  lemma FeedValue(s: State, t: Tok, x: Elem)
    requires s.St? && ((t.TNum? && x == Num(t.val)) || (t.TVar? && x == Var(t.name, UNSET, false)))
    ensures FeedAll(s, [t]) == St(s.out + [x], s.op + Entries([]), true)
  {
    FeedOne(s, t, []);
    assert [t] + [] == [t] && s.op + Entries([]) == s.op;
  }

  /** Reading the tokens of a tree emits all but its right edge, which is left on the stack. */
  lemma {:induction false} FeedTree(e: Expr, out: seq<Elem>, base: seq<Entry>, last: bool)
    requires WellWritten(e) && SignsOk(e) && Hosts(base, Level(e)) && !(last && LeadsWithSign(e))
    ensures FeedAll(St(out, base, last), Toks(e)) == St(out + Emitted(e), base + Entries(Spine(e)), true)
    decreases e, 0
  {
    var s := St(out, base, last);
    match e
    case ENum(v) => FeedValue(s, TNum(v), Num(v));
    case EVar(x) => FeedValue(s, TVar(x), Var(x, UNSET, false));
    case EUn(op, arg) =>
      FeedPrefix(op, out, base, last, Toks(arg));
      FeedTree(arg, out, base + [EOp(op)], false);
      StackRight(base, op, Spine(arg));
    case EBin(op, l, r) =>
      FeedTree(l, out, base, last);
      EmittedPlusSpine(l);
      FeedTree(r, out + (Emitted(l) + Unstacked(Spine(l))), base + [EOp(op)], false);
      SpinePopped(op, l);
      FeedBinary(op, s, Toks(l), Toks(r), out, base, Emitted(l), Spine(l), Emitted(r), Spine(r));
    case EParen(e1) =>
      FeedTree(e1, out, base + [Left], last);
      EmittedPlusSpine(e1);
      FeedParens(s, out, base, last, Toks(e1), Emitted(e1), Spine(e1));
      assert base + Entries([]) == base;
    case ECall(f, args) =>
      FeedArgs(f, 1, args, out, base, false);
      EmittedArgsPlusSpine(args);
      FeedCall(f, Count(args), out, base, last, ToksArgs(args), EmittedArgs(args), SpineArgs(args));
      assert base + Entries([]) == base;
  }

  /** A call whose argument tokens are read as they should be. */
  lemma FeedCall(f: string, n: int, out: seq<Elem>, base: seq<Entry>, last: bool, t: seq<Tok>, e: seq<Elem>,
                 spine: seq<Op>)
    requires FeedAll(St(out, base + [EFunc(f, 1), Left], false), t)
          == St(out + e, base + [EFunc(f, n), Left] + Entries(spine), true)
    ensures FeedAll(St(out, base, last), [TFunc(f), TLeft] + (t + [TRight]))
         == St(out + (e + Unstacked(spine) + [EmitFunc(f, n)]), base, true)
  {
    var tail := t + [TRight];
    assert [TFunc(f), TLeft] + tail == [TFunc(f)] + ([TLeft] + tail);
    FeedOne(St(out, base, last), TFunc(f), [TLeft] + tail);
    FeedOne(St(out, base + [EFunc(f, 1)], false), TLeft, tail);
    assert base + [EFunc(f, 1)] + [Left] == base + [EFunc(f, 1), Left];
    FeedAppend(St(out, base + [EFunc(f, 1), Left], false), t, [TRight]);
    FeedCloseCall(out + e, base, f, n, spine);
    assert out + e + Unstacked(spine) + [EmitFunc(f, n)] == out + (e + Unstacked(spine) + [EmitFunc(f, n)]);
  }

  /** One argument and its comma, and the arguments behind. */
  lemma FeedMore(f: string, n: int, m: int, s: State, out: seq<Elem>, base: seq<Entry>, t: seq<Tok>, e: seq<Elem>,
                 spine: seq<Op>,
                 t': seq<Tok>, e': seq<Elem>, spine': seq<Op>)
    requires FeedAll(s, t) == St(out + e, base + [EFunc(f, n), Left] + Entries(spine), true)
    requires FeedAll(St(out + (e + Unstacked(spine)), base + [EFunc(f, n + 1), Left], true), t')
          == St(out + (e + Unstacked(spine)) + e', base + [EFunc(f, m), Left] + Entries(spine'), true)
    ensures FeedAll(s, t + ([TComma] + t')) ==
        St(out + (e + Unstacked(spine) + e'), base + [EFunc(f, m), Left] + Entries(spine'), true)
  {
    FeedAppend(s, t, [TComma] + t');
    FeedComma(out + e, base, f, n, spine, t');
    Push3(out, e, Unstacked(spine));
    Push3(out, e + Unstacked(spine), e');
  }

  lemma {:induction false} FeedArgs(f: string, n: int, a: Args, out: seq<Elem>, base: seq<Entry>, last: bool)
    requires WellWrittenArgs(a) && SignsOkArgs(a) && !(last && LeadsWithSign(a.e))
    ensures FeedAll(St(out, base + [EFunc(f, n), Left], last), ToksArgs(a))
         == St(out + EmittedArgs(a), base + [EFunc(f, n + Count(a) - 1), Left] + Entries(SpineArgs(a)), true)
    decreases a, 0
  {
    var op := base + [EFunc(f, n), Left];
    FeedTree(a.e, out, op, last);
    match a
    case Last(e) =>
    case More(e, rest) =>
      EmittedPlusSpine(e);
      FeedArgs(f, n + 1, rest, out + (Emitted(e) + Unstacked(Spine(e))), base, true);
      FeedMore(f, n, n + Count(a) - 1, St(out, op, last), out, base, Toks(e), Emitted(e), Spine(e), ToksArgs(rest),
          EmittedArgs(rest), SpineArgs(rest));
  }

  // ---------------------------------------------------------------- the argument count check

  lemma {:induction false} NetAppend(a: seq<Elem>, b: seq<Elem>)
    ensures Net(a + b) == Net(a) + Net(b)
    decreases |b|
  {
    if b == [] {
      assert a + b == a;
    } else {
      var init := b[..|b| - 1];
      assert (a + b)[..|a + b| - 1] == a + init;
      NetAppend(a, init);
    }
  }

  lemma NetOne(x: Elem)
    ensures Net([x]) ==
            match x
            case Num(_) => 1
            case Var(_, _, _) => 1
            case Oper(op) => 1 - NArgs(op)
            case Func(_, n, _) => 1 - n
  {
    assert [x][..0] == [];
  }

  lemma {:induction false} NetOfTree(e: Expr)
    requires WellWritten(e)
    ensures Net(Rpn(e)) == 1
    decreases e
  {
    match e
    case ENum(v) => NetOne(Num(v));
    case EVar(x) => NetOne(Var(x, UNSET, false));
    case EUn(op, arg) =>
      NetOfTree(arg);
      NetOne(Oper(op));
      NetAppend(Rpn(arg), [Oper(op)]);
    case EBin(op, l, r) =>
      NetOfTree(l);
      NetOfTree(r);
      NetOne(Oper(op));
      NetAppend(Rpn(l), Rpn(r));
      NetAppend(Rpn(l) + Rpn(r), [Oper(op)]);
    case EParen(e1) => NetOfTree(e1);
    case ECall(f, args) =>
      NetOfArgs(args);
      NetOne(EmitFunc(f, Count(args)));
      NetAppend(RpnArgs(args), [EmitFunc(f, Count(args))]);
  }

  lemma {:induction false} NetOfArgs(a: Args)
    requires WellWrittenArgs(a)
    ensures Net(RpnArgs(a)) == Count(a)
    decreases a
  {
    NetOfTree(a.e);
    if a.More? {
      NetOfArgs(a.rest);
      NetAppend(Rpn(a.e), RpnArgs(a.rest));
    }
  }

  /** A well-written text whose later arguments do not lead with a sign is parsed into its reverse Polish notation. */
  lemma ParsePrinted(e: Expr)
    requires WellWritten(e) && SignsOk(e)
    ensures Parse(Toks(e)) == Ok(Rpn(e))
  {
    FeedTree(e, [], [], false);
    PopAll(Emitted(e), [], Spine(e));
    EmittedPlusSpine(e);
    NetOfTree(e);
    assert [] + Emitted(e) == Emitted(e) && [] + Entries(Spine(e)) == Entries(Spine(e));
  }
}
