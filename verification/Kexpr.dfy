/**
  kexpr: the shunting-yard parser and the stack machine that evaluates its output, over tokens and
  for arbitrary operator semantics.
  Source: liblinktool/klib/kexpr.c, lines 13-78 and 167-506.
 */
module Kexpr {

  // ---------------------------------------------------------------- tokens and operators

  /** KEO_POS to KEO_LOR, kexpr.c:15-38. */
  datatype Op =
    | Pos | Neg | BNot | LNot
    | Pow
    | Mul | Div | IDiv | Mod
    | Add | Sub
    | Lsh | Rsh
    | Lt | Le | Gt | Ge
    | Eq | Ne
    | BAnd | BXor | BOr
    | LAnd | LOr

  /** `ke_op[]`, kexpr.c:64-78: the precedence, shifted left by one, with the lowest bit for right associativity. */
  function KeOp(op: Op): nat {
    match op
    case Pos => 3 case Neg => 3 case BNot => 3 case LNot => 3
    case Pow => 5
    case Mul => 6 case Div => 6 case IDiv => 6 case Mod => 6
    case Add => 8 case Sub => 8
    case Lsh => 10 case Rsh => 10
    case Lt => 12 case Le => 12 case Gt => 12 case Ge => 12
    case Eq => 14 case Ne => 14
    case BAnd => 16
    case BXor => 18
    case BOr => 20
    case LAnd => 22
    case LOr => 24
  }

  function Prec(op: Op): nat { KeOp(op) / 2 }

  predicate RightAssoc(op: Op) { KeOp(op) % 2 == 1 }

  /** The operators that take one argument. */
  predicate IsUnary(op: Op) { op.Pos? || op.Neg? || op.BNot? || op.LNot? }

  function NArgs(op: Op): int { if IsUnary(op) then 1 else 2 }

  datatype VType = KEV_REAL | KEV_INT | KEV_STR

  /** A value: the fields vtype, i, r and s of a ke1_t. */
  datatype V = V(vtype: VType, i: int, r: real, s: string)

  /** What a variable is before it is set, kexpr.c:176-178. */
  const UNSET := V(KEV_REAL, 0, 0.0, "")

  /** A function a name can be bound to: the built-in `abs`, or one supplied by the user. */
  datatype Fn = AbsFn | UserFn(id: nat)

  /** A token; `+` and `-` are read as one- or two-argument operators depending on what came before. */
  datatype Tok =
    | TNum(val: V)
    | TVar(name: string)
    | TFunc(name: string)
    | TPlus
    | TMinus
    | TOp(op: Op)
    | TLeft
    | TRight
    | TComma

  /** An element of the parsed expression. */
  datatype Elem =
    | Num(val: V)
    | Var(name: string, val: V, isSet: bool)
    | Oper(op: Op)
    | Func(name: string, nArgs: int, fn: FnPtr)

  /** A function pointer that may be NULL. */
  datatype FnPtr = NoFn | Bound(fn: Fn)

  /** An entry of the operator stack. */
  datatype Entry = Left | EFunc(name: string, nArgs: int) | EOp(op: Op)

  datatype Error = KEE_UNLP | KEE_UNRP | KEE_FUNC | KEE_ARG

  datatype Parsed = Ok(elems: seq<Elem>) | Err(error: Error)

  /** kexpr.c:214-221 and 236-237: which operator a symbol is. */
  function ReadOp(tok: Tok, lastIsVal: bool): Op
    requires tok.TPlus? || tok.TMinus? || tok.TOp?
  {
    match tok
    case TPlus => if lastIsVal then Add else Pos
    case TMinus => if lastIsVal then Sub else Neg
    case TOp(op) => op
  }

  // ---------------------------------------------------------------- the parser as a function

  /** Output, operator stack, `last_is_val`; or an error. */
  datatype State = St(out: seq<Elem>, op: seq<Entry>, last: bool) | Stop(error: Error)

  function Top(op: seq<Entry>): Entry
    requires op != []
  {
    op[|op| - 1]
  }

  function Below(op: seq<Entry>): seq<Entry>
    requires op != []
  {
    op[..|op| - 1]
  }

  /** kexpr.c:286: a call of `abs` with one argument is bound when it is emitted behind its right parenthesis. */
  function EmitFunc(name: string, nArgs: int): Elem {
    Func(name, nArgs, if nArgs == 1 && name == "abs" then Bound(AbsFn) else NoFn)
  }

  /** Moving an operator, or a function without parentheses, to the output. */
  function Emit(e: Entry): Elem
    requires !e.Left?
  {
    match e
    case EFunc(name, n) => Func(name, n, NoFn)
    case EOp(op) => Oper(op)
  }

  /** kexpr.c:275-278, 290-293 and 328-331: move entries to the output until a left parenthesis. */
  function PopToLeft(out: seq<Elem>, op: seq<Entry>): (r: (seq<Elem>, seq<Entry>))
    ensures r.1 == [] || Top(r.1).Left?
    decreases |op|
  {
    if op == [] || Top(op).Left? then (out, op)
    else PopToLeft(out + [Emit(Top(op))], Below(op))
  }

  /** kexpr.c:315-316: does reading operator `o` leave the operator `top` on the stack? */
  predicate Stays(o: Op, top: Op) {
    if RightAssoc(o) then Prec(o) <= Prec(top) else Prec(o) < Prec(top)
  }

  /** kexpr.c:314-319. */
  function PopOps(out: seq<Elem>, op: seq<Entry>, o: Op): (r: (seq<Elem>, seq<Entry>))
    decreases |op|
  {
    if op == [] || !Top(op).EOp? || Stays(o, Top(op).op) then (out, op)
    else PopOps(out + [Oper(Top(op).op)], Below(op), o)
  }

  /** One round of the loop at kexpr.c:269-325. */
  function Feed(s: State, tok: Tok): State {
    if s.Stop? then s else
    match tok
    case TLeft => s.(op := s.op + [Left])
    case TRight =>
      var (out, op) := PopToLeft(s.out, s.op);
      if op == [] then Stop(KEE_UNRP)
      else
        var rest := Below(op);
        if rest != [] && Top(rest).EFunc?
        then St(out + [EmitFunc(Top(rest).name, Top(rest).nArgs)], Below(rest), s.last)
        else St(out, rest, s.last)
    case TComma =>
      var (out, op) := PopToLeft(s.out, s.op);
      if |op| < 2 || !op[|op| - 2].EFunc? then Stop(KEE_FUNC)
      else St(out, op[|op| - 2 := EFunc(op[|op| - 2].name, op[|op| - 2].nArgs + 1)], s.last)
    case TNum(v) => St(s.out + [Num(v)], s.op, true)
    case TVar(x) => St(s.out + [Var(x, UNSET, false)], s.op, true)
    case TFunc(f) => St(s.out, s.op + [EFunc(f, 1)], false)
    case _ =>
      var o := ReadOp(tok, s.last);
      var (out, op) := PopOps(s.out, s.op, o);
      St(out, op + [EOp(o)], false)
  }

  function FeedAll(s: State, toks: seq<Tok>): State
    decreases |toks|
  {
    if toks == [] then s else FeedAll(Feed(s, toks[0]), toks[1..])
  }

  /** kexpr.c:336-341: values minus what operators and functions use up. */
  function Net(elems: seq<Elem>): int {
    if elems == [] then 0
    else Net(elems[..|elems| - 1]) + match elems[|elems| - 1]
                                     case Num(_) => 1
                                     case Var(_, _, _) => 1
                                     case Oper(op) => 1 - NArgs(op)
                                     case Func(_, n, _) => 1 - n
  }

  /** kexpr.c:327-343. */
  function Finish(s: State): Parsed {
    if s.Stop? then Err(s.error)
    else
      var (out, op) := PopToLeft(s.out, s.op);
      if op != [] then Err(KEE_UNLP)
      else if Net(out) != 1 then Err(KEE_ARG)
      else Ok(out)
  }

  const START := St([], [], false)

  function Parse(toks: seq<Tok>): Parsed {
    Finish(FeedAll(START, toks))
  }

  // ---------------------------------------------------------------- the parser as written

  /** ke_parse_core(), kexpr.c:254-352, with the two arrays and their lengths as sequences. */
  method ParseCore(toks: seq<Tok>) returns (res: Parsed)
    ensures res == Parse(toks)
  {
    var out: seq<Elem>, op: seq<Entry>, last := [], [], false;
    var p := 0;
    while p < |toks|
      invariant 0 <= p <= |toks|
      invariant Parse(toks) == Finish(FeedAll(St(out, op, last), toks[p..]))
      decreases |toks| - p
    {
      var tok := toks[p];
      ghost var s := St(out, op, last);
      assert toks[p..][0] == tok && toks[p..][1..] == toks[p + 1..];
      match tok {
        case TLeft =>
          op := op + [Left];
        case TRight =>
          while op != [] && !Top(op).Left?
            invariant PopToLeft(out, op) == PopToLeft(s.out, s.op)
            decreases |op|
          {
            out, op := out + [Emit(Top(op))], Below(op);
          }
          if op == [] {
            StopIsFinal(KEE_UNRP, toks[p + 1..]);
            return Err(KEE_UNRP);
          }
          op := Below(op);
          if op != [] && Top(op).EFunc? {
            out, op := out + [EmitFunc(Top(op).name, Top(op).nArgs)], Below(op);
          }
        case TComma =>
          while op != [] && !Top(op).Left?
            invariant PopToLeft(out, op) == PopToLeft(s.out, s.op)
            decreases |op|
          {
            out, op := out + [Emit(Top(op))], Below(op);
          }
          if |op| < 2 || !op[|op| - 2].EFunc? {
            StopIsFinal(KEE_FUNC, toks[p + 1..]);
            return Err(KEE_FUNC);
          }
          op := op[|op| - 2 := EFunc(op[|op| - 2].name, op[|op| - 2].nArgs + 1)];
        case TNum(v) =>
          out, last := out + [Num(v)], true;
        case TVar(x) =>
          out, last := out + [Var(x, UNSET, false)], true;
        case TFunc(f) =>
          op, last := op + [EFunc(f, 1)], false;
        case _ =>
          var o := ReadOp(tok, last);
          while op != [] && Top(op).EOp? && !Stays(o, Top(op).op)
            invariant PopOps(out, op, o) == PopOps(s.out, s.op, o)
            decreases |op|
          {
            out, op := out + [Oper(Top(op).op)], Below(op);
          }
          op, last := op + [EOp(o)], false;
      }
      assert Feed(s, tok) == St(out, op, last);
      p := p + 1;
    }
    assert toks[p..] == [];
    ghost var o0, s0 := out, op;
    while op != [] && !Top(op).Left?
      invariant PopToLeft(out, op) == PopToLeft(o0, s0)
      decreases |op|
    {
      out, op := out + [Emit(Top(op))], Below(op);
    }
    if op != [] { return Err(KEE_UNLP); }
    var i, n := 0, 0;
    while i < |out|
      invariant 0 <= i <= |out| && n == Net(out[..i])
    {
      assert out[..i + 1][..i] == out[..i];
      match out[i] {
        case Num(_) => n := n + 1;
        case Var(_, _, _) => n := n + 1;
        case Oper(o) => n := n - (NArgs(o) - 1);
        case Func(_, k, _) => n := n - (k - 1);
      }
      i := i + 1;
    }
    assert out[..|out|] == out;
    res := if n != 1 then Err(KEE_ARG) else Ok(out);
  }

  lemma {:induction false} StopIsFinal(e: Error, toks: seq<Tok>)
    ensures FeedAll(Stop(e), toks) == Stop(e)
  {
    if toks != [] { StopIsFinal(e, toks[1..]); }
  }
}
