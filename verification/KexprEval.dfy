/**
  The stack machine of kexpr.c and the setting of variables and functions, and the proof that
  evaluating the reverse Polish notation of a tree gives the value of the tree.
  Source: liblinktool/klib/kexpr.c, lines 366-506.
 */
module KexprEval {
  import opened Kexpr
  import opened KexprTrees
  import opened Wrappers

  /** What the operators, `abs` and the user's functions compute; nothing is assumed about them. */
  datatype Sem =
    Sem(un: (Op, V) -> V, bin: (Op, V, V) -> V, abs: V -> V, real1: (nat, real) -> real,
        real2: (nat, real, real) -> real)

  /** `(int64_t)x`. */
  function Truncate(x: real): int {
    if x >= 0.0 then x.Floor else -(-x).Floor
  }

  /** kexpr.c:384 and 390: a user's function replaces the real and integer fields of its first argument. */
  function WithReal(p: V, r: real): V {
    p.(r := r, i := Truncate(r + 0.5), vtype := KEV_REAL)
  }

  function ElemArgs(x: Elem): int
    requires x.Oper? || x.Func?
  {
    if x.Oper? then NArgs(x.op) else x.nArgs
  }

  /** `e->f.builtin != 0`. */
  predicate HasFn(x: Elem)
    requires x.Oper? || x.Func?
  {
    x.Oper? || x.fn.Bound?
  }

  function Apply1(sem: Sem, x: Elem, p: V): V
    requires (x.Oper? || x.Func?) && HasFn(x)
  {
    match x
    case Oper(op) => sem.un(op, p)
    case Func(_, _, Bound(AbsFn)) => sem.abs(p)
    case Func(_, _, Bound(UserFn(id))) => WithReal(p, sem.real1(id, p.r))
  }

  function Apply2(sem: Sem, x: Elem, p: V, q: V): V
    requires (x.Oper? || x.Func?) && HasFn(x)
  {
    match x
    case Oper(op) => sem.bin(op, p, q)
    case Func(_, _, Bound(AbsFn)) => sem.abs(p)
    case Func(_, _, Bound(UserFn(id))) => WithReal(p, sem.real2(id, p.r, q.r))
  }

  // ---------------------------------------------------------------- the machine as a function

  /** One element on a stack; `None` when the stack does not hold its arguments. */
  function Exec(sem: Sem, stack: seq<V>, x: Elem): Option<seq<V>> {
    var top := |stack|;
    if x.Num? || x.Var? then Some(stack + [x.val])
    else if ElemArgs(x) < 1 || top < ElemArgs(x) then None
    else if ElemArgs(x) == 2 && HasFn(x) then Some(stack[..top - 2] + [Apply2(sem, x, stack[top - 2], stack[top - 1])])
    else if ElemArgs(x) == 1 && HasFn(x) then Some(stack[..top - 1] + [Apply1(sem, x, stack[top - 1])])
    else Some(stack[..top - (ElemArgs(x) - 1)])
  }

  function Run(sem: Sem, stack: seq<V>, elems: seq<Elem>): Option<seq<V>>
    decreases |elems|
  {
    if elems == [] then Some(stack)
    else match Exec(sem, stack, elems[0])
         case None => None
         case Some(s) => Run(sem, s, elems[1..])
  }

  lemma {:induction false} RunAppend(sem: Sem, stack: seq<V>, a: seq<Elem>, b: seq<Elem>)
    ensures Run(sem, stack, a + b) == match Run(sem, stack, a) case None => None case Some(s) => Run(sem, s, b)
    decreases |a|
  {
    if a == [] {
      assert a + b == b;
    } else {
      assert (a + b)[0] == a[0] && (a + b)[1..] == a[1..] + b;
      if Exec(sem, stack, a[0]).Some? { RunAppend(sem, Exec(sem, stack, a[0]).value, a[1..], b); }
    }
  }

  lemma RunOne(sem: Sem, stack: seq<V>, x: Elem)
    ensures Run(sem, stack, [x]) == Exec(sem, stack, x)
  {
    assert [x][1..] == [];
  }

  // ---------------------------------------------------------------- the machine as written

  /** What ke_eval() reports. */
  datatype Outcome = Outcome(val: V, unfunc: bool, unvar: bool)

  predicate Unbound(x: Elem) { x.Func? && x.fn.NoFn? }

  predicate Unset(x: Elem) { x.Var? && !x.isSet }

  /** kexpr.c:371-375. */
  method CheckBound(ke: seq<Elem>) returns (unfunc: bool, unvar: bool)
    ensures unfunc <==> exists x :: x in ke && Unbound(x)
    ensures unvar <==> exists x :: x in ke && Unset(x)
  {
    unfunc, unvar := false, false;
    var i := 0;
    while i < |ke|
      invariant 0 <= i <= |ke|
      invariant unfunc <==> exists j :: 0 <= j < i && Unbound(ke[j])
      invariant unvar <==> exists j :: 0 <= j < i && Unset(ke[j])
    {
      if Unbound(ke[i]) { unfunc := true; }
      else if Unset(ke[i]) { unvar := true; }
      i := i + 1;
    }
  }

  /** kexpr.c:378-394: one element on the evaluation stack. */
  method Execute(stack: array<V>, top: nat, e: Elem, sem: Sem) returns (top': nat)
    requires top < stack.Length && Exec(sem, stack[..top], e).Some?
    modifies stack
    ensures top' <= top + 1 && Exec(sem, old(stack[..top]), e) == Some(stack[..top'])
  {
    ghost var s := stack[..top];
    top' := top;
    if e.Oper? || e.Func? {
      if ElemArgs(e) == 2 && HasFn(e) {
        top' := top' - 1;
        stack[top' - 1] := Apply2(sem, e, stack[top' - 1], stack[top']);
        assert stack[..top'] == s[..top' - 1] + [Apply2(sem, e, s[top' - 1], s[top'])];
      } else if ElemArgs(e) == 1 && HasFn(e) {
        stack[top' - 1] := Apply1(sem, e, stack[top' - 1]);
        assert stack[..top'] == s[..top' - 1] + [Apply1(sem, e, s[top' - 1])];
      } else {
        top' := top' - (ElemArgs(e) - 1);
        assert stack[..top'] == s[..top'];
      }
    } else {
      stack[top'] := e.val;
      top' := top' + 1;
      assert stack[..top'] == s + [e.val];
    }
  }

  /** ke_eval(), kexpr.c:366-399, on an expression whose elements find their arguments on the stack. */
  method Eval(ke: seq<Elem>, sem: Sem) returns (res: Outcome)
    requires Run(sem, [], ke).Some? && Run(sem, [], ke).value != []
    ensures res.val == Run(sem, [], ke).value[0]
    ensures res.unfunc <==> exists x :: x in ke && Unbound(x)
    ensures res.unvar <==> exists x :: x in ke && Unset(x)
  {
    var unfunc, unvar := CheckBound(ke);
    var stack := new V[|ke|](_ => UNSET);
    var top: nat := 0;
    var i := 0;
    assert stack[..0] == [] && ke[0..] == ke;
    while i < |ke|
      invariant 0 <= i <= |ke| && top <= i
      invariant Run(sem, stack[..top], ke[i..]) == Run(sem, [], ke)
    {
      assert ke[i..][0] == ke[i] && ke[i..][1..] == ke[i + 1..];
      top := Execute(stack, top, ke[i], sem);
      i := i + 1;
    }
    assert Run(sem, [], ke) == Some(stack[..top]);
    res := Outcome(stack[0], unfunc, unvar);
  }

  // ---------------------------------------------------------------- binding

  /** What the names of an expression are bound to. */
  datatype Env = Env(vars: map<string, V>, isSet: set<string>, fn1: map<string, Fn>, fn2: map<string, Fn>)

  /** Straight from the parser only `abs` is bound. */
  const PARSED := Env(map[], {}, map["abs" := AbsFn], map[])

  function ValueOf(env: Env, x: string): V {
    if x in env.vars then env.vars[x] else UNSET
  }

  function FnOf(env: Env, f: string, n: int): FnPtr {
    if n == 1 && f in env.fn1 then Bound(env.fn1[f])
    else if n == 2 && f in env.fn2 then Bound(env.fn2[f])
    else NoFn
  }

  function LinkElem(env: Env, x: Elem): Elem {
    match x
    case Var(name, _, _) => Var(name, ValueOf(env, name), name in env.isSet)
    case Func(f, n, _) => Func(f, n, FnOf(env, f, n))
    case _ => x
  }

  /** The elements as they are once the bindings of `env` have been made. */
  function Link(env: Env, elems: seq<Elem>): (r: seq<Elem>)
    ensures |r| == |elems| && forall i :: 0 <= i < |r| ==> r[i] == LinkElem(env, elems[i])
  {
    if elems == [] then [] else [LinkElem(env, elems[0])] + Link(env, elems[1..])
  }

  lemma LinkAppend(env: Env, a: seq<Elem>, b: seq<Elem>)
    ensures Link(env, a + b) == Link(env, a) + Link(env, b)
  {
  }

  lemma LinkOne(env: Env, x: Elem)
    ensures Link(env, [x]) == [LinkElem(env, x)]
  {
  }

  /** ke_set_int(), ke_set_real() and ke_set_str(): the new value, given the old one. */
  datatype Setting = SetInt(y: int) | SetReal(x: real) | SetStr(s: string)

  function Set(was: V, how: Setting): V {
    match how
    case SetInt(y) => was.(i := y, r := y as real, vtype := KEV_INT)
    case SetReal(x) => was.(r := x, i := Truncate(x + 0.5), vtype := KEV_REAL)
    case SetStr(s) => V(KEV_STR, 0, 0.0, s)
  }

  function BindVar(env: Env, x: string, how: Setting): Env {
    env.(vars := env.vars[x := Set(ValueOf(env, x), how)], isSet := env.isSet + {x})
  }

  /** One element after a variable has been set. */
  function SetElem(e: Elem, x: string, how: Setting): Elem {
    if e.Var? && e.name == x then Var(x, Set(e.val, how), true) else e
  }

  function SetElems(es: seq<Elem>, x: string, how: Setting): (r: seq<Elem>)
    ensures |r| == |es| && forall i :: 0 <= i < |r| ==> r[i] == SetElem(es[i], x, how)
  {
    if es == [] then [] else [SetElem(es[0], x, how)] + SetElems(es[1..], x, how)
  }

  function Occurrences(es: seq<Elem>, x: string): nat {
    if es == [] then 0
    else Occurrences(es[..|es| - 1], x) + if es[|es| - 1].Var? && es[|es| - 1].name == x then 1 else 0
  }

  /** ke_set_int(), ke_set_real(), ke_set_str(), kexpr.c:432-470: every occurrence is set and counted. */
  method SetVar(ke: array<Elem>, x: string, how: Setting) returns (n: nat)
    modifies ke
    ensures ke[..] == SetElems(old(ke[..]), x, how)
    ensures n == Occurrences(old(ke[..]), x)
  {
    ghost var was := ke[..];
    n := 0;
    var i := 0;
    while i < ke.Length
      invariant 0 <= i <= ke.Length
      invariant forall j :: 0 <= j < i ==> ke[j] == SetElem(was[j], x, how)
      invariant forall j :: i <= j < ke.Length ==> ke[j] == was[j]
      invariant n == Occurrences(was[..i], x)
    {
      var e := ke[i];
      assert was[..i + 1][..i] == was[..i];
      if e.Var? && e.name == x {
        ke[i] := Var(x, Set(e.val, how), true);
        n := n + 1;
      }
      i := i + 1;
    }
    assert was[..|was|] == was;
  }

  /** Setting a variable in the elements is binding it in the environment. */
  lemma SetIsBind(env: Env, x: string, how: Setting, elems: seq<Elem>)
    ensures SetElems(Link(env, elems), x, how) == Link(BindVar(env, x, how), elems)
  {
    var l, r := SetElems(Link(env, elems), x, how), Link(BindVar(env, x, how), elems);
    forall i | 0 <= i < |elems| ensures l[i] == r[i] {
      SetOneIsBind(env, x, how, elems[i]);
    }
  }

  lemma SetOneIsBind(env: Env, x: string, how: Setting, e: Elem)
    ensures SetElem(LinkElem(env, e), x, how) == LinkElem(BindVar(env, x, how), e)
  {
  }

  function UnsetElem(e: Elem): Elem {
    if e.Var? then e.(isSet := false) else e
  }

  /** ke_unset(), kexpr.c:508-515: the values stay, the marks go. */
  method UnsetAll(ke: array<Elem>)
    modifies ke
    ensures forall i :: 0 <= i < ke.Length ==> ke[i] == UnsetElem(old(ke[i]))
  {
    var i := 0;
    while i < ke.Length
      invariant 0 <= i <= ke.Length
      invariant forall j :: 0 <= j < i ==> ke[j] == UnsetElem(old(ke[j]))
      invariant forall j :: i <= j < ke.Length ==> ke[j] == old(ke[j])
    {
      if ke[i].Var? { ke[i] := ke[i].(isSet := false); }
      i := i + 1;
    }
  }

  lemma UnsetIsUnbind(env: Env, e: Elem)
    ensures UnsetElem(LinkElem(env, e)) == LinkElem(env.(isSet := {}), e)
  {
  }

  function BindFn(env: Env, f: string, n: int, id: nat): Env {
    if n == 1 then env.(fn1 := env.fn1[f := UserFn(id)]) else env.(fn2 := env.fn2[f := UserFn(id)])
  }

  function SetFuncElem(e: Elem, f: string, nArgs: int, id: nat): Elem {
    if e.Func? && e.nArgs == nArgs && e.name == f then Func(f, nArgs, Bound(UserFn(id))) else e
  }

  predicate Calls(e: Elem, f: string, nArgs: int) {
    e.Func? && e.nArgs == nArgs && e.name == f
  }

  function CallsOf(es: seq<Elem>, f: string, nArgs: int): nat {
    if es == [] then 0
    else CallsOf(es[..|es| - 1], f, nArgs) + if Calls(es[|es| - 1], f, nArgs) then 1 else 0
  }

  /** ke_set_real_func1() and ke_set_real_func2(), kexpr.c:472-492: every such call is bound and counted. */
  method SetFunc(ke: array<Elem>, f: string, nArgs: int, id: nat) returns (n: nat)
    modifies ke
    ensures forall i :: 0 <= i < ke.Length ==> ke[i] == SetFuncElem(old(ke[i]), f, nArgs, id)
    ensures n == CallsOf(old(ke[..]), f, nArgs)
  {
    ghost var was := ke[..];
    n := 0;
    var i := 0;
    while i < ke.Length
      invariant 0 <= i <= ke.Length
      invariant forall j :: 0 <= j < i ==> ke[j] == SetFuncElem(was[j], f, nArgs, id)
      invariant forall j :: i <= j < ke.Length ==> ke[j] == was[j]
      invariant n == CallsOf(was[..i], f, nArgs)
    {
      var e := ke[i];
      assert was[..i + 1][..i] == was[..i];
      if Calls(e, f, nArgs) {
        ke[i] := e.(fn := Bound(UserFn(id)));
        n := n + 1;
      }
      i := i + 1;
    }
    assert was[..|was|] == was;
  }

  lemma SetFuncIsBind(env: Env, f: string, n: int, id: nat, e: Elem)
    requires n == 1 || n == 2
    ensures SetFuncElem(LinkElem(env, e), f, n, id) == LinkElem(BindFn(env, f, n, id), e)
  {
  }

  // ---------------------------------------------------------------- the value of a tree

  /** A call of an unbound function, or with more than two arguments, is worth its first argument. */
  function CallValue(sem: Sem, env: Env, f: string, vs: seq<V>): V
    requires vs != []
  {
    var fn := FnOf(env, f, |vs|);
    if fn.NoFn? then vs[0]
    else if |vs| == 1 then Apply1(sem, Func(f, 1, fn), vs[0])
    else if |vs| == 2 then Apply2(sem, Func(f, 2, fn), vs[0], vs[1])
    else vs[0]
  }

  function Value(sem: Sem, env: Env, e: Expr): V {
    match e
    case ENum(v) => v
    case EVar(x) => ValueOf(env, x)
    case EUn(op, arg) => sem.un(op, Value(sem, env, arg))
    case EBin(op, l, r) => sem.bin(op, Value(sem, env, l), Value(sem, env, r))
    case EParen(e1) => Value(sem, env, e1)
    case ECall(f, args) => CallValue(sem, env, f, Values(sem, env, args))
  }

  function Values(sem: Sem, env: Env, a: Args): (vs: seq<V>)
    ensures |vs| == Count(a)
  {
    match a
    case Last(e) => [Value(sem, env, e)]
    case More(e, rest) => [Value(sem, env, e)] + Values(sem, env, rest)
  }

  // ---------------------------------------------------------------- calls and settings

  /** `i` is `x` with its fraction cut off. */
  predicate CutTowardsZero(x: real, i: int) {
    if 0.0 <= x then 0 <= i && i as real <= x < i as real + 1.0
    else i <= 0 && i as real - 1.0 < x <= i as real
  }

  /** A real value, its integer field rounded and its string field as before. */
  predicate RealValue(v: V, r: real, s: string) {
    v.vtype == KEV_REAL && v.r == r && v.s == s && CutTowardsZero(r + 0.5, v.i)
  }

  /** A user's function of two arguments gets the real fields of both, in order. */
  lemma CallOfTwo(sem: Sem, env: Env, f: string, id: nat, a: Expr, b: Expr)
    requires f in env.fn2 && env.fn2[f] == UserFn(id)
    ensures var x, y := Value(sem, env, a), Value(sem, env, b);
            RealValue(Value(sem, env, ECall(f, More(a, Last(b)))), sem.real2(id, x.r, y.r), x.s)
  {
    assert Values(sem, env, More(a, Last(b))) == [Value(sem, env, a), Value(sem, env, b)];
  }

  lemma CallOfOne(sem: Sem, env: Env, f: string, id: nat, a: Expr)
    requires f in env.fn1 && env.fn1[f] == UserFn(id)
    ensures var x := Value(sem, env, a); RealValue(Value(sem, env, ECall(f, Last(a))), sem.real1(id, x.r), x.s)
  {
    assert Values(sem, env, Last(a)) == [Value(sem, env, a)];
  }

  /** As parsed, `abs` is the built-in function, and any other call is worth its first argument. */
  lemma CallAsParsed(sem: Sem, a: Expr, f: string, args: Args)
    ensures Value(sem, PARSED, ECall("abs", Last(a))) == sem.abs(Value(sem, PARSED, a))
    ensures f != "abs" || args.More? ==> Value(sem, PARSED, ECall(f, args)) == Value(sem, PARSED, args.e)
  {
    assert Values(sem, PARSED, Last(a)) == [Value(sem, PARSED, a)];
  }

  /** What the variable is worth once it has been set, and that no other one changes. */
  lemma SetThenValue(sem: Sem, env: Env, x: string, how: Setting, y: string)
    ensures var v := Value(sem, BindVar(env, x, how), EVar(x));
            match how
            case SetInt(n) => v == V(KEV_INT, n, n as real, Value(sem, env, EVar(x)).s)
            case SetReal(r) => RealValue(v, r, Value(sem, env, EVar(x)).s)
            case SetStr(t) => v == V(KEV_STR, 0, 0.0, t)
    ensures x != y ==> Value(sem, BindVar(env, x, how), EVar(y)) == Value(sem, env, EVar(y))
  {
  }

  // ---------------------------------------------------------------- running a tree

  /** Running the reverse Polish notation of a tree pushes the value of the tree. */
  lemma {:induction false} RunTree(sem: Sem, env: Env, e: Expr, stack: seq<V>)
    requires WellWritten(e)
    ensures Run(sem, stack, Link(env, Rpn(e))) == Some(stack + [Value(sem, env, e)])
    decreases e
  {
    match e
    case ENum(v) => RunOne(sem, stack, Num(v));
    case EVar(x) => RunOne(sem, stack, LinkElem(env, Var(x, UNSET, false)));
    case EUn(op, arg) =>
      RunTree(sem, env, arg, stack);
      LinkAppend(env, Rpn(arg), [Oper(op)]);
      LinkOne(env, Oper(op));
      RunLast(sem, stack, Link(env, Rpn(arg)), [Value(sem, env, arg)], Oper(op));
    case EBin(op, l, r) =>
      RunTree(sem, env, l, stack);
      RunTree(sem, env, r, stack + [Value(sem, env, l)]);
      LinkAppend(env, Rpn(l), Rpn(r));
      LinkAppend(env, Rpn(l) + Rpn(r), [Oper(op)]);
      LinkOne(env, Oper(op));
      RunAppend(sem, stack, Link(env, Rpn(l)), Link(env, Rpn(r)));
      assert stack + [Value(sem, env, l)] + [Value(sem, env, r)] == stack + [Value(sem, env, l), Value(sem, env, r)];
      RunLast(sem, stack, Link(env, Rpn(l) + Rpn(r)), [Value(sem, env, l), Value(sem, env, r)], Oper(op));
    case EParen(e1) => RunTree(sem, env, e1, stack);
    case ECall(f, args) =>
      var x := EmitFunc(f, Count(args));
      RunArgs(sem, env, args, stack);
      LinkAppend(env, RpnArgs(args), [x]);
      LinkOne(env, x);
      RunLast(sem, stack, Link(env, RpnArgs(args)), Values(sem, env, args), LinkElem(env, x));
  }

  /** An operator or function behind code that pushes exactly its arguments. */
  lemma RunLast(sem: Sem, stack: seq<V>, code: seq<Elem>, vs: seq<V>, x: Elem)
    requires (x.Oper? || x.Func?) && ElemArgs(x) == |vs| && 1 <= |vs|
    requires Run(sem, stack, code) == Some(stack + vs)
    ensures Run(sem, stack, code + [x]) == Some(stack + [
              if |vs| == 2 && HasFn(x) then Apply2(sem, x, vs[0], vs[1])
              else if |vs| == 1 && HasFn(x) then Apply1(sem, x, vs[0])
              else vs[0]])
  {
    RunAppend(sem, stack, code, [x]);
    RunOne(sem, stack + vs, x);
    assert (stack + vs)[..|stack|] == stack;
    assert (stack + vs)[..|stack| + 1] == stack + [vs[0]];
  }

  lemma {:induction false} RunArgs(sem: Sem, env: Env, a: Args, stack: seq<V>)
    requires WellWrittenArgs(a)
    ensures Run(sem, stack, Link(env, RpnArgs(a))) == Some(stack + Values(sem, env, a))
    decreases a
  {
    RunTree(sem, env, a.e, stack);
    match a
    case Last(e) =>
    case More(e, rest) =>
      RunArgs(sem, env, rest, stack + [Value(sem, env, e)]);
      LinkAppend(env, Rpn(e), RpnArgs(rest));
      RunAppend(sem, stack, Link(env, Rpn(e)), Link(env, RpnArgs(rest)));
      assert stack + [Value(sem, env, e)] + Values(sem, env, rest) == stack + Values(sem, env, a);
  }

  /** The elements the parser produces. */
  predicate Plain(x: Elem) {
    LinkElem(PARSED, x) == x
  }

  lemma {:induction false} RpnIsPlain(e: Expr)
    ensures forall x :: x in Rpn(e) ==> Plain(x)
    decreases e
  {
    match e
    case EUn(_, arg) => RpnIsPlain(arg);
    case EBin(_, l, r) =>
      RpnIsPlain(l);
      RpnIsPlain(r);
    case EParen(e1) => RpnIsPlain(e1);
    case ECall(f, args) =>
      RpnArgsIsPlain(args);
      assert Plain(EmitFunc(f, Count(args)));
    case _ =>
  }

  lemma {:induction false} RpnArgsIsPlain(a: Args)
    ensures forall x :: x in RpnArgs(a) ==> Plain(x)
    decreases a
  {
    RpnIsPlain(a.e);
    if a.More? { RpnArgsIsPlain(a.rest); }
  }

  /** The parser's own output is linked to the initial bindings. */
  lemma RpnIsParsed(e: Expr)
    ensures Link(PARSED, Rpn(e)) == Rpn(e)
  {
    RpnIsPlain(e);
    forall i | 0 <= i < |Rpn(e)| ensures Link(PARSED, Rpn(e))[i] == Rpn(e)[i] {
      assert Plain(Rpn(e)[i]);
    }
  }

  /**
    From text to value: a well-written text whose later arguments do not lead with a sign is parsed
    into elements which, whatever the names have been bound to since, never underflow the stack and
    leave exactly the value of the tree on it.
   */
  lemma ParseThenEval(sem: Sem, env: Env, e: Expr)
    requires WellWritten(e) && SignsOk(e)
    ensures Parse(Toks(e)).Ok?
    ensures Link(PARSED, Parse(Toks(e)).elems) == Parse(Toks(e)).elems
    ensures Run(sem, [], Link(env, Parse(Toks(e)).elems)) == Some([Value(sem, env, e)])
  {
    ParsePrinted(e);
    RpnIsParsed(e);
    RunTree(sem, env, e, []);
    assert [] + [Value(sem, env, e)] == [Value(sem, env, e)];
  }
}
