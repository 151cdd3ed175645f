/**
  How the parser groups operators: the levels of precedence, written down once more as a list, decide
  which of two operators takes the operand between them.
  Source: liblinktool/klib/kexpr.c, lines 15-38, 64-78 and 308-325.
 */
module KexprLevels {
  import opened Kexpr
  import opened KexprTrees

  /** The operators of two arguments, from those that bind tightest to those that bind loosest. */
  const LEVELS: seq<seq<Op>> := [
    [Pow],
    [Mul, Div, IDiv, Mod],
    [Add, Sub],
    [Lsh, Rsh],
    [Lt, Le, Gt, Ge],
    [Eq, Ne],
    [BAnd],
    [BXor],
    [BOr],
    [LAnd],
    [LOr]
  ]

  const SIGNS: seq<Op> := [Pos, Neg, BNot, LNot]

  predicate InLevel(op: Op, i: nat) {
    i < |LEVELS| && op in LEVELS[i]
  }

  /** Every operator takes one argument or is in exactly one level. */
  lemma EveryOperator(op: Op) returns (i: nat)
    ensures op in SIGNS <==> IsUnary(op)
    ensures op !in SIGNS ==> InLevel(op, i)
    ensures forall j: nat :: InLevel(op, j) ==> op !in SIGNS && j == i
  {
    i := if op in SIGNS then 0 else Prec(op) - 2;
    assert op in SIGNS || op in LEVELS[i];
    forall j: nat | InLevel(op, j) ensures op !in SIGNS && j == i { LevelIs(op, j); }
  }

  /** The table of the parser agrees with the list: only the first level associates to the right. */
  lemma LevelIs(op: Op, i: nat)
    requires InLevel(op, i)
    ensures op !in SIGNS && !IsUnary(op) && Prec(op) == i + 2 && (RightAssoc(op) <==> i == 0)
  {
    match i
    case 0 => assert LEVELS[0] == [Pow];
    case 1 => assert LEVELS[1] == [Mul, Div, IDiv, Mod];
    case 2 => assert LEVELS[2] == [Add, Sub];
    case 3 => assert LEVELS[3] == [Lsh, Rsh];
    case 4 => assert LEVELS[4] == [Lt, Le, Gt, Ge];
    case 5 => assert LEVELS[5] == [Eq, Ne];
    case 6 => assert LEVELS[6] == [BAnd];
    case 7 => assert LEVELS[7] == [BXor];
    case 8 => assert LEVELS[8] == [BOr];
    case 9 => assert LEVELS[9] == [LAnd];
    case _ => assert LEVELS[10] == [LOr];
  }

  /** A number, a variable, a call or something in parentheses. */
  predicate Operand(e: Expr) {
    !e.EUn? && !e.EBin? && WellWritten(e) && SignsOk(e)
  }

  /** A tree of one operator. */
  lemma Infix(p: Op, l: Expr, r: Expr)
    ensures Toks(EBin(p, l, r)) == Toks(l) + ([Symbol(p)] + Toks(r))
    ensures Rpn(EBin(p, l, r)) == Rpn(l) + Rpn(r) + [Oper(p)]
    ensures Level(EBin(p, l, r)) == Prec(p)
    ensures SignsOk(EBin(p, l, r)) <==> SignsOk(l) && SignsOk(r)
    ensures WellWritten(EBin(p, l, r)) <==>
              !IsUnary(p) && AdmitsLeft(p, Level(l)) && AdmitsRight(p, Level(r)) && WellWritten(l) && WellWritten(r)
  {
  }

  lemma Prefix(u: Op, a: Expr)
    requires u in SIGNS && Operand(a)
    ensures Toks(EUn(u, a)) == [Symbol(u)] + Toks(a) && Rpn(EUn(u, a)) == Rpn(a) + [Oper(u)]
    ensures Level(EUn(u, a)) == 1 && SignsOk(EUn(u, a)) && WellWritten(EUn(u, a))
  {
  }

  lemma Flat<T>(a: seq<T>, x: T, b: seq<T>, y: T, c: seq<T>)
    ensures (a + ([x] + b)) + ([y] + c) == a + [x] + b + [y] + c
    ensures a + ([x] + (b + ([y] + c))) == a + [x] + b + [y] + c
  {
  }

  lemma FlatRpn(a: seq<Elem>, b: seq<Elem>, c: seq<Elem>, p: Elem, q: Elem)
    ensures a + (b + c + [q]) + [p] == a + b + c + [q] + [p]
  {
  }

  /**
    Of two operators the one further up in the list takes the operand between them, and of one level the
    left one does, but the right one at the first level.
   */
  lemma GroupsByLevel(p: Op, i: nat, q: Op, j: nat, a: Expr, b: Expr, c: Expr)
    requires InLevel(p, i) && InLevel(q, j) && Operand(a) && Operand(b) && Operand(c)
    ensures Parse(Toks(a) + [Symbol(p)] + Toks(b) + [Symbol(q)] + Toks(c))
            == Ok(if i < j || (i == j && i != 0)
                  then Rpn(a) + Rpn(b) + [Oper(p)] + Rpn(c) + [Oper(q)]
                  else Rpn(a) + Rpn(b) + Rpn(c) + [Oper(q)] + [Oper(p)])
  {
    hide Toks, Rpn, WellWritten, SignsOk, Symbol, KeOp, Parse;
    LevelIs(p, i);
    LevelIs(q, j);
    Flat(Toks(a), Symbol(p), Toks(b), Symbol(q), Toks(c));
    if i < j || (i == j && i != 0) {
      var l := EBin(p, a, b);
      Infix(p, a, b);
      Infix(q, l, c);
      ParsePrinted(EBin(q, l, c));
    } else {
      var r := EBin(q, b, c);
      Infix(q, b, c);
      Infix(p, a, r);
      ParsePrinted(EBin(p, a, r));
      FlatRpn(Rpn(a), Rpn(b), Rpn(c), Oper(p), Oper(q));
    }
  }

  /** An operator of one argument takes the operand behind it, whatever comes before and after. */
  lemma SignsFirst(u: Op, v: Op, p: Op, i: nat, a: Expr, b: Expr)
    requires u in SIGNS && v in SIGNS && InLevel(p, i) && Operand(a) && Operand(b)
    ensures Parse([Symbol(u)] + Toks(a) + [Symbol(p)] + [Symbol(v)] + Toks(b))
            == Ok(Rpn(a) + [Oper(u)] + Rpn(b) + [Oper(v)] + [Oper(p)])
  {
    hide Toks, Rpn, WellWritten, SignsOk, Symbol, KeOp, Parse;
    LevelIs(p, i);
    Prefix(u, a);
    Prefix(v, b);
    Infix(p, EUn(u, a), EUn(v, b));
    SignedToks([Symbol(u)], Toks(a), Symbol(p), [Symbol(v)], Toks(b));
    SignedRpn(Rpn(a), Oper(u), Rpn(b), Oper(v), Oper(p));
    ParsePrinted(EBin(p, EUn(u, a), EUn(v, b)));
  }

  lemma SignedToks(u: seq<Tok>, a: seq<Tok>, p: Tok, v: seq<Tok>, b: seq<Tok>)
    ensures (u + a) + ([p] + (v + b)) == u + a + [p] + v + b
  {
  }

  lemma SignedRpn(a: seq<Elem>, u: Elem, b: seq<Elem>, v: Elem, p: Elem)
    ensures (a + [u]) + (b + [v]) + [p] == a + [u] + b + [v] + [p]
  {
  }
}
