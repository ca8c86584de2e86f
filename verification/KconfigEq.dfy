/** Equality of expressions up to reordering, and the elimination of common operands
    (scripts/kconfig/expr.c: __expr_eliminate_eq, expr_eliminate_eq, expr_eq). */
module KconfigEq {
  import opened KconfigExpr

  /** expr_eq compares copies, so the elimination it runs is on trees of its own. */
  predicate Eq(e1: Expr, e2: Expr)
    decreases Size(e1) + Size(e2), 2
  {
    match (e1, e2)
    case (Cmp(o1, a1, b1), Cmp(o2, a2, b2)) => o1 == o2 && a1 == a2 && b1 == b2
    case (Symbol(s1), Symbol(s2)) => s1 == s2
    case (Not(x1), Not(x2)) => Eq(x1, x2)
    case (Bin(c1, _, _), Bin(c2, _, _)) =>
      c1 == c2 &&
      var p := ElimEq(e1, e2);
      p.0.Symbol? && p.1.Symbol? && p.0.s == p.1.s
    case _ => false
  }

  /** __expr_eliminate_eq: pairs every operand of e1 with every operand of e2 and blanks out
      the pairs found equal. */
  function ElimEqRec(c: Conn, e1: Expr, e2: Expr): (p: (Expr, Expr))
    ensures Size(p.0) <= Size(e1) && Size(p.1) <= Size(e2)
    ensures e1.IsBin(c) ==> p.0.IsBin(c)
    ensures e2.IsBin(c) ==> p.1.IsBin(c)
    decreases Size(e1) + Size(e2), if e1.IsBin(c) || e2.IsBin(c) then 0 else 3
  {
    if e1.IsBin(c) then
      var p := ElimEqRec(c, e1.l, e2);
      var q := ElimEqRec(c, e1.r, p.1);
      (Bin(c, p.0, q.0), q.1)
    else if e2.IsBin(c) then
      var p := ElimEqRec(c, e1, e2.l);
      var q := ElimEqRec(c, p.0, e2.r);
      (q.0, Bin(c, p.1, q.1))
    else if e1 == e2 && (e1 == Y || e1 == N) then (e1, e2)
    else if !Eq(e1, e2) then (e1, e2)
    else (Unit(c), Unit(c))
  }

  function FirstPass(e1: Expr, e2: Expr): (p: (Expr, Expr))
    ensures Size(p.0) <= Size(e1) && Size(p.1) <= Size(e2)
    decreases Size(e1) + Size(e2), 1, 0
  {
    if e1.Bin? then ElimEqRec(e1.c, e1, e2) else (e1, e2)
  }

  function SecondPass(e1: Expr, e2: Expr): (p: (Expr, Expr))
    ensures Size(p.0) <= Size(e1) && Size(p.1) <= Size(e2)
    decreases Size(e1) + Size(e2), 1, 0
  {
    if e2.Bin? && !e1.IsBin(e2.c) then ElimEqRec(e2.c, e1, e2) else (e1, e2)
  }

  /** expr_eliminate_eq */
  function ElimEq(e1: Expr, e2: Expr): (p: (Expr, Expr))
    decreases Size(e1) + Size(e2), 1, 1
  {
    var p := FirstPass(e1, e2);
    var q := SecondPass(p.0, p.1);
    (ElimYn(q.0), ElimYn(q.1))
  }

  /** Two factors taken out one after the other make one factor. */
  lemma FactorsCompose(c: Conn, x1: Tri, x2: Tri, l: Tri, l': Tri, r: Tri, r': Tri, o: Tri, o': Tri, o'': Tri)
    requires l == Op(c, x1, l') && o == Op(c, x1, o')
    requires r == Op(c, x2, r') && o' == Op(c, x2, o'')
    ensures Op(c, l, r) == Op(c, Op(c, x1, x2), Op(c, l', r'))
    ensures o == Op(c, Op(c, x1, x2), o'')
  {
    OpLaws(c, x1, l', Op(c, x2, r'));
    OpLaws(c, l', x2, r');
    OpLaws(c, x2, l', r');
    OpLaws(c, x1, x2, Op(c, l', r'));
    OpLaws(c, x1, x2, o'');
  }

  /** The value that a round of elimination takes out of both sides at once: in every
      environment each original is that value joined with what is left. */
  lemma {:induction false} ElimEqRecFactor(env: Env, c: Conn, e1: Expr, e2: Expr) returns (x: Tri)
    ensures var p := ElimEqRec(c, e1, e2);
            Val(env, e1) == Op(c, x, Val(env, p.0)) && Val(env, e2) == Op(c, x, Val(env, p.1))
    decreases Size(e1) + Size(e2), if e1.IsBin(c) || e2.IsBin(c) then 0 else 3
  {
    if e1.IsBin(c) {
      var p := ElimEqRec(c, e1.l, e2);
      var x1 := ElimEqRecFactor(env, c, e1.l, e2);
      var x2 := ElimEqRecFactor(env, c, e1.r, p.1);
      var q := ElimEqRec(c, e1.r, p.1);
      FactorsCompose(c, x1, x2, Val(env, e1.l), Val(env, p.0), Val(env, e1.r), Val(env, q.0),
                     Val(env, e2), Val(env, p.1), Val(env, q.1));
      x := Op(c, x1, x2);
    } else if e2.IsBin(c) {
      var p := ElimEqRec(c, e1, e2.l);
      var x1 := ElimEqRecFactor(env, c, e1, e2.l);
      var x2 := ElimEqRecFactor(env, c, p.0, e2.r);
      var q := ElimEqRec(c, p.0, e2.r);
      FactorsCompose(c, x1, x2, Val(env, e2.l), Val(env, p.1), Val(env, e2.r), Val(env, q.1),
                     Val(env, e1), Val(env, p.0), Val(env, q.0));
      x := Op(c, x1, x2);
    } else if (e1 == e2 && (e1 == Y || e1 == N)) || !Eq(e1, e2) {
      x := if c == AND then Yes else No;
    } else {
      EqSound(env, e1, e2);
      x := Val(env, e1);
    }
  }

  lemma FactorMonotone(c: Conn, x: Tri, a: Tri, b: Tri)
    ensures Leq(a, b) ==> Leq(Op(c, x, a), Op(c, x, b))
    ensures Leq(b, a) ==> Leq(Op(c, x, b), Op(c, x, a))
  {
  }

  /** Whatever order the reduced expressions stand in, the originals stand in too. */
  lemma {:induction false} ElimEqReflectsOrder(env: Env, e1: Expr, e2: Expr)
    ensures var p := ElimEq(e1, e2);
            && (Leq(Val(env, p.0), Val(env, p.1)) ==> Leq(Val(env, e1), Val(env, e2)))
            && (Leq(Val(env, p.1), Val(env, p.0)) ==> Leq(Val(env, e2), Val(env, e1)))
    decreases Size(e1) + Size(e2), 1, 1
  {
    var p := FirstPass(e1, e2);
    var q := SecondPass(p.0, p.1);
    if e1.Bin? {
      var x := ElimEqRecFactor(env, e1.c, e1, e2);
      FactorMonotone(e1.c, x, Val(env, p.0), Val(env, p.1));
    }
    if p.1.Bin? && !p.0.IsBin(p.1.c) {
      var x := ElimEqRecFactor(env, p.1.c, p.0, p.1);
      FactorMonotone(p.1.c, x, Val(env, q.0), Val(env, q.1));
    }
    ElimYnValue(env, q.0);
    ElimYnValue(env, q.1);
  }

  /** A yes answer of expr_eq means the same value in every environment. */
  lemma {:induction false} EqSound(env: Env, e1: Expr, e2: Expr)
    requires Eq(e1, e2)
    ensures Val(env, e1) == Val(env, e2)
    decreases Size(e1) + Size(e2), 2
  {
    match (e1, e2)
    case (Not(x1), Not(x2)) => EqSound(env, x1, x2);
    case (Bin(_, _, _), Bin(_, _, _)) => ElimEqReflectsOrder(env, e1, e2);
    case _ =>
  }

  /** expr_is_yes */
  predicate IsYes(e: Expr) { e == Y }

  /** When expr_eliminate_eq leaves only the constant y of e2, e1 implies e2 in every
      environment: the nesting test of menu_finalize is a real implication. */
  lemma {:induction false} ElimEqImplication(e1: Expr, e2: Expr)
    requires IsYes(ElimEq(e1, e2).1)
    ensures forall env: Env :: Leq(Val(env, e1), Val(env, e2))
  {
    forall env: Env ensures Leq(Val(env, e1), Val(env, e2)) {
      ElimEqReflectsOrder(env, e1, e2);
    }
  }
}
