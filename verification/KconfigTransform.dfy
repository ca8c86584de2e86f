/** Pushing negation inwards and simplifying comparisons of boolean symbols
    (scripts/kconfig/expr.c: expr_transform, expr_trans_bool, expr_trans_compare). */
module KconfigTransform {
  import opened KconfigExpr

  /** De Morgan steps grow the tree, but not this weight. */
  function Weight(e: Expr): (n: nat)
    ensures n >= 1
  {
    match e
    case Symbol(_) => 1
    case Cmp(_, _, _) => 2
    case Not(x) => 2 * Weight(x)
    case Bin(_, l, r) => 1 + Weight(l) + Weight(r)
  }

  function Dual(c: Conn): Conn { if c == AND then OR else AND }

  function Negate(op: Rel): Rel {
    match op
    case EQ => NE
    case NE => EQ
    case LEQ => GTH
    case GEQ => LTH
    case LTH => GEQ
    case GTH => LEQ
  }

  /** !(l c r) with the negation pushed onto the operands. */
  function PushNot(c: Conn, l: Expr, r: Expr): (e: Expr)
    ensures Weight(e) < 2 * Weight(Bin(c, l, r))
  {
    assert Weight(Not(l)) == 2 * Weight(l) && Weight(Not(r)) == 2 * Weight(r);
    Bin(Dual(c), Not(l), Not(r))
  }

  /** The comparison cases of expr_transform: a boolean symbol tested against a constant. */
  function TransformCmp(op: Rel, a: Sym, b: Sym): (r: Expr)
    ensures Weight(r) <= 2
  {
    if (op != EQ && op != NE) || a.Type() != Boolean then Cmp(op, a, b)
    else if b == SymNo then (if op == EQ then Not(Symbol(a)) else Symbol(a))
    else if b == SymMod then (if op == EQ then N else Y)
    else if b == SymYes then (if op == EQ then Symbol(a) else Not(Symbol(a)))
    else Cmp(op, a, b)
  }

  /** expr_transform */
  function Transform(e: Expr): (r: Expr)
    ensures Weight(r) <= Weight(e)
    ensures Nnf(r)
    decreases Weight(e)
  {
    match e
    case Symbol(_) => e
    case Cmp(op, a, b) => TransformCmp(op, a, b)
    case Bin(c, l, r) => Bin(c, Transform(l), Transform(r))
    case Not(x) =>
      match Transform(x)
      case Not(y) => Transform(y)
      case Cmp(op, a, b) => Cmp(Negate(op), a, b)
      case Bin(c, l, r) => Transform(PushNot(c, l, r))
      case Symbol(s) =>
        if s == SymYes then N else if s == SymMod then M else if s == SymNo then Y else Not(Symbol(s))
  }

  /** No order test of a symbol of type S_OTHER. */
  predicate NoOrderOther(e: Expr) {
    match e
    case Symbol(_) => true
    case Cmp(op, a, b) => op == EQ || op == NE || (a.Type() != Other && b.Type() != Other)
    case Not(x) => NoOrderOther(x)
    case Bin(_, l, r) => NoOrderOther(l) && NoOrderOther(r)
  }

  /** ... at least none under a negation, where expr_transform turns the test around. */
  predicate NoNegatedOther(e: Expr) {
    match e
    case Symbol(_) => true
    case Cmp(_, _, _) => true
    case Not(x) => NoOrderOther(x)
    case Bin(_, l, r) => NoNegatedOther(l) && NoNegatedOther(r)
  }

  lemma {:induction false} NoOrderNoNegated(e: Expr)
    requires NoOrderOther(e)
    ensures NoNegatedOther(e)
  {
    if e.Bin? {
      NoOrderNoNegated(e.l);
      NoOrderNoNegated(e.r);
    }
  }

  lemma {:induction false} TransformKeepsOrder(e: Expr)
    requires NoOrderOther(e)
    ensures NoOrderOther(Transform(e))
    decreases Weight(e)
  {
    match e
    case Symbol(_) =>
    case Cmp(_, _, _) =>
    case Bin(_, l, r) =>
      TransformKeepsOrder(l);
      TransformKeepsOrder(r);
    case Not(x) =>
      TransformKeepsOrder(x);
      match Transform(x)
      case Not(y) => TransformKeepsOrder(y);
      case Bin(c, l, r) => TransformKeepsOrder(PushNot(c, l, r));
      case _ =>
  }

  /** A comparison and its negation are complementary exactly when the operands can be
      compared or the relation is (in)equality. */
  lemma NegateExactly(env: Env, op: Rel, a: Sym, b: Sym)
    ensures RelVal(env, Negate(op), a, b) == TriNot(RelVal(env, op, a, b))
            <==> Compare(env, a, b) != Incomparable || op == EQ || op == NE
  {
  }

  lemma DeMorgan(c: Conn, x: Tri, y: Tri)
    ensures TriNot(Op(c, x, y)) == Op(Dual(c), TriNot(x), TriNot(y))
    ensures TriNot(TriNot(x)) == x
  {
  }

  lemma TransformCmpValue(env: Env, op: Rel, a: Sym, b: Sym)
    requires WfEnv(env)
    ensures Val(env, TransformCmp(op, a, b)) == RelVal(env, op, a, b)
  {
    if a.Type() == Boolean {
      assert env.tri(a) != Mod;
      assert Compare(env, a, b) == Ordered(StrCmp(SymStr(env, a), SymStr(env, b)));
      assert "n"[0] != "m"[0] && "n"[0] != "y"[0] && "m"[0] != "y"[0];
    }
  }

  /** expr_transform keeps the value in every environment. */
  lemma {:induction false} TransformValue(env: Env, e: Expr)
    requires WfEnv(env) && NoNegatedOther(e)
    ensures Val(env, Transform(e)) == Val(env, e)
    decreases Weight(e)
  {
    match e
    case Symbol(_) =>
    case Cmp(op, a, b) => TransformCmpValue(env, op, a, b);
    case Bin(_, l, r) =>
      TransformValue(env, l);
      TransformValue(env, r);
    case Not(x) =>
      NoOrderNoNegated(x);
      TransformValue(env, x);
      TransformKeepsOrder(x);
      match Transform(x)
      case Not(y) =>
        TransformValue(env, y);
        DeMorgan(AND, Val(env, y), Yes);
      case Cmp(op, a, b) =>
        NegateExactly(env, op, a, b);
      case Bin(c, l, r) =>
        TransformValue(env, PushNot(c, l, r));
        DeMorgan(c, Val(env, l), Val(env, r));
      case Symbol(_) =>
  }

  /** expr_transform is done after one run: its results are fixed points. */
  lemma {:induction false} TransformOnNormalForm(e: Expr)
    requires Nnf(e) && BooleanTestsGone(e)
    ensures Transform(e) == e
    decreases e
  {
    if e.Bin? {
      TransformOnNormalForm(e.l);
      TransformOnNormalForm(e.r);
    }
  }

  /** No boolean symbol is still compared with y, m or n. */
  predicate BooleanTestsGone(e: Expr) {
    match e
    case Symbol(_) => true
    case Cmp(op, a, b) => !((op == EQ || op == NE) && a.Type() == Boolean && b in {SymYes, SymMod, SymNo})
    case Not(x) => BooleanTestsGone(x)
    case Bin(_, l, r) => BooleanTestsGone(l) && BooleanTestsGone(r)
  }

  lemma {:induction false} TransformRemovesBooleanTests(e: Expr)
    ensures BooleanTestsGone(Transform(e))
    decreases Weight(e)
  {
    match e
    case Symbol(_) =>
    case Cmp(_, _, _) =>
    case Bin(_, l, r) =>
      TransformRemovesBooleanTests(l);
      TransformRemovesBooleanTests(r);
    case Not(x) =>
      TransformRemovesBooleanTests(x);
      match Transform(x)
      case Not(y) => TransformRemovesBooleanTests(y);
      case Bin(c, l, r) => TransformRemovesBooleanTests(PushNot(c, l, r));
      case _ =>
  }

  lemma {:induction false} TransformIdempotent(e: Expr)
    ensures Transform(Transform(e)) == Transform(e)
  {
    TransformRemovesBooleanTests(e);
    TransformOnNormalForm(Transform(e));
  }

  /** Order tests on S_OTHER symbols are the exception: both a < b and its negation read no. */
  lemma TransformOtherCounterexample(env: Env, a: Sym, b: Sym)
    requires a.Type() == Other && b.Type() == Other
    ensures Val(env, Not(Cmp(LTH, a, b))) == Yes
    ensures Val(env, Transform(Not(Cmp(LTH, a, b)))) == No
  {
    assert Compare(env, a, b) == Incomparable;
  }

  /** expr_trans_bool: the test FOO != n of a tristate symbol becomes FOO. */
  function TransBool(e: Expr): Expr {
    match e
    case Symbol(_) => e
    case Cmp(op, a, b) => if op == NE && a.Type() == Tristate && b == SymNo then Symbol(a) else e
    case Not(x) => Not(TransBool(x))
    case Bin(c, l, r) => Bin(c, TransBool(l), TransBool(r))
  }

  /** No tristate symbol is still tested for being other than n. */
  predicate TristateTestsGone(e: Expr) {
    match e
    case Symbol(_) => true
    case Cmp(op, a, b) => !(op == NE && a.Type() == Tristate && b == SymNo)
    case Not(x) => TristateTestsGone(x)
    case Bin(_, l, r) => TristateTestsGone(l) && TristateTestsGone(r)
  }

  lemma {:induction false} TransBoolRemovesTests(e: Expr)
    ensures TristateTestsGone(TransBool(e)) && (TristateTestsGone(e) <==> TransBool(e) == e)
  {
    match e
    case Not(x) => TransBoolRemovesTests(x);
    case Bin(_, l, r) =>
      TransBoolRemovesTests(l);
      TransBoolRemovesTests(r);
    case _ =>
  }

  /** On the normal form of expr_transform, expr_trans_bool keeps whether the value is n. */
  lemma {:induction false} TransBoolVisibility(env: Env, e: Expr)
    requires WfEnv(env) && Nnf(e)
    ensures Val(env, TransBool(e)) == No <==> Val(env, e) == No
  {
    match e
    case Bin(_, l, r) =>
      TransBoolVisibility(env, l);
      TransBoolVisibility(env, r);
    case Cmp(op, a, b) =>
      if op == NE && a.Type() == Tristate && b == SymNo {
        TristateTest(env, a);
      }
    case _ =>
  }

  lemma TristateTest(env: Env, a: Sym)
    requires WfEnv(env) && a.Type() == Tristate
    ensures RelVal(env, NE, a, SymNo) == Truth(env.tri(a) != No)
  {
    assert Compare(env, a, SymNo) == Ordered(StrCmp(SymStr(env, a), "n"));
    assert "m"[0] != "n"[0] && "y"[0] != "n"[0];
  }

  /** Under a negation the rewrite is visible exactly when the symbol is m. */
  lemma TransBoolUnderNot(env: Env, a: Sym)
    requires WfEnv(env) && a.Type() == Tristate
    ensures var e := Not(Cmp(NE, a, SymNo));
            (Val(env, TransBool(e)) == No <==> Val(env, e) == No) <==> env.tri(a) != Mod
  {
    TristateTest(env, a);
  }

  /** expr_trans_compare against n: what menu_finalize calls before the nesting test.
      `ne` chooses between e != n and e = n. */
  function TransCompareNo(e: Expr, ne: bool): Expr {
    match e
    case Bin(c, l, r) =>
      var x := Bin(Dual(c), TransCompareNo(l, false), TransCompareNo(r, false));
      if ne then Not(x) else x
    case Not(x) => TransCompareNo(x, !ne)
    case Cmp(_, _, _) => if ne then e else Not(e)
    case Symbol(s) => Cmp(if ne then NE else EQ, s, SymNo)
  }

  /** What the comparison with n answers: a reading of e with two values. */
  predicate Tested(env: Env, e: Expr) {
    match e
    case Symbol(s) => SymStr(env, s) != "n"
    case Cmp(op, a, b) => RelVal(env, op, a, b) == Yes
    case Not(x) => !Tested(env, x)
    case Bin(c, l, r) => if c == AND then Tested(env, l) && Tested(env, r) else Tested(env, l) || Tested(env, r)
  }

  lemma {:induction false} TransCompareTested(env: Env, e: Expr, ne: bool)
    requires WfEnv(env)
    ensures Val(env, TransCompareNo(e, ne)) == Truth(Tested(env, e) == ne)
  {
    match e
    case Symbol(s) => SymbolTest(env, s);
    case Cmp(_, _, _) =>
    case Not(x) => TransCompareTested(env, x, !ne);
    case Bin(_, l, r) =>
      TransCompareTested(env, l, false);
      TransCompareTested(env, r, false);
  }

  /** Symbols whose string tells their truth: the constants y, m and n, boolean and tristate symbols. The
      value of any other symbol is n whatever its string. */
  predicate Telling(s: Sym) { s in {SymYes, SymMod, SymNo} || s.Type() == Boolean || s.Type() == Tristate }

  lemma SymbolTest(env: Env, s: Sym)
    requires WfEnv(env)
    ensures RelVal(env, NE, s, SymNo) == Truth(SymStr(env, s) != "n")
    ensures RelVal(env, EQ, s, SymNo) == Truth(SymStr(env, s) == "n")
    ensures if Telling(s) then SymStr(env, s) == "n" <==> SymTri(env, s) == No else SymTri(env, s) == No
  {
    assert Compare(env, s, SymNo) == Ordered(StrCmp(SymStr(env, s), "n"));
    assert "m"[0] != "n"[0] && "y"[0] != "n"[0];
  }

  /** The comparison of one symbol asks for its value exactly when its string tells it or is "n". */
  lemma SymbolTestExactly(env: Env, s: Sym)
    requires WfEnv(env)
    ensures Val(env, TransCompareNo(Symbol(s), true)) == Truth(Val(env, Symbol(s)) != No)
            <==> Telling(s) || SymStr(env, s) == "n"
  {
    SymbolTest(env, s);
  }

  /** The negation case is right exactly when the negated symbol is not m, or is one whose value its string
      does not tell and the string is "n". */
  lemma TransCompareUnderNot(env: Env, a: Sym)
    requires WfEnv(env)
    ensures Val(env, TransCompareNo(Not(Symbol(a)), true)) == Truth(Val(env, Not(Symbol(a))) != No)
            <==> if Telling(a) then SymTri(env, a) != Mod else SymStr(env, a) == "n"
  {
    SymbolTest(env, a);
  }

  /** Every symbol's string tells its value in this environment. */
  predicate SymbolsTell(env: Env, e: Expr) {
    match e
    case Symbol(s) => Telling(s) || SymStr(env, s) == "n"
    case Cmp(_, _, _) => true
    case Not(x) => SymbolsTell(env, x)
    case Bin(_, l, r) => SymbolsTell(env, l) && SymbolsTell(env, r)
  }

  /** A negated operand takes only the values n and y. */
  predicate NotsTwoValued(env: Env, e: Expr) {
    match e
    case Not(x) => Val(env, x) != Mod && NotsTwoValued(env, x)
    case Bin(_, l, r) => NotsTwoValued(env, l) && NotsTwoValued(env, r)
    case _ => true
  }

  /** The comparison with n asks for the value, of e and of every operand in it. */
  predicate TestRight(env: Env, e: Expr) {
    && Val(env, TransCompareNo(e, true)) == Truth(Val(env, e) != No)
    && (e.Not? ==> TestRight(env, e.e))
    && (e.Bin? ==> TestRight(env, e.l) && TestRight(env, e.r))
  }

  /** That is so exactly when every symbol's string tells its value and no negated operand is m. */
  lemma {:induction false} TransCompareExactly(env: Env, e: Expr)
    requires WfEnv(env)
    ensures TestRight(env, e) <==> SymbolsTell(env, e) && NotsTwoValued(env, e)
  {
    TransCompareTested(env, e, true);
    match e
    case Symbol(s) => SymbolTest(env, s);
    case Cmp(_, _, _) =>
    case Not(x) =>
      TransCompareTested(env, x, true);
      TransCompareExactly(env, x);
    case Bin(_, l, r) =>
      TransCompareTested(env, l, true);
      TransCompareTested(env, r, true);
      TransCompareExactly(env, l);
      TransCompareExactly(env, r);
  }

  /** Comparing with n asks whether the value is n. */
  lemma TransCompareValue(env: Env, e: Expr, ne: bool)
    requires WfEnv(env) && SymbolsTell(env, e) && NotsTwoValued(env, e)
    ensures Val(env, TransCompareNo(e, ne)) == Truth((Val(env, e) != No) == ne)
  {
    TransCompareExactly(env, e);
    TransCompareTested(env, e, true);
    TransCompareTested(env, e, ne);
  }

  // ----- the two halves of that, on the normal form -----

  /** No test answers yes for a value n, in e and in its operands. */
  predicate NeverOver(env: Env, e: Expr) {
    (Tested(env, e) ==> Val(env, e) != No) && (e.Bin? ==> NeverOver(env, e.l) && NeverOver(env, e.r))
  }

  /** No test answers no for a value that is not n. */
  predicate NeverUnder(env: Env, e: Expr) {
    (Val(env, e) != No ==> Tested(env, e)) && (e.Bin? ==> NeverUnder(env, e.l) && NeverUnder(env, e.r))
  }

  /** The strings of the symbols outside negations tell their values. */
  predicate PlainTell(env: Env, e: Expr) {
    match e
    case Symbol(s) => Telling(s) || SymStr(env, s) == "n"
    case Bin(_, l, r) => PlainTell(env, l) && PlainTell(env, r)
    case _ => true
  }

  /** The strings of the negated symbols tell their values, and none of them is m. */
  predicate NegatedTell(env: Env, e: Expr) {
    match e
    case Not(x) => x.Symbol? ==> if Telling(x.s) then SymTri(env, x.s) != Mod else SymStr(env, x.s) == "n"
    case Bin(_, l, r) => NegatedTell(env, l) && NegatedTell(env, r)
    case _ => true
  }

  lemma {:induction false} OverExactly(env: Env, e: Expr)
    requires WfEnv(env) && Nnf(e)
    ensures NeverOver(env, e) <==> PlainTell(env, e)
  {
    match e
    case Symbol(s) => SymbolTest(env, s);
    case Cmp(_, _, _) =>
    case Not(x) =>
      SymbolTest(env, x.s);
      assert Val(env, x) == SymTri(env, x.s) && Tested(env, x) == (SymStr(env, x.s) != "n");
    case Bin(_, l, r) =>
      OverExactly(env, l);
      OverExactly(env, r);
  }

  lemma {:induction false} UnderExactly(env: Env, e: Expr)
    requires WfEnv(env) && Nnf(e)
    ensures NeverUnder(env, e) <==> NegatedTell(env, e)
  {
    match e
    case Symbol(s) => SymbolTest(env, s);
    case Cmp(_, _, _) =>
    case Not(x) =>
      SymbolTest(env, x.s);
      assert Val(env, x) == SymTri(env, x.s) && Tested(env, x) == (SymStr(env, x.s) != "n");
    case Bin(_, l, r) =>
      UnderExactly(env, l);
      UnderExactly(env, r);
  }
}
