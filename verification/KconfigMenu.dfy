/** How menu_finalize composes the rewrites (scripts/kconfig/menu.c, lines 314 to 366). */
module KconfigMenu {
  import opened KconfigExpr
  import opened KconfigEq
  import opened KconfigTransform
  import opened KconfigDups

  predicate DepNnf(d: Dep) { d.Dep? ==> Nnf(d.e) }
  predicate DepNoNegatedOther(d: Dep) { d.Dep? ==> NoNegatedOther(d.e) }
  predicate DepNoOrderOther(d: Dep) { d.Dep? ==> NoOrderOther(d.e) }

  function TransformDep(d: Dep): Dep { if d.NoDep? then NoDep else Dep(Transform(d.e)) }

  /** A dependency after its parent's has been joined to it: transformed, conjoined, duplicates removed. */
  method Conjoin(parent: Dep, own: Dep) returns (d: Dep)
    requires DepNoNegatedOther(own)
    ensures forall env: Env :: WfEnv(env) ==> DepVal(env, d) == TriMin(DepVal(env, parent), DepVal(env, own))
    ensures DepNnf(parent) ==> DepNnf(d)
    ensures d.Dep? ==> Settled(d.e)
    ensures d.NoDep? <==> parent.NoDep? && own.NoDep?
  {
    d := AllocAnd(parent, TransformDep(own));
    forall env: Env | WfEnv(env) ensures DepVal(env, d) == TriMin(DepVal(env, parent), DepVal(env, own)) {
      if own.Dep? { TransformValue(env, own.e); }
    }
    if d.Dep? {
      var w := new Rewriter(d.e);
      w.EliminateDups();
      d := Dep(w.tree);
    }
  }

  /** The visibility sym_calc_visibility derives: without module support, or for a symbol that
      is not tristate, m counts as y. */
  function Visibility(v: Tri, tristate: bool, modules: Tri): Tri {
    if v == Mod && (!tristate || modules == No) then Yes else v
  }

  /** It hides nothing and shows nothing hidden, and is m only where m can be chosen. */
  lemma VisibilityMeaning(v: Tri, tristate: bool, modules: Tri)
    ensures var w := Visibility(v, tristate, modules);
            && (w == No <==> v == No) && Leq(v, w)
            && (tristate && modules != No ==> w == v) && (!(tristate && modules != No) ==> w != Mod)
  {
  }

  /** A property's final visible expression; expr_trans_bool runs only for symbols that are not
      tristate, and there the visibility does not show it. */
  method FinalizeVisible(basedep: Dep, visible: Dep, tristate: bool) returns (d: Dep)
    requires DepNoNegatedOther(visible) && DepNnf(basedep)
    ensures DepNnf(d) && (d.Dep? ==> if tristate then Settled(d.e) else TristateTestsGone(d.e))
    ensures tristate ==>
              forall env: Env :: WfEnv(env) ==> DepVal(env, d) == TriMin(DepVal(env, basedep), DepVal(env, visible))
    ensures forall env: Env :: WfEnv(env) ==>
              Visibility(DepVal(env, d), tristate, env.modules) ==
              Visibility(TriMin(DepVal(env, basedep), DepVal(env, visible)), tristate, env.modules)
  {
    d := Conjoin(basedep, visible);
    if !tristate && d.Dep? {
      ghost var before := d.e;
      d := Dep(TransBool(d.e));
      TransBoolKeepsNnf(before);
      TransBoolRemovesTests(before);
      forall env: Env | WfEnv(env) ensures DepVal(env, d) == No <==> Val(env, before) == No {
        TransBoolVisibility(env, before);
      }
    }
  }

  lemma {:induction false} TransBoolKeepsNnf(e: Expr)
    requires Nnf(e)
    ensures Nnf(TransBool(e))
  {
    if e.Bin? {
      TransBoolKeepsNnf(e.l);
      TransBoolKeepsNnf(e.r);
    }
  }

  // ----- the nesting of the entries after a symbol -----

  /** expr_contains_symbol */
  predicate Contains(e: Expr, s: Sym) {
    match e
    case Symbol(a) => a == s
    case Cmp(_, a, b) => a == s || b == s
    case Not(x) => Contains(x, s)
    case Bin(_, l, r) => Contains(l, s) || Contains(r, s)
  }

  /** expr_depends_symbol */
  predicate Depends(e: Expr, s: Sym) {
    match e
    case Symbol(a) => a == s
    case Cmp(op, a, b) => a == s && ((op == EQ && (b == SymYes || b == SymMod)) || (op == NE && b == SymNo))
    case Not(_) => false
    case Bin(c, l, r) => c == AND && (Depends(l, s) || Depends(r, s))
  }

  predicate DepContains(d: Dep, s: Sym) { d.Dep? && Contains(d.e, s) }
  predicate DepDepends(d: Dep, s: Sym) { d.Dep? && Depends(d.e, s) }

  /** The symbols an expression mentions. */
  function Symbols(e: Expr): set<Sym> {
    match e
    case Symbol(a) => {a}
    case Cmp(_, a, b) => {a, b}
    case Not(x) => Symbols(x)
    case Bin(_, l, r) => Symbols(l) + Symbols(r)
  }

  /** expr_contains_symbol finds a symbol exactly when it occurs; the value does not depend on any other. */
  lemma {:induction false} ContainsExactly(e: Expr, s: Sym)
    ensures Contains(e, s) <==> s in Symbols(e)
  {
    match e
    case Not(x) => ContainsExactly(x, s);
    case Bin(_, l, r) =>
      ContainsExactly(l, s);
      ContainsExactly(r, s);
    case _ =>
  }

  lemma SymbolOnly(env: Env, env': Env, e: Expr, a: Sym)
    requires Contains(e, a) && forall s: Sym :: Contains(e, s) ==> env'.tri(s) == env.tri(s)
    ensures SymTri(env', a) == SymTri(env, a)
  {
  }

  lemma TestOnly(env: Env, env': Env, op: Rel, a: Sym, b: Sym)
    requires env'.modules == env.modules && env'.num == env.num
    requires forall s: Sym :: Contains(Cmp(op, a, b), s) ==> env'.tri(s) == env.tri(s) && env'.str(s) == env.str(s)
    ensures RelVal(env', op, a, b) == RelVal(env, op, a, b)
  {
    assert Contains(Cmp(op, a, b), a) && Contains(Cmp(op, a, b), b);
    assert SymStr(env', a) == SymStr(env, a) && SymStr(env', b) == SymStr(env, b);
    hide SymStr, StrCmp;
  }

  lemma {:induction false} OnlySymbolsMatter(env: Env, env': Env, e: Expr)
    requires env'.modules == env.modules && env'.num == env.num
    requires forall s: Sym :: Contains(e, s) ==> env'.tri(s) == env.tri(s) && env'.str(s) == env.str(s)
    ensures Val(env', e) == Val(env, e)
  {
    hide RelVal, SymTri;
    match e
    case Symbol(a) => SymbolOnly(env, env', e, a);
    case Cmp(op, a, b) => TestOnly(env, env', op, a, b);
    case Not(x) => OnlySymbolsMatter(env, env', x);
    case Bin(_, l, r) =>
      assert forall s: Sym :: Contains(l, s) || Contains(r, s) ==> Contains(e, s);
      OnlySymbolsMatter(env, env', l);
      OnlySymbolsMatter(env, env', r);
  }

  /** The operands that say a symbol is needed: the symbol, and its tests against y, m and n. */
  predicate Needs(e: Expr, s: Sym) { e in {Symbol(s), Cmp(EQ, s, SymYes), Cmp(EQ, s, SymMod), Cmp(NE, s, SymNo)} }

  /** expr_depends_symbol answers yes exactly when one of these is an operand of the conjunction. */
  lemma {:induction false} DependsExactly(e: Expr, s: Sym)
    ensures Depends(e, s) <==> exists p: Path :: IsOperand(AND, e, p) && Needs(At(e, p), s)
  {
    if e.IsBin(AND) {
      DependsExactly(e.l, s);
      DependsExactly(e.r, s);
      if p: Path :| IsOperand(AND, e.l, p) && Needs(At(e.l, p), s) { OperandUp(AND, e, false, p); }
      if p: Path :| IsOperand(AND, e.r, p) && Needs(At(e.r, p), s) { OperandUp(AND, e, true, p); }
      if p: Path :| IsOperand(AND, e, p) && Needs(At(e, p), s) {
        assert p != [];
        var h := if p[0] then e.r else e.l;
        assert IsOperand(AND, h, p[1..]) && At(h, p[1..]) == At(e, p);
      }
    } else {
      assert IsOperand(AND, e, []);
      if p: Path :| IsOperand(AND, e, p) && Needs(At(e, p), s) { assert p == []; }
    }
  }

  /** An entry that depends on a boolean or tristate symbol can be seen only while the symbol is not n. */
  lemma {:induction false} DependsImplies(env: Env, e: Expr, s: Sym)
    requires WfEnv(env) && Depends(e, s) && (s.Type() == Boolean || s.Type() == Tristate) && Val(env, e) != No
    ensures env.tri(s) != No
  {
    match e
    case Symbol(_) =>
    case Cmp(op, a, b) =>
      assert Compare(env, s, b) == Ordered(StrCmp(SymStr(env, s), SymStr(env, b)));
      assert "n"[0] != "m"[0] && "n"[0] != "y"[0];
    case Bin(_, l, r) => if Depends(l, s) { DependsImplies(env, l, s); } else { DependsImplies(env, r, s); }
  }

  /** What expr_trans_compare makes of a dependency; an absent one becomes the negation of the constant n. */
  function Compared(dep: Dep): Expr { if dep.NoDep? then Not(N) else TransCompareNo(dep.e, true) }

  predicate DepTested(env: Env, d: Dep) { d.Dep? ==> Tested(env, d.e) }

  /** A dependency as the nesting test compares it: tested against n, transformed, duplicates removed. */
  method TestDep(dep: Dep) returns (e: Expr)
    requires DepNoOrderOther(dep)
    ensures forall env: Env :: WfEnv(env) ==> Val(env, e) == Truth(DepTested(env, dep))
    ensures Settled(e)
    ensures Settled(Transform(Compared(dep))) ==> e == Transform(Compared(dep))
  {
    var t := Compared(dep);
    var w := new Rewriter(Transform(t));
    w.EliminateDups();
    e := w.tree;
    forall env: Env | WfEnv(env) ensures Val(env, e) == Truth(DepTested(env, dep)) {
      if dep.Dep? {
        TransCompareKeepsOrder(dep.e, true);
        TransCompareTested(env, dep.e, true);
      }
      NoOrderNoNegated(t);
      TransformValue(env, t);
    }
  }

  lemma {:induction false} TransCompareKeepsOrder(e: Expr, ne: bool)
    requires NoOrderOther(e)
    ensures NoOrderOther(TransCompareNo(e, ne))
  {
    match e
    case Symbol(s) =>
    case Cmp(_, _, _) =>
    case Not(x) => TransCompareKeepsOrder(x, !ne);
    case Bin(_, l, r) =>
      TransCompareKeepsOrder(l, false);
      TransCompareKeepsOrder(r, false);
  }

  /** On the normal form, an entry whose negated symbols tell can be seen only if it is tested as such, and
      a parent whose plain symbols tell can be seen if it is. */
  lemma TestsToVisible(env: Env, dep: Dep, basedep: Dep)
    requires WfEnv(env) && DepNnf(dep) && DepNnf(basedep) && (DepTested(env, dep) ==> DepTested(env, basedep))
    requires (dep.Dep? ==> NegatedTell(env, dep.e)) && (basedep.Dep? ==> PlainTell(env, basedep.e))
    requires DepVal(env, dep) != No
    ensures DepVal(env, basedep) != No
  {
    if dep.Dep? { UnderExactly(env, dep.e); }
    if basedep.Dep? { OverExactly(env, basedep.e); }
  }

  /** What nesting is for: an entry that can be seen has a parent that can be seen, where the strings of the
      entry's negated symbols and of the parent's plain symbols tell their values. */
  ghost predicate Implied(dep: Dep, basedep: Dep) {
    forall env: Env ::
      WfEnv(env) && (dep.Dep? ==> NegatedTell(env, dep.e)) && (basedep.Dep? ==> PlainTell(env, basedep.e)) ==>
        (DepVal(env, dep) != No ==> DepVal(env, basedep) != No)
  }

  /** Whether menu_finalize nests the entry with dependency dep under the symbol sym whose prompt has
      basedep: not when sym does not occur, at once when the entry depends on sym, else by the test, of e1
      against e2. */
  method ShouldNest(dep: Dep, basedep: Dep, sym: Sym)
    returns (nest: bool, ghost e1: Expr, ghost e2: Expr)
    requires DepNoOrderOther(dep) && DepNoOrderOther(basedep)
    ensures !DepContains(dep, sym) ==> !nest
    ensures DepContains(dep, sym) && DepDepends(dep, sym) ==> nest
    ensures nest && !DepDepends(dep, sym) ==>
              forall env: Env :: WfEnv(env) ==> (DepTested(env, dep) ==> DepTested(env, basedep))
    ensures nest && !DepDepends(dep, sym) && DepNnf(dep) && DepNnf(basedep) ==> Implied(dep, basedep)
    ensures DepContains(dep, sym) && !DepDepends(dep, sym) ==>
              && (forall env: Env :: WfEnv(env) ==>
                    Val(env, e1) == Truth(DepTested(env, dep)) && Val(env, e2) == Truth(DepTested(env, basedep)))
              && Settled(e1) && Settled(e2)
              && (Settled(Transform(Compared(dep))) ==> e1 == Transform(Compared(dep)))
              && (Settled(Transform(Compared(basedep))) ==> e2 == Transform(Compared(basedep)))
              && nest == IsYes(ElimEq(e1, e2).1)
  {
    e1, e2 := Y, Y;
    if !DepContains(dep, sym) { return false, e1, e2; }
    if DepDepends(dep, sym) { return true, e1, e2; }
    var t1 := TestDep(dep);
    var t2 := TestDep(basedep);
    e1, e2 := t1, t2;
    nest := IsYes(ElimEq(t1, t2).1);
    if nest {
      ElimEqImplication(e1, e2);
      forall env: Env | WfEnv(env) ensures DepTested(env, dep) ==> DepTested(env, basedep) {
        assert Leq(Val(env, e1), Val(env, e2));
      }
      if DepNnf(dep) && DepNnf(basedep) {
        forall env: Env
          | WfEnv(env) && (dep.Dep? ==> NegatedTell(env, dep.e)) && (basedep.Dep? ==> PlainTell(env, basedep.e))
          ensures DepVal(env, dep) != No ==> DepVal(env, basedep) != No
        {
          if DepVal(env, dep) != No { TestsToVisible(env, dep, basedep); }
        }
      }
    }
  }

  // ----- where the test goes wrong -----

  /** The shape of both inputs below: (s != n || t != n) && z against z. */
  lemma CommonOperand(s: Sym, t: Sym, z: Expr)
    requires s != t && z.Cmp? && z.a != s && z.a != t && (z.op == EQ || z.op == NE)
    ensures var e := Bin(AND, Bin(OR, Cmp(NE, s, SymNo), Cmp(NE, t, SymNo)), z);
            Settled(e) && Settled(z) && IsYes(ElimEq(e, z).1)
  {
    var x, y := Cmp(NE, s, SymNo), Cmp(NE, t, SymNo);
    var o := Bin(OR, x, y);
    assert !Eq(x, y) && !Eq(y, x) && !Eq(o, z) && !Eq(z, o);
    assert Join(OR, x, y) == None && Join(OR, y, x) == None;
    PairSettled(OR, x, y);
    assert Join(AND, o, z) == None && Join(AND, z, o) == None;
    PairSettled(AND, o, z);
    assert ElimEqRec(AND, o, z) == (o, z);
    assert ElimEqRec(AND, z, z) == (Y, Y);
    assert ElimEqRec(AND, Bin(AND, o, z), z) == (Bin(AND, o, Y), Y);
  }

  /** (s || t) && r as the nesting test compares it, when r is compared as z. */
  lemma ComparedDep(s: Sym, t: Sym, r: Expr, z: Expr)
    requires s.Type() == Tristate && t.Type() == Tristate
    requires z.Cmp? && z.a.Type() != Boolean && Transform(TransCompareNo(r, false)) == Cmp(Negate(z.op), z.a, z.b)
    ensures Transform(TransCompareNo(Bin(AND, Bin(OR, Symbol(s), Symbol(t)), r), true))
            == Bin(AND, Bin(OR, Cmp(NE, s, SymNo), Cmp(NE, t, SymNo)), z)
  {
    var x, y := Cmp(EQ, s, SymNo), Cmp(EQ, t, SymNo);
    var p, q := Bin(AND, x, y), TransCompareNo(r, false);
    assert TransCompareNo(Symbol(s), false) == x && TransCompareNo(Symbol(t), false) == y;
    assert TransCompareNo(Bin(OR, Symbol(s), Symbol(t)), false) == p;
    assert TransCompareNo(Bin(AND, Bin(OR, Symbol(s), Symbol(t)), r), true) == Not(Bin(OR, p, q));
    hide TransCompareNo;
    var q' := Cmp(Negate(z.op), z.a, z.b);
    NegatedPair(s, t);
    assert Transform(Bin(OR, p, q)) == Bin(OR, p, q');
    assert Transform(q') == q' && Transform(Not(q')) == z;
    assert Transform(PushNot(OR, p, q')) == Bin(AND, Transform(Not(p)), Transform(Not(q')));
  }

  /** s = n && t = n is left alone, and its negation becomes s != n || t != n. */
  lemma NegatedPair(s: Sym, t: Sym)
    requires s.Type() == Tristate && t.Type() == Tristate
    ensures var p := Bin(AND, Cmp(EQ, s, SymNo), Cmp(EQ, t, SymNo));
            Transform(p) == p && Transform(Not(p)) == Bin(OR, Cmp(NE, s, SymNo), Cmp(NE, t, SymNo))
  {
    var x, y := Cmp(EQ, s, SymNo), Cmp(EQ, t, SymNo);
    assert Transform(x) == x && Transform(y) == y;
    assert Transform(Not(x)) == Cmp(NE, s, SymNo) && Transform(Not(y)) == Cmp(NE, t, SymNo);
    assert Transform(PushNot(AND, x, y)) == Bin(OR, Transform(Not(x)), Transform(Not(y)));
  }

  /** With s = y and a = m the entry `(s || t) && !a` can be seen, the prompt of s, `a = n`, cannot, and the
      entry is nested: the entry contains s without depending on it, and the test says yes. */
  lemma NestingMisjudged(env: Env, s: Sym, t: Sym, a: Sym)
    requires WfEnv(env) && s.Type() == Tristate && t.Type() == Tristate && a.Type() == Tristate
    requires s != t && a != s && a != t && env.tri(s) == Yes && env.tri(a) == Mod
    ensures var dep, base := Bin(AND, Bin(OR, Symbol(s), Symbol(t)), Not(Symbol(a))), Cmp(EQ, a, SymNo);
            var e1, e2 := Transform(Compared(Dep(dep))), Transform(Compared(Dep(base)));
            && Nnf(dep) && Nnf(base) && Contains(dep, s) && !Depends(dep, s)
            && Settled(e1) && Settled(e2) && IsYes(ElimEq(e1, e2).1)
            && Val(env, dep) == Mod && Val(env, base) == No
  {
    var z := Cmp(EQ, a, SymNo);
    assert TransCompareNo(Not(Symbol(a)), false) == TransCompareNo(Symbol(a), true) == Cmp(NE, a, SymNo);
    ComparedDep(s, t, Not(Symbol(a)), z);
    CommonOperand(s, t, z);
    SymbolTest(env, a);
    assert Val(env, Symbol(a)) == Mod && Val(env, Bin(OR, Symbol(s), Symbol(t))) == Yes;
  }

  /** Without a negation: the string symbol u has the value n, but u != n reads yes. The entry
      `(s || t) && u != n` can be seen, the prompt of s, `u`, cannot, and the entry is nested. */
  lemma NestingMisjudgedString(env: Env, s: Sym, t: Sym, u: Sym)
    requires WfEnv(env) && s.Type() == Tristate && t.Type() == Tristate && u.Type() == String
    requires s != t && env.tri(s) == Yes && env.str(u) != "n"
    ensures var dep, base := Bin(AND, Bin(OR, Symbol(s), Symbol(t)), Cmp(NE, u, SymNo)), Symbol(u);
            var e1, e2 := Transform(Compared(Dep(dep))), Transform(Compared(Dep(base)));
            && Nnf(dep) && Nnf(base) && Contains(dep, s) && !Depends(dep, s)
            && Settled(e1) && Settled(e2) && IsYes(ElimEq(e1, e2).1)
            && Val(env, dep) == Yes && Val(env, base) == No
  {
    var z := Cmp(NE, u, SymNo);
    assert Transform(TransCompareNo(z, false)) == Transform(Not(z)) == Cmp(EQ, u, SymNo);
    ComparedDep(s, t, z, z);
    CommonOperand(s, t, z);
    SymbolTest(env, u);
    assert Val(env, Bin(OR, Symbol(s), Symbol(t))) == Yes;
  }
}
