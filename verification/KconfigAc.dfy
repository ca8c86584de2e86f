/** What expr_eq and expr_eliminate_eq find (scripts/kconfig/expr.c, lines 141 to 244): equality up to the order and
    grouping of operands, wherever no constant y or n is an operand. */
module KconfigAc {
  import opened KconfigExpr
  import opened KconfigEq

  predicate IsYn(e: Expr) { e == Y || e == N }

  /** No connective has y or n as an operand. */
  predicate ConstFree(e: Expr) {
    match e
    case Symbol(_) => true
    case Cmp(_, _, _) => true
    case Not(x) => ConstFree(x)
    case Bin(_, l, r) => !IsYn(l) && !IsYn(r) && ConstFree(l) && ConstFree(r)
  }

  /** An expression without the order and grouping of the operands of its lists. */
  datatype Flat = FSym(s: Sym) | FCmp(op: Rel, a: Sym, b: Sym) | FNot(x: Flat) | FList(c: Conn, ops: multiset<Flat>)

  function Flatten(e: Expr): Flat
    decreases e, 1
  {
    match e
    case Symbol(s) => FSym(s)
    case Cmp(op, a, b) => FCmp(op, a, b)
    case Not(x) => FNot(Flatten(x))
    case Bin(c, _, _) => FList(c, Operands(c, e))
  }

  function Operands(c: Conn, e: Expr): multiset<Flat>
    decreases e, if e.IsBin(c) then 0 else 2
  {
    if e.IsBin(c) then Operands(c, e.l) + Operands(c, e.r) else multiset{Flatten(e)}
  }

  /** The operands that are not blanked out. */
  function Rest(c: Conn, e: Expr): multiset<Flat> {
    if e.IsBin(c) then Rest(c, e.l) + Rest(c, e.r) else if e == Unit(c) then multiset{} else multiset{Flatten(e)}
  }

  /** A list of which some operands are blanked out and no other is y or n. */
  predicate Blanked(c: Conn, e: Expr) {
    if e.IsBin(c) then Blanked(c, e.l) && Blanked(c, e.r) else e == Unit(c) || (ConstFree(e) && !IsYn(e))
  }

  lemma {:induction false} FreeBlanked(c: Conn, e: Expr)
    requires ConstFree(e) && !IsYn(e)
    ensures Blanked(c, e) && Rest(c, e) == Operands(c, e)
  {
    if e.IsBin(c) {
      FreeBlanked(c, e.l);
      FreeBlanked(c, e.r);
    }
  }

  lemma {:induction false} FreeElimYn(e: Expr)
    requires ConstFree(e)
    ensures ElimYn(e) == e
  {
    if e.Bin? {
      FreeElimYn(e.l);
      FreeElimYn(e.r);
    }
  }

  lemma {:induction false} OperandsSome(c: Conn, e: Expr)
    ensures |Operands(c, e)| > 0
  {
    if e.IsBin(c) { OperandsSome(c, e.l); }
  }

  /** What is taken out of both sides one after the other. */
  lemma Minus(l: multiset<Flat>, r: multiset<Flat>, e: multiset<Flat>)
    ensures (l - e) + (r - (e - l)) == (l + r) - e
    ensures (e - l) - r == e - (l + r)
  {
  }

  /** Removing the constants of such a list removes the blanks. */
  lemma {:induction false} ElimYnRest(c: Conn, t: Expr)
    requires Blanked(c, t)
    ensures var r := ElimYn(t);
            && Rest(c, r) == Rest(c, t) && Blanked(c, r) && r != Zero(c)
            && (r == Unit(c) <==> Rest(c, t) == multiset{})
            && (r != Unit(c) ==> ConstFree(r))
  {
    if t.IsBin(c) {
      ElimYnRest(c, t.l);
      ElimYnRest(c, t.r);
    } else {
      FreeElimYn(t);
    }
  }

  /** The two ways __expr_eliminate_eq goes down, and what it does to a pair of operands. */
  lemma RecFirst(c: Conn, e1: Expr, e2: Expr)
    requires e1.IsBin(c)
    ensures var p := ElimEqRec(c, e1.l, e2); var q := ElimEqRec(c, e1.r, p.1);
            ElimEqRec(c, e1, e2) == (Bin(c, p.0, q.0), q.1) && Size(e1.r) + Size(p.1) < Size(e1) + Size(e2)
  {
  }

  lemma RecSecond(c: Conn, e1: Expr, e2: Expr)
    requires !e1.IsBin(c) && e2.IsBin(c)
    ensures var p := ElimEqRec(c, e1, e2.l); var q := ElimEqRec(c, p.0, e2.r);
            ElimEqRec(c, e1, e2) == (q.0, Bin(c, p.1, q.1)) && Size(p.0) + Size(e2.r) < Size(e1) + Size(e2)
  {
  }

  lemma RecPair(c: Conn, e1: Expr, e2: Expr)
    requires !e1.IsBin(c) && !e2.IsBin(c)
    ensures ElimEqRec(c, e1, e2) == if IsYn(e1) || IsYn(e2) || !Eq(e1, e2) then (e1, e2) else (Unit(c), Unit(c))
  {
  }

  /** p is what is left of e1 and e2 when their common operands are taken out of both. */
  ghost predicate TakenOut(c: Conn, e1: Expr, e2: Expr, p: (Expr, Expr)) {
    && Blanked(c, p.0) && Blanked(c, p.1)
    && Rest(c, p.0) == Rest(c, e1) - Rest(c, e2) && Rest(c, p.1) == Rest(c, e2) - Rest(c, e1)
  }

  lemma BinRest(c: Conn, l: Expr, r: Expr)
    ensures Rest(c, Bin(c, l, r)) == Rest(c, l) + Rest(c, r)
    ensures Blanked(c, Bin(c, l, r)) <==> Blanked(c, l) && Blanked(c, r)
  {
  }

  lemma TakenFirst(c: Conn, l: Expr, r: Expr, e2: Expr, p: (Expr, Expr), q: (Expr, Expr))
    requires TakenOut(c, l, e2, p) && TakenOut(c, r, p.1, q)
    ensures TakenOut(c, Bin(c, l, r), e2, (Bin(c, p.0, q.0), q.1))
  {
    BinRest(c, l, r);
    BinRest(c, p.0, q.0);
    hide Rest, Blanked;
    Minus(Rest(c, l), Rest(c, r), Rest(c, e2));
  }

  lemma TakenSecond(c: Conn, e1: Expr, l: Expr, r: Expr, p: (Expr, Expr), q: (Expr, Expr))
    requires TakenOut(c, e1, l, p) && TakenOut(c, p.0, r, q)
    ensures TakenOut(c, e1, Bin(c, l, r), (q.0, Bin(c, p.1, q.1)))
  {
    BinRest(c, l, r);
    BinRest(c, p.1, q.1);
    hide Rest, Blanked;
    Minus(Rest(c, l), Rest(c, r), Rest(c, e1));
  }

  lemma TakenPair(c: Conn, e1: Expr, e2: Expr)
    requires Blanked(c, e1) && Blanked(c, e2) && !e1.IsBin(c) && !e2.IsBin(c)
    requires !IsYn(e1) && !IsYn(e2) ==> (Eq(e1, e2) <==> Flatten(e1) == Flatten(e2))
    ensures TakenOut(c, e1, e2, ElimEqRec(c, e1, e2))
  {
    RecPair(c, e1, e2);
    hide ElimEqRec, Eq, Flatten, ConstFree;
  }

  /** __expr_eliminate_eq takes the common operands out of both lists, each as often as it is common. */
  lemma {:induction false} ElimEqRecRest(c: Conn, e1: Expr, e2: Expr)
    requires Blanked(c, e1) && Blanked(c, e2)
    ensures TakenOut(c, e1, e2, ElimEqRec(c, e1, e2))
    decreases Size(e1) + Size(e2), if e1.IsBin(c) || e2.IsBin(c) then 0 else 3
  {
    if e1.IsBin(c) {
      RecFirst(c, e1, e2);
      hide ElimEqRec, Eq, Rest;
      var p := ElimEqRec(c, e1.l, e2);
      ElimEqRecRest(c, e1.l, e2);
      ElimEqRecRest(c, e1.r, p.1);
      TakenFirst(c, e1.l, e1.r, e2, p, ElimEqRec(c, e1.r, p.1));
    } else if e2.IsBin(c) {
      RecSecond(c, e1, e2);
      hide ElimEqRec, Eq, Rest;
      var p := ElimEqRec(c, e1, e2.l);
      ElimEqRecRest(c, e1, e2.l);
      ElimEqRecRest(c, p.0, e2.r);
      TakenSecond(c, e1, e2.l, e2.r, p, ElimEqRec(c, p.0, e2.r));
    } else {
      if !IsYn(e1) && !IsYn(e2) { EqExactly(e1, e2); }
      TakenPair(c, e1, e2);
    }
  }

  /** expr_eq of two lists of one connective asks for the two sides that expr_eliminate_eq leaves. */
  lemma EqLists(c: Conn, e1: Expr, e2: Expr)
    requires e1.IsBin(c) && e2.IsBin(c)
    ensures var p := ElimEqRec(c, e1, e2); var r1, r2 := ElimYn(p.0), ElimYn(p.1);
            ElimEq(e1, e2) == (r1, r2) && (Eq(e1, e2) <==> r1.Symbol? && r1 == r2)
  {
    hide ElimEqRec;
    var p := ElimEqRec(c, e1, e2);
    assert FirstPass(e1, e2) == p && SecondPass(p.0, p.1) == p;
  }

  /** Two lists are equal exactly when nothing is left of either. */
  lemma ListsExactly(c: Conn, e1: Expr, e2: Expr)
    requires ConstFree(e1) && ConstFree(e2) && e1.IsBin(c) && e2.IsBin(c)
    requires TakenOut(c, e1, e2, ElimEqRec(c, e1, e2))
    ensures Eq(e1, e2) <==> Operands(c, e1) == Operands(c, e2)
  {
    FreeBlanked(c, e1);
    FreeBlanked(c, e2);
    EqLists(c, e1, e2);
    hide ElimEqRec, Eq, Flatten, ConstFree, Operands, Blanked, ElimEq, ElimYn;
    var p := ElimEqRec(c, e1, e2);
    ElimYnRest(c, p.0);
    ElimYnRest(c, p.1);
    var r1, r2 := ElimYn(p.0), ElimYn(p.1);
    assert r1 == r2 ==> Rest(c, e1) - Rest(c, e2) == Rest(c, e2) - Rest(c, e1);
    Differences(Rest(c, e1), Rest(c, e2));
  }

  lemma Differences(a: multiset<Flat>, b: multiset<Flat>)
    ensures a - b == b - a <==> a == b
    ensures a - b == multiset{} && b - a == multiset{} <==> a == b
  {
    if a - b == b - a {
      forall x ensures a[x] == b[x] { assert (a - b)[x] == (b - a)[x]; }
    }
    if a - b == multiset{} && b - a == multiset{} {
      forall x ensures a[x] == b[x] { assert (a - b)[x] == 0 == (b - a)[x]; }
    }
  }

  /** expr_eq answers yes exactly when the two are the same up to order and grouping. */
  lemma {:induction false} EqExactly(e1: Expr, e2: Expr)
    requires ConstFree(e1) && ConstFree(e2)
    ensures Eq(e1, e2) <==> Flatten(e1) == Flatten(e2)
    decreases Size(e1) + Size(e2), 2
  {
    if e1.Bin? && e2.Bin? {
      if e1.c == e2.c {
        FreeBlanked(e1.c, e1);
        FreeBlanked(e1.c, e2);
        ElimEqRecRest(e1.c, e1, e2);
        ListsExactly(e1.c, e1, e2);
      }
    } else if e1.Not? && e2.Not? {
      EqExactly(e1.e, e2.e);
    }
  }

  // ----- expr_eliminate_eq -----

  /** A list of connective c, or a single operand of one. */
  predicate Listed(c: Conn, e: Expr) { ConstFree(e) && !IsYn(e) && (e.Bin? ==> e.c == c) }

  /** Between two lists of one connective, or a list and a single operand: each side is left with the operands that the
      other does not have, and is the unit if there are none. */
  lemma ElimEqExactly(c: Conn, e1: Expr, e2: Expr)
    requires Listed(c, e1) && Listed(c, e2) && (e1.Bin? || e2.Bin?)
    ensures var p := ElimEq(e1, e2);
            && Rest(c, p.0) == Operands(c, e1) - Operands(c, e2) && Rest(c, p.1) == Operands(c, e2) - Operands(c, e1)
            && (p.0 == Unit(c) <==> Operands(c, e1) <= Operands(c, e2)) && p.0 != Zero(c)
            && (p.1 == Unit(c) <==> Operands(c, e2) <= Operands(c, e1)) && p.1 != Zero(c)
  {
    FreeBlanked(c, e1);
    FreeBlanked(c, e2);
    ElimEqRecRest(c, e1, e2);
    OnePass(c, e1, e2);
    hide ElimEqRec, Eq, Flatten, ConstFree, Operands, Blanked, ElimEq, ElimYn, Rest;
    var p := ElimEqRec(c, e1, e2);
    ElimYnRest(c, p.0);
    ElimYnRest(c, p.1);
    NoneLeft(Operands(c, e1), Operands(c, e2));
    NoneLeft(Operands(c, e2), Operands(c, e1));
  }

  /** One of the two passes runs. */
  lemma OnePass(c: Conn, e1: Expr, e2: Expr)
    requires Listed(c, e1) && Listed(c, e2) && (e1.Bin? || e2.Bin?)
    ensures var p := ElimEqRec(c, e1, e2); ElimEq(e1, e2) == (ElimYn(p.0), ElimYn(p.1))
  {
    if !e1.Bin? { SingleStays(c, e2, e1); } else if !e2.Bin? { SingleStays(c, e1, e2); }
    hide ElimEqRec, Eq, ElimYn;
  }

  lemma NoneLeft(a: multiset<Flat>, b: multiset<Flat>)
    ensures a - b == multiset{} <==> a <= b
  {
    if a - b == multiset{} {
      forall x ensures a[x] <= b[x] { assert (a - b)[x] == 0; }
    }
  }

  /** A single operand stays as it is or is blanked out. */
  lemma {:induction false} SingleStays(c: Conn, e: Expr, x: Expr)
    requires !x.IsBin(c)
    ensures ElimEqRec(c, e, x).1 in {x, Unit(c)}
    ensures ElimEqRec(c, x, e).0 in {x, Unit(c)}
    decreases Size(e)
  {
    if e.IsBin(c) {
      RecFirst(c, e, x);
      RecSecond(c, x, e);
      hide ElimEqRec, Eq;
      SingleStays(c, e.l, x);
      SingleStays(c, e.r, x);
      SingleStays(c, e.r, Unit(c));
    } else {
      RecPair(c, e, x);
      RecPair(c, x, e);
    }
  }

  /** Where there is nothing in common nothing changes. */
  lemma {:induction false} NothingTaken(c: Conn, e1: Expr, e2: Expr)
    requires Blanked(c, e1) && Blanked(c, e2) && Rest(c, e1) !! Rest(c, e2)
    ensures ElimEqRec(c, e1, e2) == (e1, e2)
    decreases Size(e1) + Size(e2)
  {
    if e1.IsBin(c) {
      RecFirst(c, e1, e2);
      hide ElimEqRec, Eq;
      NothingTaken(c, e1.l, e2);
      NothingTaken(c, e1.r, e2);
    } else if e2.IsBin(c) {
      RecSecond(c, e1, e2);
      hide ElimEqRec, Eq;
      NothingTaken(c, e1, e2.l);
      NothingTaken(c, e1, e2.r);
    } else {
      RecPair(c, e1, e2);
      if !IsYn(e1) && !IsYn(e2) { EqExactly(e1, e2); }
    }
  }

  /** Between lists of different connectives: either side may be an operand of the other as a whole. */
  lemma ElimEqMixed(e1: Expr, e2: Expr)
    requires ConstFree(e1) && ConstFree(e2) && e1.Bin? && e2.Bin? && e1.c != e2.c
    ensures var p := ElimEq(e1, e2); var c, d := e1.c, e2.c;
            if Flatten(e2) in Operands(c, e1) then p.1 == Unit(c) && Rest(c, p.0) == Operands(c, e1) - multiset{Flatten(e2)}
            else if Flatten(e1) in Operands(d, e2) then p.0 == Unit(d) && Rest(d, p.1) == Operands(d, e2) - multiset{Flatten(e1)}
            else p == (e1, e2)
  {
    var c, d := e1.c, e2.c;
    FreeBlanked(c, e1);
    FreeBlanked(c, e2);
    FreeBlanked(d, e1);
    FreeBlanked(d, e2);
    if Flatten(e2) in Operands(c, e1) {
      MixedFirst(e1, e2);
    } else {
      NothingTaken(c, e1, e2);
      if Flatten(e1) in Operands(d, e2) { MixedSecond(e1, e2); } else { MixedNone(e1, e2); }
    }
  }

  lemma MixedFirst(e1: Expr, e2: Expr)
    requires ConstFree(e1) && ConstFree(e2) && e1.Bin? && e2.Bin? && e1.c != e2.c
    requires Rest(e1.c, e1) == Operands(e1.c, e1) && Blanked(e1.c, e1) && Blanked(e1.c, e2)
    requires Flatten(e2) in Operands(e1.c, e1)
    ensures var p := ElimEq(e1, e2); var c := e1.c;
            p.1 == Unit(c) && Rest(c, p.0) == Operands(c, e1) - multiset{Flatten(e2)}
  {
    var c := e1.c;
    SingleStays(c, e1, e2);
    ElimEqRecRest(c, e1, e2);
    var p := ElimEqRec(c, e1, e2);
    assert Rest(c, e2) == multiset{Flatten(e2)};
    hide ElimEqRec, Eq, Flatten, ConstFree, Operands;
    assert Rest(c, p.1) == multiset{} != Rest(c, e2);
    assert ElimEq(e1, e2) == (ElimYn(p.0), ElimYn(p.1));
    hide ElimEq, Rest, Blanked;
    ElimYnRest(c, p.0);
  }

  lemma MixedSecond(e1: Expr, e2: Expr)
    requires ConstFree(e1) && ConstFree(e2) && e1.Bin? && e2.Bin? && e1.c != e2.c
    requires Rest(e2.c, e2) == Operands(e2.c, e2) && Blanked(e2.c, e1) && Blanked(e2.c, e2)
    requires ElimEqRec(e1.c, e1, e2) == (e1, e2) && Flatten(e1) in Operands(e2.c, e2)
    ensures var p := ElimEq(e1, e2); var d := e2.c;
            p.0 == Unit(d) && Rest(d, p.1) == Operands(d, e2) - multiset{Flatten(e1)}
  {
    var d := e2.c;
    SingleStays(d, e2, e1);
    ElimEqRecRest(d, e1, e2);
    var q := ElimEqRec(d, e1, e2);
    assert Rest(d, e1) == multiset{Flatten(e1)};
    hide ElimEqRec, Eq, Flatten, ConstFree, Operands;
    assert Rest(d, q.0) == multiset{} != Rest(d, e1);
    assert ElimEq(e1, e2) == (ElimYn(q.0), ElimYn(q.1));
    hide ElimEq, Rest, Blanked;
    ElimYnRest(d, q.1);
  }

  lemma MixedNone(e1: Expr, e2: Expr)
    requires ConstFree(e1) && ConstFree(e2) && e1.Bin? && e2.Bin? && e1.c != e2.c
    requires Rest(e2.c, e2) == Operands(e2.c, e2) && Blanked(e2.c, e1) && Blanked(e2.c, e2)
    requires ElimEqRec(e1.c, e1, e2) == (e1, e2) && Flatten(e1) !in Operands(e2.c, e2)
    ensures ElimEq(e1, e2) == (e1, e2)
  {
    FreeElimYn(e1);
    FreeElimYn(e2);
    NothingTaken(e2.c, e1, e2);
    hide ElimEqRec, Eq, Flatten, ConstFree, Operands, Rest, Blanked;
  }

  /** The nesting test of menu_finalize says yes exactly when every operand of the parent's condition is, up to order and
      grouping, one of the entry's. */
  lemma SubsetTest(e1: Expr, e2: Expr)
    requires Listed(AND, e1) && Listed(AND, e2) && (e1.Bin? || e2.Bin?)
    ensures IsYes(ElimEq(e1, e2).1) <==> Operands(AND, e2) <= Operands(AND, e1)
  {
    ElimEqExactly(AND, e1, e2);
  }

  // ----- all expressions -----

  /** An operand list is compared with a second one operand by operand, whichever of the two is followed first. */
  lemma {:induction false} RecSplit(c: Conn, e1: Expr, e2: Expr)
    requires e2.IsBin(c)
    ensures var p := ElimEqRec(c, e1, e2.l); var q := ElimEqRec(c, p.0, e2.r);
            ElimEqRec(c, e1, e2) == (q.0, Bin(c, p.1, q.1))
    decreases e1
  {
    if e1.IsBin(c) {
      RecFirst(c, e1, e2);
      RecFirst(c, e1, e2.l);
      hide ElimEqRec, Eq;
      var p0 := ElimEqRec(c, e1.l, e2.l);
      var q0 := ElimEqRec(c, p0.0, e2.r);
      RecSplit(c, e1.l, e2);
      RecSplit(c, e1.r, Bin(c, p0.1, q0.1));
      var p1 := ElimEqRec(c, e1.r, p0.1);
      RecFirst(c, Bin(c, p0.0, p1.0), e2.r);
    } else {
      RecSecond(c, e1, e2);
    }
  }

  /** The order of the two arguments does not matter. */
  lemma {:induction false} RecSwap(c: Conn, e1: Expr, e2: Expr)
    ensures var p, q := ElimEqRec(c, e1, e2), ElimEqRec(c, e2, e1); p == (q.1, q.0)
    decreases Size(e1) + Size(e2), if e1.IsBin(c) || e2.IsBin(c) then 0 else 3
  {
    if e1.IsBin(c) {
      RecFirst(c, e1, e2);
      RecSplit(c, e2, e1);
      hide ElimEqRec, Eq;
      RecSwap(c, e1.l, e2);
      RecSwap(c, e1.r, ElimEqRec(c, e1.l, e2).1);
    } else if e2.IsBin(c) {
      RecSecond(c, e1, e2);
      RecFirst(c, e2, e1);
      hide ElimEqRec, Eq;
      RecSwap(c, e1, e2.l);
      RecSwap(c, ElimEqRec(c, e1, e2.l).0, e2.r);
    } else {
      RecPair(c, e1, e2);
      RecPair(c, e2, e1);
      EqSymmetric(e1, e2);
    }
  }

  lemma {:induction false} EqSymmetric(e1: Expr, e2: Expr)
    ensures Eq(e1, e2) <==> Eq(e2, e1)
    decreases Size(e1) + Size(e2), 2
  {
    if e1.Bin? && e2.Bin? {
      if e1.c == e2.c {
        EqLists(e1.c, e1, e2);
        EqLists(e1.c, e2, e1);
        RecSwap(e1.c, e1, e2);
      }
    } else if e1.Not? && e2.Not? {
      EqSymmetric(e1.e, e2.e);
    }
  }

  /** A list of constants. */
  predicate AllYn(c: Conn, e: Expr) { if e.IsBin(c) then AllYn(c, e.l) && AllYn(c, e.r) else IsYn(e) }

  predicate HasZero(c: Conn, e: Expr) { if e.IsBin(c) then HasZero(c, e.l) || HasZero(c, e.r) else e == Zero(c) }

  /** A list with every operand but the constants blanked out. */
  function Blank(c: Conn, e: Expr): (b: Expr)
    ensures AllYn(c, b) && (HasZero(c, b) <==> HasZero(c, e))
  {
    if e.IsBin(c) then Bin(c, Blank(c, e.l), Blank(c, e.r)) else if IsYn(e) then e else Unit(c)
  }

  lemma {:induction false} ElimYnAll(c: Conn, e: Expr)
    requires AllYn(c, e)
    ensures ElimYn(e) == if HasZero(c, e) then Zero(c) else Unit(c)
  {
    if e.IsBin(c) {
      ElimYnAll(c, e.l);
      ElimYnAll(c, e.r);
    }
  }

  lemma {:induction false} BlankAlone(c: Conn, b: Expr, e: Expr)
    requires AllYn(c, b)
    ensures ElimEqRec(c, b, e) == (b, e) && ElimEqRec(c, e, b) == (e, b)
    decreases Size(b) + Size(e)
  {
    RecSwap(c, b, e);
    if b.IsBin(c) {
      RecFirst(c, b, e);
      hide ElimEqRec, Eq;
      BlankAlone(c, b.l, e);
      BlankAlone(c, b.r, e);
    } else if e.IsBin(c) {
      RecSecond(c, b, e);
      hide ElimEqRec, Eq;
      BlankAlone(c, b, e.l);
      BlankAlone(c, b, e.r);
    } else {
      RecPair(c, b, e);
    }
  }

  /** Two lists that are alike operand by operand, up to how often a constant is repeated. */
  predicate Alike(c: Conn, e: Expr, f: Expr) {
    if AllYn(c, e) && AllYn(c, f) then HasZero(c, e) == HasZero(c, f)
    else if e.IsBin(c) then f.IsBin(c) && Alike(c, e.l, f.l) && Alike(c, e.r, f.r)
    else !f.IsBin(c) && !IsYn(e) && !IsYn(f) && Eq(e, f)
  }

  lemma {:induction false} BlankAll(c: Conn, e: Expr)
    requires AllYn(c, e)
    ensures Blank(c, e) == e
  {
    if e.IsBin(c) {
      BlankAll(c, e.l);
      BlankAll(c, e.r);
    }
  }

  lemma {:induction false} AlikeBlanked(c: Conn, e: Expr, f: Expr)
    requires Alike(c, e, f)
    ensures ElimEqRec(c, e, f) == (Blank(c, e), Blank(c, f)) && (HasZero(c, e) <==> HasZero(c, f))
    decreases e
  {
    if AllYn(c, e) && AllYn(c, f) {
      BlankAlone(c, e, f);
      BlankAll(c, e);
      BlankAll(c, f);
    } else if e.IsBin(c) {
      AlikeBlanked(c, e.l, f.l);
      AlikeBlanked(c, e.r, f.r);
      RecFirst(c, e, f);
      RecSplit(c, e.l, f);
      hide ElimEqRec, Eq;
      BlankAlone(c, Blank(c, e.l), f.r);
      BlankAlone(c, Blank(c, f.l), e.r);
      RecSplit(c, e.r, Bin(c, Blank(c, f.l), f.r));
    } else {
      RecPair(c, e, f);
    }
  }

  lemma AlikeEq(c: Conn, e: Expr, f: Expr)
    requires e.IsBin(c) && f.IsBin(c) && Alike(c, e, f)
    ensures Eq(e, f) && ElimEq(e, f).0 == ElimEq(e, f).1 == (if HasZero(c, e) then Zero(c) else Unit(c))
  {
    AlikeBlanked(c, e, f);
    EqLists(c, e, f);
    ElimYnAll(c, Blank(c, e));
    ElimYnAll(c, Blank(c, f));
  }

  lemma {:induction false} AlikeSelf(c: Conn, e: Expr)
    ensures Alike(c, e, e)
    decreases e, if e.IsBin(c) then 0 else 2
  {
    if e.IsBin(c) {
      AlikeSelf(c, e.l);
      AlikeSelf(c, e.r);
    } else {
      EqReflexive(e);
    }
  }

  lemma {:induction false} EqReflexive(e: Expr)
    ensures Eq(e, e)
    decreases e, 1
  {
    match e
    case Bin(c, _, _) =>
      AlikeSelf(c, e);
      AlikeEq(c, e, e);
    case Not(x) => EqReflexive(x);
    case _ =>
  }

  /** expr_eliminate_eq of an expression with itself leaves the same on both sides: one constant if it is a list, else
      the expression, which neither pass looks at. */
  lemma ElimEqSelf(e: Expr)
    ensures var p := ElimEq(e, e);
            p.0 == p.1 == if !e.Bin? then e else if HasZero(e.c, e) then Zero(e.c) else Unit(e.c)
  {
    if e.Bin? {
      AlikeSelf(e.c, e);
      AlikeEq(e.c, e, e);
    }
  }

  // ----- constants among the operands -----

  /** An expression with one of its constant operands written twice. */
  function Doubled(e: Expr): (f: Expr)
    requires !ConstFree(e)
    ensures !ConstFree(f) && (e.Bin? <==> f.Bin?) && (e.Bin? ==> f.c == e.c)
  {
    match e
    case Not(x) => Not(Doubled(x))
    case Bin(c, l, r) =>
      if IsYn(l) then Bin(c, Bin(c, l, l), r)
      else if IsYn(r) then Bin(c, l, Bin(c, r, r))
      else if !ConstFree(l) then Bin(c, Doubled(l), r)
      else Bin(c, l, Doubled(r))
  }

  lemma {:induction false} DoubledAlike(c: Conn, e: Expr)
    requires !ConstFree(e)
    ensures Alike(c, e, Doubled(e))
    decreases e, if e.IsBin(c) then 0 else 2
  {
    if e.IsBin(c) {
      if AllYn(c, e) {
        DoubledYn(c, e);
      } else {
        AlikeSelf(c, e.l);
        AlikeSelf(c, e.r);
        if !IsYn(e.l) && !IsYn(e.r) { if !ConstFree(e.l) { DoubledAlike(c, e.l); } else { DoubledAlike(c, e.r); } }
      }
    } else {
      DoubledEq(e);
    }
  }

  lemma {:induction false} DoubledYn(c: Conn, e: Expr)
    requires AllYn(c, e) && !ConstFree(e)
    ensures AllYn(c, Doubled(e)) && (HasZero(c, Doubled(e)) <==> HasZero(c, e))
  {
    if !IsYn(e.l) && !IsYn(e.r) { if !ConstFree(e.l) { DoubledYn(c, e.l); } else { DoubledYn(c, e.r); } }
  }

  lemma {:induction false} DoubledEq(e: Expr)
    requires !ConstFree(e)
    ensures Eq(e, Doubled(e))
    decreases e, 1
  {
    match e
    case Not(x) => DoubledEq(x);
    case Bin(c, _, _) =>
      DoubledAlike(c, e);
      AlikeEq(c, e, Doubled(e));
  }

  lemma {:induction false} DoubledDiffers(e: Expr)
    requires !ConstFree(e)
    ensures Flatten(Doubled(e)) != Flatten(e)
  {
    match e
    case Not(x) => DoubledDiffers(x);
    case Bin(c, l, r) =>
      var f := Doubled(e);
      if IsYn(l) || IsYn(r) {
        assert |Operands(c, f)| == |Operands(c, e)| + 1;
      } else {
        var x, x' := if !ConstFree(l) then l else r, if !ConstFree(l) then f.l else f.r;
        DoubledDiffers(x);
        assert Operands(c, x') != Operands(c, x);
        Cancel(Operands(c, x), Operands(c, x'), Operands(c, if !ConstFree(l) then r else l));
      }
  }

  lemma Cancel(a: multiset<Flat>, b: multiset<Flat>, x: multiset<Flat>)
    requires a != b
    ensures a + x != b + x && x + a != x + b
  {
    assert (a + x) - x == a && (b + x) - x == b && (x + a) - x == a && (x + b) - x == b;
  }

  /** Exactly where expr_eq is that equality: among expressions without constant operands it always is; an expression
      that has one is also found equal to another that is not the same up to order and grouping. */
  lemma EqExactlyWhere(e: Expr)
    ensures ConstFree(e) <==> forall f: Expr | ConstFree(f) == ConstFree(e) :: Eq(e, f) <==> Flatten(e) == Flatten(f)
  {
    if ConstFree(e) {
      forall f: Expr | ConstFree(f) ensures Eq(e, f) <==> Flatten(e) == Flatten(f) { EqExactly(e, f); }
    } else {
      DoubledEq(e);
      DoubledDiffers(e);
      assert ConstFree(Doubled(e)) == ConstFree(e);
    }
  }

  /** Two lists of two operands. */
  lemma RecPairs(c: Conn, a: Expr, b: Expr, x: Expr, y: Expr)
    requires !a.IsBin(c) && !b.IsBin(c) && !x.IsBin(c) && !y.IsBin(c)
    ensures var p := ElimEqRec(c, a, x); var q := ElimEqRec(c, p.0, y);
            var p' := ElimEqRec(c, b, p.1); var q' := ElimEqRec(c, p'.0, q.1);
            ElimEqRec(c, Bin(c, a, b), Bin(c, x, y)) == (Bin(c, q.0, q'.0), Bin(c, p'.1, q'.1))
  {
    SingleStays(c, a, x);
    SingleStays(c, x, a);
    SingleStays(c, b, x);
    var e1, e2 := Bin(c, a, b), Bin(c, x, y);
    RecFirst(c, e1, e2);
    RecSecond(c, a, e2);
    var p := ElimEqRec(c, a, x);
    var q := ElimEqRec(c, p.0, y);
    RecSecond(c, b, Bin(c, p.1, q.1));
  }

  /** Two lists of two operands with one pair in common, and with none. */
  lemma OneInCommon(c: Conn, a: Expr, x: Expr, b: Expr)
    requires !a.IsBin(c) && !x.IsBin(c) && !b.IsBin(c) && !IsYn(a) && !IsYn(x) && !IsYn(b)
    requires !Eq(a, x) && !Eq(a, b) && !Eq(b, x) && ElimYn(a) == ElimYn(x) && ElimYn(a).Symbol?
    ensures Eq(Bin(c, a, b), Bin(c, x, b)) && Eq(Bin(c, b, a), Bin(c, b, x))
  {
    EqReflexive(b);
    EqSymmetric(a, b);
    RecPair(c, a, x);
    RecPair(c, b, b);
    hide Eq, ElimEqRec;
    CommonLast(c, a, x, b);
    CommonFirst(c, a, x, b);
  }

  lemma ElimYnUnit(c: Conn, a: Expr)
    ensures ElimYn(Bin(c, a, Unit(c))) == ElimYn(a) == ElimYn(Bin(c, Unit(c), a))
  {
  }

  lemma CommonLast(c: Conn, a: Expr, x: Expr, b: Expr)
    requires !a.IsBin(c) && !x.IsBin(c) && !b.IsBin(c) && !Eq(a, b) && !Eq(b, x) && ElimYn(a) == ElimYn(x) && ElimYn(a).Symbol?
    requires ElimEqRec(c, a, x) == (a, x) && ElimEqRec(c, b, b) == (Unit(c), Unit(c))
    ensures Eq(Bin(c, a, b), Bin(c, x, b))
  {
    RecPair(c, a, b);
    RecPair(c, b, x);
    ElimYnUnit(c, a);
    ElimYnUnit(c, x);
    hide ElimEqRec, Eq, ElimEq, ElimYn;
    RecPairs(c, a, b, x, b);
    assert ElimEqRec(c, Bin(c, a, b), Bin(c, x, b)) == (Bin(c, a, Unit(c)), Bin(c, x, Unit(c)));
    EqLists(c, Bin(c, a, b), Bin(c, x, b));
  }

  lemma CommonFirst(c: Conn, a: Expr, x: Expr, b: Expr)
    requires !a.IsBin(c) && !x.IsBin(c) && !b.IsBin(c) && ElimYn(a) == ElimYn(x) && ElimYn(a).Symbol?
    requires ElimEqRec(c, a, x) == (a, x) && ElimEqRec(c, b, b) == (Unit(c), Unit(c))
    ensures Eq(Bin(c, b, a), Bin(c, b, x))
  {
    ElimYnUnit(c, a);
    ElimYnUnit(c, x);
    hide ElimEqRec, Eq, ElimEq, ElimYn;
    BlankAlone(c, Unit(c), a);
    BlankAlone(c, Unit(c), x);
    RecPairs(c, b, a, b, x);
    EqLists(c, Bin(c, b, a), Bin(c, b, x));
  }

  lemma NoneInCommon(c: Conn, a: Expr, b: Expr, x: Expr, y: Expr)
    requires !a.IsBin(c) && !b.IsBin(c) && !x.IsBin(c) && !y.IsBin(c)
    requires !Eq(a, x) && !Eq(a, y) && !Eq(b, x) && !Eq(b, y)
    ensures Eq(Bin(c, a, b), Bin(c, x, y)) <==>
            ElimYn(Bin(c, a, b)).Symbol? && ElimYn(Bin(c, a, b)) == ElimYn(Bin(c, x, y))
  {
    RecPair(c, a, x);
    RecPair(c, a, y);
    RecPair(c, b, x);
    RecPair(c, b, y);
    RecPairs(c, a, b, x, y);
    EqLists(c, Bin(c, a, b), Bin(c, x, y));
  }

  /** (x || n) && z, x && z and x && (z || n). */
  lemma NotTransitive(x: Sym, z: Sym)
    requires x != z && x !in {SymYes, SymNo} && z !in {SymYes, SymNo}
    ensures var p, q, r := Bin(AND, Bin(OR, Symbol(x), N), Symbol(z)), Bin(AND, Symbol(x), Symbol(z)),
                           Bin(AND, Symbol(x), Bin(OR, Symbol(z), N));
            Eq(p, q) && Eq(q, r) && !Eq(p, r) && ElimYn(p) == q == ElimYn(r)
  {
    var a, b := Symbol(x), Symbol(z);
    var a', b' := Bin(OR, a, N), Bin(OR, b, N);
    assert ElimYn(a') == a && ElimYn(b') == b;
    assert !Eq(a, b) && !Eq(b, a) && !Eq(a', a) && !Eq(a', b) && !Eq(a, b') && !Eq(b, b');
    OneInCommon(AND, a', a, b);
    OneInCommon(AND, b, b', a);
    UnequalSides(a, b);
    NoneInCommon(AND, a', b, a, b');
  }

  lemma UnequalSides(a: Expr, b: Expr)
    requires a.Symbol? && b.Symbol? && a != b && !IsYn(a) && !IsYn(b)
    ensures !Eq(Bin(OR, a, N), Bin(OR, b, N))
  {
    RecPair(OR, a, b);
    RecPair(OR, a, N);
    RecPair(OR, N, b);
    RecPair(OR, N, N);
    RecPairs(OR, a, N, b, N);
    EqLists(OR, Bin(OR, a, N), Bin(OR, b, N));
  }

  /** Three operands of which the second equals its neighbours, and the same in another order. */
  lemma GreedyPairs(p: Expr, q: Expr, r: Expr)
    requires p.IsBin(AND) && q.IsBin(AND) && r.IsBin(AND) && Eq(p, q) && Eq(q, r) && !Eq(p, r)
    ensures ElimEqRec(OR, Bin(OR, p, Bin(OR, q, r)), Bin(OR, q, Bin(OR, r, p)))
            == (Bin(OR, N, Bin(OR, N, r)), Bin(OR, N, Bin(OR, N, p)))
  {
    var e, f := Bin(OR, p, Bin(OR, q, r)), Bin(OR, q, Bin(OR, r, p));
    EqSymmetric(p, r);
    RecPair(OR, p, q);
    RecPair(OR, q, r);
    RecPair(OR, r, p);
    hide ElimEqRec, Eq;
    BlankAlone(OR, N, Bin(OR, r, p));
    BlankAlone(OR, N, p);
    BlankAlone(OR, N, q);
    BlankAlone(OR, N, r);
    RecFirst(OR, e, f);
    RecSecond(OR, p, f);
    var f1 := Bin(OR, N, Bin(OR, r, p));
    RecFirst(OR, Bin(OR, q, r), f1);
    RecSecond(OR, q, f1);
    RecSecond(OR, q, Bin(OR, r, p));
    var f2 := Bin(OR, N, Bin(OR, N, p));
    RecSecond(OR, r, f2);
    RecSecond(OR, r, Bin(OR, N, p));
  }

  lemma GreedyMisses(p: Expr, q: Expr, r: Expr)
    requires p.IsBin(AND) && q.IsBin(AND) && r.IsBin(AND) && Eq(p, q) && Eq(q, r) && !Eq(p, r)
    requires ElimYn(p).Bin? && ElimYn(r).Bin?
    ensures var e, f := Bin(OR, p, Bin(OR, q, r)), Bin(OR, q, Bin(OR, r, p));
            Operands(OR, e) == Operands(OR, f) && !Eq(e, f)
  {
    var e, f := Bin(OR, p, Bin(OR, q, r)), Bin(OR, q, Bin(OR, r, p));
    GreedyPairs(p, q, r);
    EqLists(OR, e, f);
    hide ElimEqRec, Eq, Flatten;
    assert ElimYn(Bin(OR, N, Bin(OR, N, r))) == ElimYn(r);
  }

  /** With constants expr_eq is not transitive, and a list need not be found equal to itself in another order. */
  lemma OrderMatters(x: Sym, z: Sym)
    requires x != z && x !in {SymYes, SymNo} && z !in {SymYes, SymNo}
    ensures var p, q, r := Bin(AND, Bin(OR, Symbol(x), N), Symbol(z)), Bin(AND, Symbol(x), Symbol(z)),
                           Bin(AND, Symbol(x), Bin(OR, Symbol(z), N));
            var e, f := Bin(OR, p, Bin(OR, q, r)), Bin(OR, q, Bin(OR, r, p));
            Eq(p, q) && Eq(q, r) && !Eq(p, r) && Operands(OR, e) == Operands(OR, f) && !Eq(e, f)
  {
    NotTransitive(x, z);
    GreedyMisses(Bin(AND, Bin(OR, Symbol(x), N), Symbol(z)), Bin(AND, Symbol(x), Symbol(z)),
                 Bin(AND, Symbol(x), Bin(OR, Symbol(z), N)));
  }
}
