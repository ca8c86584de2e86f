/** Joining pairs of operands and the in-place duplicate elimination
    (scripts/kconfig/expr.c: expr_join_or, expr_join_and, expr_eliminate_dups1, expr_eliminate_dups). */
module KconfigDups {
  import opened KconfigExpr
  import opened KconfigEq

  datatype Joined = None | Some(e: Expr)

  /** Operands a join looks into: E_EQUAL, E_UNEQUAL, E_SYMBOL and E_NOT. */
  predicate JoinableType(e: Expr) {
    e.Symbol? || e.Not? || (e.Cmp? && (e.op == EQ || e.op == NE))
  }

  datatype Subject = NoSubject | Subject(s: Sym)

  /** sym1 of a join: the symbol a first operand is about. */
  function FirstSubject(e: Expr): Subject {
    match e
    case Symbol(s) => Subject(s)
    case Cmp(_, a, _) => Subject(a)
    case Not(x) =>
      if x.Symbol? then Subject(x.s)
      else if x.Cmp? && (x.op == EQ || x.op == NE) then Subject(x.a)
      else NoSubject
    case Bin(_, _, _) => NoSubject
  }

  /** sym2 of a join: a negated second operand must be a plain symbol. */
  function SecondSubject(e: Expr): Subject {
    match e
    case Symbol(s) => Subject(s)
    case Cmp(_, a, _) => Subject(a)
    case Not(x) => if x.Symbol? then Subject(x.s) else NoSubject
    case Bin(_, _, _) => NoSubject
  }

  predicate IsTest(e: Expr, op: Rel, b: Sym) { e.Cmp? && e.op == op && e.b == b }

  /** e1 and e2 are op-tests against x and y, in either order. */
  predicate TestPair(e1: Expr, e2: Expr, op: Rel, x: Sym, y: Sym) {
    (IsTest(e1, op, x) && IsTest(e2, op, y)) || (IsTest(e1, op, y) && IsTest(e2, op, x))
  }

  /** One operand is the bare symbol and the other an op-test against x. */
  predicate SymbolAndTest(e1: Expr, e2: Expr, op: Rel, x: Sym) {
    (e1.Symbol? && IsTest(e2, op, x)) || (e2.Symbol? && IsTest(e1, op, x))
  }

  predicate SymbolAndNegation(e1: Expr, e2: Expr) {
    (e1.Not? && e1.e.Symbol? && e2.Symbol?) || (e2.Not? && e2.e.Symbol? && e1.Symbol?)
  }

  /** The common part of both joins: a boolean or tristate symbol both operands are about. */
  predicate SameSubject(e1: Expr, e2: Expr) {
    && JoinableType(e1) && JoinableType(e2)
    && FirstSubject(e1).Subject? && FirstSubject(e1) == SecondSubject(e2)
    && FirstSubject(e1).s.Type() in {Boolean, Tristate}
  }

  /** expr_join_or */
  function JoinOr(e1: Expr, e2: Expr): Joined {
    if Eq(e1, e2) then Some(e1)
    else if !SameSubject(e1, e2) then None
    else
      var s := FirstSubject(e1).s;
      if s.Type() == Tristate && TestPair(e1, e2, EQ, SymYes, SymMod) then Some(Cmp(NE, s, SymNo))
      else if s.Type() == Tristate && TestPair(e1, e2, EQ, SymYes, SymNo) then Some(Cmp(NE, s, SymMod))
      else if s.Type() == Tristate && TestPair(e1, e2, EQ, SymMod, SymNo) then Some(Cmp(NE, s, SymYes))
      else if s.Type() == Boolean && SymbolAndNegation(e1, e2) then Some(Y)
      else None
  }

  /** expr_join_and once the operands are known to be about one symbol. */
  function JoinAndTests(s: Sym, e1: Expr, e2: Expr): Joined {
    if SymbolAndTest(e1, e2, EQ, SymYes) then Some(Cmp(EQ, s, SymYes))
    else if SymbolAndTest(e1, e2, NE, SymNo) then Some(Symbol(s))
    else if SymbolAndTest(e1, e2, NE, SymMod) then Some(Cmp(EQ, s, SymYes))
    else if s.Type() != Tristate || !e1.Cmp? || !e2.Cmp? then None
    else JoinAndPair(s, e1.op, e1.b, e2.op, e2.b)
  }

  /** Two tests of one tristate symbol. */
  function JoinAndPair(s: Sym, op1: Rel, b1: Sym, op2: Rel, b2: Sym): Joined {
    if op1 == EQ && op2 == NE && b1.Const? && b2.Const? then
      Some(if b1 != b2 then Cmp(EQ, s, b1) else N)
    else if op1 == NE && op2 == EQ && b1.Const? && b2.Const? then
      Some(if b2 != b1 then Cmp(EQ, s, b2) else N)
    else if op1 != NE || op2 != NE then None
    else if (b1 == SymYes && b2 == SymNo) || (b1 == SymNo && b2 == SymYes) then Some(Cmp(EQ, s, SymMod))
    else if (b1 == SymYes && b2 == SymMod) || (b1 == SymMod && b2 == SymYes) then Some(Cmp(EQ, s, SymNo))
    else if (b1 == SymMod && b2 == SymNo) || (b1 == SymNo && b2 == SymMod) then Some(Cmp(EQ, s, SymYes))
    else None
  }

  /** expr_join_and */
  function JoinAnd(e1: Expr, e2: Expr): Joined {
    if Eq(e1, e2) then Some(e1)
    else if !SameSubject(e1, e2) then None
    else
      JoinAndTests(FirstSubject(e1).s, e1, e2)
  }

  function Join(c: Conn, e1: Expr, e2: Expr): Joined {
    if c == AND then JoinAnd(e1, e2) else JoinOr(e1, e2)
  }

  /** The pairs of operands about one symbol that a join puts together, in one of the two orders. */
  predicate Rule(c: Conn, s: Sym, a: Expr, b: Expr) {
    if c == OR then
      || (s.Type() == Tristate && TestOf(EQ, s, a) && TestOf(EQ, s, b) && a.b != b.b && IsValue(a.b) && IsValue(b.b))
      || (s.Type() == Boolean && a == Symbol(s) && b == Not(Symbol(s)))
    else
      || (s.Type() in {Boolean, Tristate} && a == Symbol(s) && b in {Cmp(EQ, s, SymYes), Cmp(NE, s, SymNo), Cmp(NE, s, SymMod)})
      || (s.Type() == Tristate && TestOf(EQ, s, a) && TestOf(NE, s, b) && a.b.Const? && b.b.Const?)
      || (s.Type() == Tristate && TestOf(NE, s, a) && TestOf(NE, s, b) && a.b != b.b && IsValue(a.b) && IsValue(b.b))
  }

  predicate TestOf(op: Rel, s: Sym, e: Expr) { e.Cmp? && e.op == op && e.a == s }
  predicate IsValue(b: Sym) { b in {SymYes, SymMod, SymNo} }

  ghost predicate Joinable(c: Conn, a: Expr, b: Expr) { Eq(a, b) || exists s: Sym :: Rule(c, s, a, b) || Rule(c, s, b, a) }

  /** The joins put together exactly the equal operands and those pairs, in either order. */
  lemma JoinExactly(c: Conn, a: Expr, b: Expr)
    ensures Join(c, a, b).Some? <==> Joinable(c, a, b)
  {
    hide Eq;
    if Join(c, a, b).Some? && !Eq(a, b) {
      var s := FirstSubject(a).s;
      assert Rule(c, s, a, b) || Rule(c, s, b, a);
    }
    if s: Sym :| Rule(c, s, a, b) || Rule(c, s, b, a) {
      assert FirstSubject(a) == SecondSubject(b) == Subject(s);
      assert SameSubject(a, b);
    }
  }

  /** A test of a boolean or tristate symbol compares strings, which spell out its value. */
  lemma TestValue(env: Env, s: Sym, op: Rel, b: Sym)
    requires WfEnv(env) && s.Type() in {Boolean, Tristate} && (op == EQ || op == NE)
    ensures RelVal(env, op, s, b) == Truth((SymStr(env, s) == SymStr(env, b)) == (op == EQ))
    ensures SymStr(env, s) == (match SymTri(env, s) case No => "n" case Mod => "m" case Yes => "y")
    ensures s.Type() == Boolean ==> SymTri(env, s) != Mod
  {
    assert Compare(env, s, b) == Ordered(StrCmp(SymStr(env, s), SymStr(env, b)));
  }

  lemma LettersDiffer()
    ensures "n" != "m" && "n" != "y" && "m" != "y"
  {
    assert "n"[0] != "m"[0] && "n"[0] != "y"[0] && "m"[0] != "y"[0];
  }

  /** The tests inside the two operands, evaluated. */
  lemma OperandValues(env: Env, e1: Expr, e2: Expr)
    requires WfEnv(env) && SameSubject(e1, e2)
    ensures var s := FirstSubject(e1).s;
            && (e1.Cmp? ==> Val(env, e1) == Truth((SymStr(env, s) == SymStr(env, e1.b)) == (e1.op == EQ)))
            && (e2.Cmp? ==> Val(env, e2) == Truth((SymStr(env, s) == SymStr(env, e2.b)) == (e2.op == EQ)))
            && (e1.Symbol? ==> Val(env, e1) == SymTri(env, s))
            && (e2.Symbol? ==> Val(env, e2) == SymTri(env, s))
  {
    if e1.Cmp? { TestValue(env, e1.a, e1.op, e1.b); }
    if e2.Cmp? { TestValue(env, e2.a, e2.op, e2.b); }
  }

  lemma JoinOrValue(env: Env, e1: Expr, e2: Expr)
    requires WfEnv(env) && JoinOr(e1, e2).Some?
    ensures Val(env, JoinOr(e1, e2).e) == TriMax(Val(env, e1), Val(env, e2))
  {
    if Eq(e1, e2) {
      EqSound(env, e1, e2);
    } else {
      var s := FirstSubject(e1).s;
      OperandValues(env, e1, e2);
      TestValue(env, s, NE, SymNo);
      TestValue(env, s, NE, SymMod);
      TestValue(env, s, NE, SymYes);
      LettersDiffer();
    }
  }

  lemma JoinAndPairValue(env: Env, s: Sym, op1: Rel, b1: Sym, op2: Rel, b2: Sym)
    requires WfEnv(env) && s.Type() == Tristate && op1 in {EQ, NE} && op2 in {EQ, NE}
    requires JoinAndPair(s, op1, b1, op2, b2).Some?
    ensures Val(env, JoinAndPair(s, op1, b1, op2, b2).e) == TriMin(RelVal(env, op1, s, b1), RelVal(env, op2, s, b2))
  {
    TestValue(env, s, op1, b1);
    TestValue(env, s, op2, b2);
    var j := JoinAndPair(s, op1, b1, op2, b2).e;
    if j.Cmp? { TestValue(env, s, j.op, j.b); }
    LettersDiffer();
  }

  lemma JoinAndValue(env: Env, e1: Expr, e2: Expr)
    requires WfEnv(env) && JoinAnd(e1, e2).Some?
    ensures Val(env, JoinAnd(e1, e2).e) == TriMin(Val(env, e1), Val(env, e2))
  {
    if Eq(e1, e2) {
      EqSound(env, e1, e2);
    } else if e1.Cmp? && e2.Cmp? {
      JoinAndPairValue(env, e1.a, e1.op, e1.b, e2.op, e2.b);
    } else {
      var s := FirstSubject(e1).s;
      OperandValues(env, e1, e2);
      TestValue(env, s, EQ, SymYes);
      LettersDiffer();
    }
  }

  /** A join means the same as the connective it replaces, is no larger than its operands
      allow and never opens a new operand list. */
  lemma JoinSound(c: Conn, e1: Expr, e2: Expr)
    requires Join(c, e1, e2).Some?
    ensures var j := Join(c, e1, e2).e;
            && (forall env: Env :: WfEnv(env) ==> Val(env, j) == Op(c, Val(env, e1), Val(env, e2)))
            && 1 + Size(j) <= Size(e1) + Size(e2)
            && (!e1.IsBin(c) ==> !j.IsBin(c))
            && (Nnf(e1) ==> Nnf(j))
  {
    var j := Join(c, e1, e2).e;
    forall env: Env | WfEnv(env) ensures Val(env, j) == Op(c, Val(env, e1), Val(env, e2)) {
      if c == AND { JoinAndValue(env, e1, e2); } else { JoinOrValue(env, e1, e2); }
    }
  }

  // ----- slots: two pointers into one tree -----

  /** A way down through connectives; false is left, true is right. */
  type Path = seq<bool>

  /** The shape of the operand list of connective c: its inner nodes. */
  datatype Shape = Leaf | Fork(l: Shape, r: Shape)

  function Skel(c: Conn, e: Expr): Shape {
    if e.IsBin(c) then Fork(Skel(c, e.l), Skel(c, e.r)) else Leaf
  }

  predicate InShape(s: Shape, p: Path) {
    p == [] || (s.Fork? && InShape(if p[0] then s.r else s.l, p[1..]))
  }

  function Sub(s: Shape, p: Path): Shape
    requires InShape(s, p)
  {
    if p == [] then s else Sub(if p[0] then s.r else s.l, p[1..])
  }

  function Forks(s: Shape): nat {
    if s.Leaf? then 0 else 1 + Forks(s.l) + Forks(s.r)
  }

  lemma {:induction false} SubStep(s: Shape, p: Path)
    requires InShape(s, p) && Sub(s, p).Fork?
    ensures forall b: bool :: InShape(s, p + [b]) && Sub(s, p + [b]) == (if b then Sub(s, p).r else Sub(s, p).l)
  {
    forall b: bool ensures InShape(s, p + [b]) && Sub(s, p + [b]) == (if b then Sub(s, p).r else Sub(s, p).l) {
      if p == [] {
        assert (p + [b])[1..] == [];
      } else {
        SubStep(if p[0] then s.r else s.l, p[1..]);
        assert (p + [b])[1..] == p[1..] + [b];
      }
    }
  }

  predicate ValidPath(e: Expr, p: Path) {
    p == [] || (e.Bin? && ValidPath(if p[0] then e.r else e.l, p[1..]))
  }

  function At(e: Expr, p: Path): Expr
    requires ValidPath(e, p)
  {
    if p == [] then e else At(if p[0] then e.r else e.l, p[1..])
  }

  function Put(e: Expr, p: Path, x: Expr): Expr
    requires ValidPath(e, p)
  {
    if p == [] then x
    else if p[0] then Bin(e.c, e.l, Put(e.r, p[1..], x))
    else Bin(e.c, Put(e.l, p[1..], x), e.r)
  }

  /** Reading back a written slot, and the bookkeeping sizes. */
  lemma {:induction false} PutAt(e: Expr, p: Path, x: Expr)
    requires ValidPath(e, p)
    ensures ValidPath(Put(e, p, x), p) && At(Put(e, p, x), p) == x
    ensures Size(Put(e, p, x)) == Size(e) - Size(At(e, p)) + Size(x)
    ensures p != [] ==> Size(At(e, p)) < Size(e)
    ensures Put(e, p, At(e, p)) == e
    ensures HasConst(x) || (p != [] && (x == Y || x == N)) ==> HasConst(Put(e, p, x))
    ensures Nnf(e) ==> Nnf(At(e, p))
    ensures Nnf(e) && Nnf(x) ==> Nnf(Put(e, p, x))
  {
    if p != [] { PutAt(if p[0] then e.r else e.l, p[1..], x); }
  }

  lemma {:induction false} PutPut(e: Expr, p: Path, x: Expr, y: Expr)
    requires ValidPath(e, p)
    ensures ValidPath(Put(e, p, x), p) && Put(Put(e, p, x), p, y) == Put(e, p, y)
  {
    if p != [] { PutPut(if p[0] then e.r else e.l, p[1..], x, y); }
  }

  /** A slot below a slot. */
  lemma {:induction false} Nested(e: Expr, p: Path, q: Path, x: Expr)
    requires ValidPath(e, p) && ValidPath(At(e, p), q)
    ensures ValidPath(e, p + q) && At(e, p + q) == At(At(e, p), q)
    ensures Put(e, p + q, x) == Put(e, p, Put(At(e, p), q, x))
  {
    if p == [] {
      assert p + q == q;
    } else {
      Nested(if p[0] then e.r else e.l, p[1..], q, x);
      assert (p + q)[1..] == p[1..] + q;
    }
  }

  lemma {:induction false} ShapePath(c: Conn, e: Expr, q: Path)
    requires InShape(Skel(c, e), q)
    ensures ValidPath(e, q) && Skel(c, At(e, q)) == Sub(Skel(c, e), q)
  {
    if q != [] { ShapePath(c, if q[0] then e.r else e.l, q[1..]); }
  }

  /** Writing an operand keeps the operand list's shape. */
  lemma {:induction false} PutKeepsShape(c: Conn, e: Expr, q: Path, x: Expr)
    requires InShape(Skel(c, e), q) && Sub(Skel(c, e), q).Leaf? && !x.IsBin(c)
    ensures ValidPath(e, q) && Skel(c, Put(e, q, x)) == Skel(c, e)
  {
    if q != [] { PutKeepsShape(c, if q[0] then e.r else e.l, q[1..], x); }
  }

  /** Writing one operand leaves the others alone. */
  lemma {:induction false} PutElsewhere(c: Conn, e: Expr, q: Path, q': Path, x: Expr)
    requires InShape(Skel(c, e), q) && Sub(Skel(c, e), q).Leaf?
    requires InShape(Skel(c, e), q') && Sub(Skel(c, e), q').Leaf? && q != q'
    ensures ValidPath(e, q) && ValidPath(e, q')
    ensures ValidPath(Put(e, q, x), q') && At(Put(e, q, x), q') == At(e, q')
  {
    ShapePath(c, e, q);
    ShapePath(c, e, q');
    if q[0] == q'[0] {
      assert q[1..] != q'[1..] by { assert q == [q[0]] + q[1..] && q' == [q'[0]] + q'[1..]; }
      PutElsewhere(c, if q[0] then e.r else e.l, q[1..], q'[1..], x);
    }
  }

  /** An operand's value can be split off from the rest of its list. */
  lemma {:induction false} OperandSplits(env: Env, c: Conn, e: Expr, q: Path, x: Expr)
    requires InShape(Skel(c, e), q)
    ensures ValidPath(e, q)
    ensures Val(env, Put(e, q, x)) == Op(c, Val(env, Put(e, q, Unit(c))), Val(env, x))
  {
    if q != [] {
      OperandSplits(env, c, if q[0] then e.r else e.l, q[1..], x);
      var rest := Val(env, if q[0] then e.l else e.r);
      var hole := Val(env, Put(if q[0] then e.r else e.l, q[1..], Unit(c)));
      OpLaws(c, rest, hole, Val(env, x));
      OpLaws(c, hole, Val(env, x), rest);
      OpLaws(c, hole, rest, Val(env, x));
    }
  }

  /** The write of expr_eliminate_dups1: one operand is blanked out, the other takes the join. */
  lemma JoinWrite(env: Env, c: Conn, e: Expr, q1: Path, q2: Path, j: Expr)
    requires InShape(Skel(c, e), q1) && Sub(Skel(c, e), q1).Leaf?
    requires InShape(Skel(c, e), q2) && Sub(Skel(c, e), q2).Leaf? && q1 != q2
    requires ValidPath(e, q1) && ValidPath(e, q2)
    requires Val(env, j) == Op(c, Val(env, At(e, q1)), Val(env, At(e, q2)))
    ensures ValidPath(Put(e, q1, Unit(c)), q2)
    ensures Val(env, Put(Put(e, q1, Unit(c)), q2, j)) == Val(env, e)
  {
    var u := Unit(c);
    var a, b := At(e, q1), At(e, q2);
    var e1 := Put(e, q1, u);
    PutKeepsShape(c, e, q1, u);
    PutElsewhere(c, e, q1, q2, u);
    OperandSplits(env, c, e1, q2, j);
    OperandSplits(env, c, e1, q2, b);
    PutAt(e1, q2, b);
    OperandSplits(env, c, e, q1, a);
    PutAt(e, q1, a);
    var h := Val(env, Put(e1, q2, u));
    OpLaws(c, h, Val(env, b), Val(env, a));
    OpLaws(c, Val(env, a), Val(env, b), h);
  }

  /** Rewriting a subtree to one of the same value keeps the whole value. */
  lemma {:induction false} PutSameValue(env: Env, e: Expr, p: Path, x: Expr)
    requires ValidPath(e, p) && Val(env, x) == Val(env, At(e, p))
    ensures Val(env, Put(e, p, x)) == Val(env, e)
  {
    if p != [] { PutSameValue(env, if p[0] then e.r else e.l, p[1..], x); }
  }

  // ----- the rewriter -----

  /** What a pass over the operands of a c-list may do to it. */
  ghost predicate Rewrites(c: Conn, t: Expr, t': Expr) {
    && Skel(c, t') == Skel(c, t)
    && Size(t') <= Size(t)
    && (Nnf(t) ==> Nnf(t'))
    && (forall env: Env :: WfEnv(env) ==> Val(env, t') == Val(env, t))
  }

  /** A nested pass over the operand at q is a pass over the list. */
  lemma NestedRewrite(c: Conn, d: Conn, t: Expr, q: Path, x: Expr)
    requires InShape(Skel(c, t), q) && Sub(Skel(c, t), q).Leaf? && ValidPath(t, q)
    requires At(t, q).IsBin(d) && d != c && Rewrites(d, At(t, q), x)
    ensures Rewrites(c, t, Put(t, q, x))
    ensures ValidPath(Put(t, q, x), q) && At(Put(t, q, x), q) == x && !x.IsBin(c)
    ensures HasConst(x) ==> HasConst(Put(t, q, x))
    ensures x == At(t, q) ==> Put(t, q, x) == t
  {
    PutKeepsShape(c, t, q, x);
    PutAt(t, q, x);
    forall env: Env | WfEnv(env) ensures Val(env, Put(t, q, x)) == Val(env, t) {
      PutSameValue(env, t, q, x);
    }
  }

  /** A join of two different operands is a pass over the list and leaves a constant behind. */
  lemma JoinRewrite(c: Conn, t: Expr, q1: Path, q2: Path, j: Expr)
    requires InShape(Skel(c, t), q1) && Sub(Skel(c, t), q1).Leaf?
    requires InShape(Skel(c, t), q2) && Sub(Skel(c, t), q2).Leaf? && q1 != q2
    requires ValidPath(t, q1) && ValidPath(t, q2)
    requires Join(c, At(t, q1), At(t, q2)) == Some(j)
    ensures ValidPath(Put(t, q1, Unit(c)), q2)
    ensures var t' := Put(Put(t, q1, Unit(c)), q2, j);
            Rewrites(c, t, t') && HasConst(t')
  {
    var u := Unit(c);
    var t1 := Put(t, q1, u);
    ShapePath(c, t, q1);
    JoinSound(c, At(t, q1), At(t, q2));
    PutKeepsShape(c, t, q1, u);
    PutAt(t, q1, u);
    PutElsewhere(c, t, q1, q2, u);
    PutKeepsShape(c, t1, q2, j);
    PutAt(t1, q2, j);
    var t' := Put(t1, q2, j);
    forall env: Env | WfEnv(env) ensures Val(env, t') == Val(env, t) {
      JoinWrite(env, c, t, q1, q2, j);
    }
    PutElsewhere(c, t1, q2, q1, j);
    PutAt(t', q1, u);
  }

  /** No two different operands below q1 and q2 can be joined any more. */
  ghost predicate Exhausted(c: Conn, t: Expr, q1: Path, q2: Path) {
    forall p1: Path, p2: Path ::
      q1 <= p1 && q2 <= p2 && p1 != p2 && IsOperand(c, t, p1) && IsOperand(c, t, p2) ==>
        !Joinable(c, At(t, p1), At(t, p2))
  }

  predicate IsOperand(c: Conn, t: Expr, p: Path)
    ensures IsOperand(c, t, p) ==> ValidPath(t, p)
  {
    InShape(Skel(c, t), p) && Sub(Skel(c, t), p).Leaf? && (ShapePath(c, t, p); true)
  }

  /** Below a leaf of the list there is nothing; below a fork every operand lies left or right. */
  lemma {:induction false} OperandsBelow(s: Shape, q: Path, p: Path)
    requires InShape(s, q) && InShape(s, p) && Sub(s, p).Leaf? && q <= p
    ensures Sub(s, q).Leaf? ==> p == q
    ensures Sub(s, q).Fork? ==> q + [false] <= p || q + [true] <= p
  {
    if q != [] {
      OperandsBelow(if q[0] then s.r else s.l, q[1..], p[1..]);
      assert q == [q[0]] + q[1..] && p == [p[0]] + p[1..];
    }
  }

  lemma ExhaustedFirst(c: Conn, t: Expr, q1: Path, q2: Path)
    requires InShape(Skel(c, t), q1) && Sub(Skel(c, t), q1).Fork?
    requires Exhausted(c, t, q1 + [false], q2) && Exhausted(c, t, q1 + [true], q2)
    ensures Exhausted(c, t, q1, q2)
  {
    forall p1: Path, p2: Path | q1 <= p1 && q2 <= p2 && p1 != p2 && IsOperand(c, t, p1) && IsOperand(c, t, p2)
      ensures !Joinable(c, At(t, p1), At(t, p2))
    {
      OperandsBelow(Skel(c, t), q1, p1);
    }
  }

  lemma ExhaustedSecond(c: Conn, t: Expr, q1: Path, q2: Path)
    requires InShape(Skel(c, t), q2) && Sub(Skel(c, t), q2).Fork?
    requires Exhausted(c, t, q1, q2 + [false]) && Exhausted(c, t, q1, q2 + [true])
    ensures Exhausted(c, t, q1, q2)
  {
    forall p1: Path, p2: Path | q1 <= p1 && q2 <= p2 && p1 != p2 && IsOperand(c, t, p1) && IsOperand(c, t, p2)
      ensures !Joinable(c, At(t, p1), At(t, p2))
    {
      OperandsBelow(Skel(c, t), q2, p2);
    }
  }

  lemma ExhaustedPair(c: Conn, t: Expr, q1: Path, q2: Path)
    requires IsOperand(c, t, q1) && IsOperand(c, t, q2)
    requires q1 == q2 || Join(c, At(t, q1), At(t, q2)) == None
    ensures Exhausted(c, t, q1, q2)
  {
    hide Join, Joinable;
    if q1 != q2 { JoinExactly(c, At(t, q1), At(t, q2)); }
    forall p1: Path, p2: Path | q1 <= p1 && q2 <= p2 && p1 != p2 && IsOperand(c, t, p1) && IsOperand(c, t, p2)
      ensures !Joinable(c, At(t, p1), At(t, p2))
    {
      OperandsBelow(Skel(c, t), q1, p1);
      OperandsBelow(Skel(c, t), q2, p2);
    }
  }

  /** No two different operands of any list in e can be joined. */
  ghost predicate Settled(e: Expr) {
    e.Bin? ==> Exhausted(e.c, e, [], []) && Settled(e.l) && Settled(e.r)
  }

  lemma {:induction false} SettledAt(e: Expr, p: Path)
    requires Settled(e) && ValidPath(e, p)
    ensures Settled(At(e, p))
  {
    if p != [] { SettledAt(if p[0] then e.r else e.l, p[1..]); }
  }

  /** Every operand below q1 that meets a different one below q2 is settled. */
  ghost predicate Swept(c: Conn, t: Expr, q1: Path, q2: Path) {
    forall p1: Path, p2: Path ::
      q1 <= p1 && q2 <= p2 && p1 != p2 && IsOperand(c, t, p1) && IsOperand(c, t, p2) ==> Settled(At(t, p1))
  }

  lemma SweptFirst(c: Conn, t: Expr, q1: Path, q2: Path)
    requires InShape(Skel(c, t), q1) && Sub(Skel(c, t), q1).Fork?
    requires Swept(c, t, q1 + [false], q2) && Swept(c, t, q1 + [true], q2)
    ensures Swept(c, t, q1, q2)
  {
    hide Settled;
    forall p1: Path, p2: Path | q1 <= p1 && q2 <= p2 && p1 != p2 && IsOperand(c, t, p1) && IsOperand(c, t, p2)
      ensures Settled(At(t, p1))
    {
      OperandsBelow(Skel(c, t), q1, p1);
    }
  }

  lemma SweptSecond(c: Conn, t: Expr, q1: Path, q2: Path)
    requires InShape(Skel(c, t), q2) && Sub(Skel(c, t), q2).Fork?
    requires Swept(c, t, q1, q2 + [false]) && Swept(c, t, q1, q2 + [true])
    ensures Swept(c, t, q1, q2)
  {
    hide Settled;
    forall p1: Path, p2: Path | q1 <= p1 && q2 <= p2 && p1 != p2 && IsOperand(c, t, p1) && IsOperand(c, t, p2)
      ensures Settled(At(t, p1))
    {
      OperandsBelow(Skel(c, t), q2, p2);
    }
  }

  lemma SweptPair(c: Conn, t: Expr, q1: Path, q2: Path)
    requires IsOperand(c, t, q1) && IsOperand(c, t, q2) && (q1 == q2 || Settled(At(t, q1)))
    ensures Swept(c, t, q1, q2)
  {
    hide Settled;
    forall p1: Path, p2: Path | q1 <= p1 && q2 <= p2 && p1 != p2 && IsOperand(c, t, p1) && IsOperand(c, t, p2)
      ensures Settled(At(t, p1))
    {
      OperandsBelow(Skel(c, t), q1, p1);
      OperandsBelow(Skel(c, t), q2, p2);
    }
  }

  /** An operand of one half of a list is one of the list. */
  lemma OperandUp(c: Conn, e: Expr, b: bool, p: Path)
    requires e.IsBin(c) && IsOperand(c, if b then e.r else e.l, p)
    ensures IsOperand(c, e, [b] + p) && At(e, [b] + p) == At(if b then e.r else e.l, p)
  {
    assert ([b] + p)[1..] == p;
  }

  lemma {:induction false} SomeOperand(c: Conn, e: Expr) returns (p: Path)
    ensures IsOperand(c, e, p)
  {
    p := [];
    if e.IsBin(c) {
      p := SomeOperand(c, e.l);
      OperandUp(c, e, false, p);
      p := [false] + p;
    }
  }

  lemma ExhaustedHalf(c: Conn, e: Expr, b: bool)
    requires e.IsBin(c) && Exhausted(c, e, [], [])
    ensures Exhausted(c, if b then e.r else e.l, [], [])
  {
    hide Joinable;
    var h := if b then e.r else e.l;
    forall p1: Path, p2: Path | p1 != p2 && IsOperand(c, h, p1) && IsOperand(c, h, p2)
      ensures !Joinable(c, At(h, p1), At(h, p2))
    {
      OperandUp(c, e, b, p1);
      OperandUp(c, e, b, p2);
      assert ([b] + p1)[1..] == p1 && ([b] + p2)[1..] == p2;
    }
  }

  lemma {:induction false} OperandsSettled(c: Conn, e: Expr)
    requires Exhausted(c, e, [], []) && forall p: Path :: IsOperand(c, e, p) ==> Settled(At(e, p))
    ensures Settled(e)
  {
    if e.IsBin(c) {
      ExhaustedHalf(c, e, false);
      ExhaustedHalf(c, e, true);
      forall p: Path | IsOperand(c, e.l, p) ensures Settled(At(e.l, p)) { OperandUp(c, e, false, p); }
      forall p: Path | IsOperand(c, e.r, p) ensures Settled(At(e.r, p)) { OperandUp(c, e, true, p); }
      hide Exhausted, IsOperand;
      OperandsSettled(c, e.l);
      OperandsSettled(c, e.r);
    } else {
      assert IsOperand(c, e, []);
    }
  }

  /** A pass that found nothing over a whole list: its operands, too, are settled, as each of them met another one. */
  lemma ListSettled(c: Conn, e: Expr)
    requires e.IsBin(c) && Exhausted(c, e, [], []) && Swept(c, e, [], [])
    ensures Settled(e)
  {
    forall p: Path | IsOperand(c, e, p) ensures Settled(At(e, p)) {
      var b := !p[0];
      var p' := SomeOperand(c, if b then e.r else e.l);
      OperandUp(c, e, b, p');
      assert p != [b] + p';
    }
    hide Exhausted, IsOperand;
    OperandsSettled(c, e);
  }

  /** A list of two operands. */
  lemma PairSettled(c: Conn, l: Expr, r: Expr)
    requires Settled(l) && Settled(r) && !l.IsBin(c) && !r.IsBin(c)
    requires Join(c, l, r) == None && Join(c, r, l) == None
    ensures Settled(Bin(c, l, r))
  {
    var e := Bin(c, l, r);
    JoinExactly(c, l, r);
    JoinExactly(c, r, l);
    hide Join, Joinable;
    forall p1: Path, p2: Path | p1 != p2 && IsOperand(c, e, p1) && IsOperand(c, e, p2)
      ensures !Joinable(c, At(e, p1), At(e, p2))
    {
      OneOfTwo(c, e, p1);
      OneOfTwo(c, e, p2);
    }
  }

  lemma OneOfTwo(c: Conn, e: Expr, p: Path)
    requires e.IsBin(c) && !e.l.IsBin(c) && !e.r.IsBin(c) && IsOperand(c, e, p)
    ensures (p == [false] && At(e, p) == e.l) || (p == [true] && At(e, p) == e.r)
  {
    var s := Skel(c, e);
    assert Skel(c, e.l) == Shape.Leaf && Skel(c, e.r) == Shape.Leaf;
    assert InShape(if p[0] then s.r else s.l, p[1..]);
    assert p == [p[0]] + p[1..];
  }

  /** tree' is tree with a pass made over the c-list at base and nothing else touched. */
  ghost predicate Passed(c: Conn, base: Path, tree: Expr, tree': Expr) {
    && ValidPath(tree, base) && ValidPath(tree', base)
    && tree' == Put(tree, base, At(tree', base))
    && Rewrites(c, At(tree, base), At(tree', base))
  }

  lemma PassedTwice(c: Conn, base: Path, t1: Expr, t2: Expr, t3: Expr)
    requires Passed(c, base, t1, t2) && Passed(c, base, t2, t3)
    ensures Passed(c, base, t1, t3)
  {
    PutPut(t1, base, At(t2, base), At(t3, base));
  }

  lemma PassedRefl(c: Conn, base: Path, t: Expr)
    requires ValidPath(t, base)
    ensures Passed(c, base, t, t)
  {
    PutAt(t, base, Y);
  }

  /** A nested pass over the operand at base+q is a pass over the list at base. */
  lemma PassedNested(c: Conn, d: Conn, base: Path, q: Path, t: Expr, t': Expr)
    requires ValidPath(t, base) && IsOperand(c, At(t, base), q)
    requires Passed(d, base + q, t, t') && At(t, base + q).IsBin(d) && d != c
    ensures Passed(c, base, t, t')
    ensures HasConst(At(t', base + q)) ==> HasConst(At(t', base))
  {
    var x := At(t', base + q);
    Nested(t, base, q, x);
    PutAt(t, base, Put(At(t, base), q, x));
    NestedRewrite(c, d, At(t, base), q, x);
  }

  /** The two writes of a join are a pass. */
  lemma PassedJoin(c: Conn, base: Path, q1: Path, q2: Path, t: Expr, j: Expr)
    requires ValidPath(t, base) && IsOperand(c, At(t, base), q1) && IsOperand(c, At(t, base), q2) && q1 != q2
    requires Join(c, At(At(t, base), q1), At(At(t, base), q2)) == Some(j)
    ensures ValidPath(t, base + q1) && ValidPath(Put(t, base + q1, Unit(c)), base + q2)
    ensures var t' := Put(Put(t, base + q1, Unit(c)), base + q2, j);
            Passed(c, base, t, t') && HasConst(At(t', base))
  {
    var s := At(t, base);
    var u := Unit(c);
    JoinRewrite(c, s, q1, q2, j);
    Nested(t, base, q1, u);
    PutAt(t, base, Put(s, q1, u));
    var t1 := Put(t, base + q1, u);
    Nested(t1, base, q2, j);
    PutAt(t1, base, Put(At(t1, base), q2, j));
    PutPut(t, base, Put(s, q1, u), Put(At(t1, base), q2, j));
  }

  /** The tree being rewritten and the count of rewrites, trans_count. Slots ep1 and ep2 of the
      source are paths into the one tree, so a write through one is seen through the other. */
  class Rewriter {
    var tree: Expr
    var transCount: nat

    constructor (e: Expr)
      ensures tree == e && transCount == 0
    {
      tree := e;
      transCount := 0;
    }

    /** The end of expr_eliminate_dups1: two different operands are joined if they can be. */
    method JoinPair(c: Conn, base: Path, q1: Path, q2: Path)
      requires ValidPath(tree, base) && IsOperand(c, At(tree, base), q1) && IsOperand(c, At(tree, base), q2) && q1 != q2
      modifies this
      ensures Passed(c, base, old(tree), tree)
      ensures transCount == old(transCount) || (transCount == old(transCount) + 1 && HasConst(At(tree, base)))
      ensures transCount == old(transCount) ==> tree == old(tree) && Exhausted(c, At(tree, base), q1, q2)
      ensures old(Exhausted(c, At(tree, base), [], [])) ==> transCount == old(transCount)
    {
      PassedRefl(c, base, tree);
      Nested(tree, base, q1, Y);
      Nested(tree, base, q2, Y);
      JoinExactly(c, At(tree, base + q1), At(tree, base + q2));
      var j := Join(c, At(tree, base + q1), At(tree, base + q2));
      if j.Some? {
        PassedJoin(c, base, q1, q2, tree, j.e);
        tree := Put(tree, base + q1, Unit(c));
        tree := Put(tree, base + q2, j.e);
        transCount := transCount + 1;
      } else {
        ExhaustedPair(c, At(tree, base), q1, q2);
      }
    }

    /** expr_eliminate_dups1(c, &e1, &e2) with e1 at base+q1 and e2 at base+q2, both in the
        operand list of connective c rooted at base. */
    method EliminateDups1(c: Conn, base: Path, q1: Path, q2: Path)
      requires ValidPath(tree, base) && At(tree, base).IsBin(c)
      requires InShape(Skel(c, At(tree, base)), q1) && InShape(Skel(c, At(tree, base)), q2)
      modifies this
      ensures Passed(c, base, old(tree), tree)
      ensures transCount >= old(transCount)
      ensures transCount > old(transCount) ==> HasConst(At(tree, base))
      ensures transCount == old(transCount) ==>
                tree == old(tree) && Exhausted(c, At(tree, base), q1, q2) && Swept(c, At(tree, base), q1, q2)
      ensures old(Settled(At(tree, base))) ==> transCount == old(transCount)
      decreases Size(At(tree, base)), Forks(Sub(Skel(c, At(tree, base)), q1)) + Forks(Sub(Skel(c, At(tree, base)), q2))
    {
      hide Exhausted, Swept;
      ghost var t := At(tree, base);
      ShapePath(c, t, q1);
      ShapePath(c, t, q2);
      Nested(tree, base, q1, Y);
      Nested(tree, base, q2, Y);
      PassedRefl(c, base, tree);
      if At(tree, base + q1).IsBin(c) {
        SubStep(Skel(c, t), q1);
        EliminateDups1(c, base, q1 + [false], q2);
        ghost var mid := tree;
        EliminateDups1(c, base, q1 + [true], q2);
        PassedTwice(c, base, old(tree), mid, tree);
        if transCount == old(transCount) {
          ExhaustedFirst(c, t, q1, q2);
          SweptFirst(c, t, q1, q2);
        }
        return;
      }
      if At(tree, base + q2).IsBin(c) {
        SubStep(Skel(c, t), q2);
        EliminateDups1(c, base, q1, q2 + [false]);
        ghost var mid := tree;
        EliminateDups1(c, base, q1, q2 + [true]);
        PassedTwice(c, base, old(tree), mid, tree);
        if transCount == old(transCount) {
          ExhaustedSecond(c, t, q1, q2);
          SweptSecond(c, t, q1, q2);
        }
        return;
      }
      if q1 == q2 {
        ExhaustedPair(c, t, q1, q2);
        SweptPair(c, t, q1, q2);
        return;
      }
      var e1 := At(tree, base + q1);
      if e1.Bin? {
        PutAt(t, q1, Y);
        if Settled(t) { SettledAt(t, q1); }
        EliminateDups1(e1.c, base + q1, [], []);
        PassedNested(c, e1.c, base, q1, old(tree), tree);
        if transCount == old(transCount) { ListSettled(e1.c, e1); }
      }
      ghost var now := tree;
      JoinPair(c, base, q1, q2);
      PassedTwice(c, base, old(tree), now, tree);
      if transCount == old(transCount) { SweptPair(c, t, q1, q2); }
    }

    /** expr_eliminate_dups */
    method EliminateDups()
      modifies this
      ensures forall env: Env :: WfEnv(env) ==> Val(env, tree) == Val(env, old(tree))
      ensures Size(tree) <= Size(old(tree))
      ensures old(Nnf(tree)) ==> Nnf(tree)
      ensures transCount == old(transCount)
      ensures Settled(tree)
      ensures old(Settled(tree)) ==> tree == old(tree)
    {
      var oldCount := transCount;
      while true
        invariant forall env: Env :: WfEnv(env) ==> Val(env, tree) == Val(env, old(tree))
        invariant Size(tree) <= Size(old(tree))
        invariant old(Nnf(tree)) ==> Nnf(tree)
        invariant old(Settled(tree)) ==> tree == old(tree)
        decreases Size(tree)
      {
        transCount := 0;
        if tree.Bin? {
          EliminateDups1(tree.c, [], [], []);
        }
        if transCount == 0 {
          if tree.Bin? { ListSettled(tree.c, tree); }
          break;
        }
        forall env: Env ensures Val(env, ElimYn(tree)) == Val(env, tree) {
          ElimYnValue(env, tree);
        }
        tree := ElimYn(tree);
      }
      transCount := oldCount;
    }
  }
}
