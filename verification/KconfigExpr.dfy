/** Dependency expressions of the configuration tool and their three-valued meaning
    (scripts/kconfig/expr.h, scripts/kconfig/expr.c, scripts/kconfig/symbol.c). */
module KconfigExpr {

  /** no < mod < yes. */
  datatype Tri = No | Mod | Yes {
    function Ord(): (r: int)
      ensures 0 <= r <= 2
    {
      match this case No => 0 case Mod => 1 case Yes => 2
    }
  }

  predicate Leq(a: Tri, b: Tri) { a.Ord() <= b.Ord() }

  function TriNot(a: Tri): Tri {
    match a case No => Yes case Mod => Mod case Yes => No
  }

  function TriMin(a: Tri, b: Tri): Tri { if a.Ord() < b.Ord() then a else b }

  function TriMax(a: Tri, b: Tri): Tri { if a.Ord() > b.Ord() then a else b }

  datatype SymType = Unknown | Boolean | Tristate | Int | Hex | String | Other

  /** Constants are interned by sym_lookup, so pointer equality on them is equality of names. */
  datatype Sym = Const(name: string) | Var(id: nat, ty: SymType) {
    function Type(): SymType { if Var? then ty else Unknown }
  }

  const SymYes := Const("y")
  const SymMod := Const("m")
  const SymNo := Const("n")

  /** What a configuration assigns: tristate values, string values, the value of the MODULES
      symbol, and the C library's number parser (string, base) -> value. */
  datatype Env = Env(tri: Sym -> Tri, str: Sym -> string, modules: Tri, num: (string, nat) -> Num)

  datatype Num = NotNumeric | Num(v: int)

  /** What sym_calc_value keeps: a boolean symbol is never m, and without module support no
      tristate symbol is m either. The number parser takes no letter y, m or n for a number. */
  ghost predicate WfEnv(env: Env) {
    && (forall s: Sym :: s.Type() == Boolean ==> env.tri(s) != Mod)
    && (env.modules == No ==> forall s: Sym :: s.Type() == Tristate ==> env.tri(s) != Mod)
    && (forall base :: env.num("y", base).NotNumeric? && env.num("m", base).NotNumeric? && env.num("n", base).NotNumeric?)
  }

  datatype Conn = AND | OR
  datatype Rel = EQ | NE | LTH | LEQ | GTH | GEQ

  datatype Expr =
    | Symbol(s: Sym)
    | Cmp(op: Rel, a: Sym, b: Sym)
    | Not(e: Expr)
    | Bin(c: Conn, l: Expr, r: Expr)
  {
    predicate IsBin(k: Conn) { Bin? && c == k }
  }

  const Y := Symbol(SymYes)
  const M := Symbol(SymMod)
  const N := Symbol(SymNo)

  /** The value that changes nothing under a connective, and the one that absorbs. */
  function Unit(c: Conn): Expr { if c == AND then Y else N }
  function Zero(c: Conn): Expr { if c == AND then N else Y }
  function Op(c: Conn, a: Tri, b: Tri): Tri { if c == AND then TriMin(a, b) else TriMax(a, b) }

  function SymTri(env: Env, s: Sym): Tri {
    match s
    case Const(_) => if s == SymYes then Yes else if s == SymMod then Mod else No
    case Var(_, ty) => if ty == Boolean || ty == Tristate then env.tri(s) else No
  }

  /** sym_get_string_value: m reads as "n" when module support is off. */
  function SymStr(env: Env, s: Sym): string {
    match s
    case Const(name) => name
    case Var(_, ty) =>
      if ty == Boolean || ty == Tristate then
        match env.tri(s)
        case No => "n"
        case Mod => if env.modules == No then "n" else "m"
        case Yes => "y"
      else env.str(s)
  }

  datatype Parsed = KString | KSigned(s: int) | KUnsigned(u: int) | KInvalid

  const TWO64: int := 0x1_0000_0000_0000_0000

  function ParseString(env: Env, str: string, ty: SymType): Parsed {
    match ty
    case Boolean => KString
    case Tristate => KString
    case Int => if env.num(str, 10).Num? then KSigned(env.num(str, 10).v) else KString
    case Hex => if env.num(str, 16).Num? then KUnsigned(env.num(str, 16).v % TWO64) else KString
    case String => if env.num(str, 0).Num? then KSigned(env.num(str, 0).v) else KString
    case Unknown => if env.num(str, 0).Num? then KSigned(env.num(str, 0).v) else KString
    case Other => KInvalid
  }

  /** The union read through its unsigned member. */
  function AsUnsigned(p: Parsed): int
    requires p.KSigned? || p.KUnsigned?
  {
    if p.KSigned? then p.s % TWO64 else p.u
  }

  function Sign(x: int): int { if x < 0 then -1 else if x > 0 then 1 else 0 }

  function StrCmp(x: string, y: string): (r: int)
    ensures r == 0 <==> x == y
  {
    if x == [] then (if y == [] then 0 else -1)
    else if y == [] then 1
    else if x[0] != y[0] then Sign(x[0] as int - y[0] as int)
    else
      assert x == [x[0]] + x[1..] && y == [y[0]] + y[1..];
      StrCmp(x[1..], y[1..])
  }

  datatype Order = Incomparable | Ordered(sign: int)

  /** The comparison at the heart of expr_calc_value, before the relation is looked at. */
  function Compare(env: Env, a: Sym, b: Sym): Order {
    var s1, s2 := SymStr(env, a), SymStr(env, b);
    var bothStr := a.Type() == String && b.Type() == String;
    var k1 := if bothStr then KString else ParseString(env, s1, a.Type());
    var k2 := if bothStr then KString else ParseString(env, s2, b.Type());
    if k1.KString? || k2.KString? then Ordered(StrCmp(s1, s2))
    else if k1.KInvalid? || k2.KInvalid? then Incomparable
    else if k1.KUnsigned? || k2.KUnsigned? then Ordered(Sign(AsUnsigned(k1) - AsUnsigned(k2)))
    else Ordered(Sign(k1.s - k2.s))
  }

  function Truth(b: bool): Tri { if b then Yes else No }

  function RelVal(env: Env, op: Rel, a: Sym, b: Sym): Tri {
    match Compare(env, a, b)
    case Incomparable =>
      // equality falls back to the strings; every order test answers no
      var eq := SymStr(env, a) == SymStr(env, b);
      Truth((op == EQ && eq) || (op == NE && !eq))
    case Ordered(x) =>
      Truth(match op
            case EQ => x == 0
            case NE => x != 0
            case LTH => x < 0
            case LEQ => x <= 0
            case GTH => x > 0
            case GEQ => x >= 0)
  }

  // ----- what the tests mean -----

  /** The relation between numbers. */
  predicate Holds(op: Rel, x: int, y: int) {
    match op
    case EQ => x == y
    case NE => x != y
    case LTH => x < y
    case LEQ => x <= y
    case GTH => x > y
    case GEQ => x >= y
  }

  /** x comes before y in the order of the characters. */
  ghost predicate Before(x: string, y: string) {
    exists k: nat :: k <= |x| && k < |y| && x[..k] == y[..k] && (k == |x| || x[k] < y[k])
  }

  lemma SameStart(x: string, y: string, k: nat)
    requires k <= |x| && k <= |y| && x[..k] == y[..k]
    ensures k > 0 ==> x[0] == y[0]
  {
    if k > 0 { assert x[..k][0] == y[..k][0]; }
  }

  lemma {:induction false} StrCmpMeaning(x: string, y: string)
    ensures StrCmp(x, y) < 0 <==> Before(x, y)
    ensures StrCmp(y, x) == -StrCmp(x, y)
  {
    if x == [] || y == [] {
      if x == [] && y != [] { assert x[..0] == y[..0]; }
    } else if x[0] != y[0] {
      if x[0] < y[0] { assert x[..0] == y[..0]; }
      if k: nat :| k <= |x| && k < |y| && x[..k] == y[..k] && (k == |x| || x[k] < y[k]) { SameStart(x, y, k); }
    } else {
      StrCmpMeaning(x[1..], y[1..]);
      if k: nat :| k <= |x[1..]| && k < |y[1..]| && x[1..][..k] == y[1..][..k] && (k == |x[1..]| || x[1..][k] < y[1..][k]) {
        assert x[..k + 1] == [x[0]] + x[1..][..k] && y[..k + 1] == [y[0]] + y[1..][..k];
      }
      if k: nat :| k <= |x| && k < |y| && x[..k] == y[..k] && (k == |x| || x[k] < y[k]) {
        assert k > 0;
        assert x[1..][..k - 1] == x[..k][1..] && y[1..][..k - 1] == y[..k][1..];
      }
    }
  }

  /** The base in which expr_parse_string reads a symbol of this type. */
  function Base(ty: SymType): nat { match ty case Int => 10 case Hex => 16 case _ => 0 }

  /** The number a symbol stands for in a test. */
  function NumberOf(env: Env, s: Sym): Num {
    if s.Type() in {Boolean, Tristate, Other} then NotNumeric else env.num(SymStr(env, s), Base(s.Type()))
  }

  /** Two numbers are compared as numbers, as unsigned 64-bit ones if one of the symbols is hexadecimal. Where one is no
      number, or both symbols are strings, the order is that of the strings. */
  lemma RelMeaning(env: Env, op: Rel, a: Sym, b: Sym)
    ensures var x, y := NumberOf(env, a), NumberOf(env, b);
            var s1, s2 := SymStr(env, a), SymStr(env, b);
            var sign := if Before(s1, s2) then -1 else if s1 == s2 then 0 else 1;
            if (a.Type() == String && b.Type() == String) || (x.NotNumeric? && a.Type() != Other) || (y.NotNumeric? && b.Type() != Other)
            then RelVal(env, op, a, b) == Truth(Holds(op, sign, 0))
            else if a.Type() == Other || b.Type() == Other
            then RelVal(env, op, a, b) == Truth((op == EQ && s1 == s2) || (op == NE && s1 != s2))
            else if a.Type() == Hex || b.Type() == Hex
            then RelVal(env, op, a, b) == Truth(Holds(op, x.v % TWO64, y.v % TWO64))
            else RelVal(env, op, a, b) == Truth(Holds(op, x.v, y.v))
  {
    StrCmpMeaning(SymStr(env, a), SymStr(env, b));
    hide StrCmp, Before, SymStr;
  }

  /** expr_calc_value */
  function Val(env: Env, e: Expr): Tri {
    match e
    case Symbol(s) => SymTri(env, s)
    case Cmp(op, a, b) => RelVal(env, op, a, b)
    case Not(x) => TriNot(Val(env, x))
    case Bin(c, l, r) => Op(c, Val(env, l), Val(env, r))
  }

  /** An absent expression (a null pointer) means yes. */
  datatype Dep = NoDep | Dep(e: Expr)

  function DepVal(env: Env, d: Dep): Tri { if d.NoDep? then Yes else Val(env, d.e) }

  /** expr_alloc_and */
  function AllocAnd(d1: Dep, d2: Dep): Dep {
    if d1.NoDep? then d2 else if d2.NoDep? then d1 else Dep(Bin(AND, d1.e, d2.e))
  }

  function Size(e: Expr): (n: nat)
    ensures n >= 1
  {
    match e
    case Symbol(_) => 1
    case Cmp(_, _, _) => 1
    case Not(x) => 1 + Size(x)
    case Bin(_, l, r) => 1 + Size(l) + Size(r)
  }

  /** Negation only on symbols other than y, m and n. */
  predicate Nnf(e: Expr) {
    match e
    case Symbol(_) => true
    case Cmp(_, _, _) => true
    case Not(x) => x.Symbol? && x.s != SymYes && x.s != SymMod && x.s != SymNo
    case Bin(_, l, r) => Nnf(l) && Nnf(r)
  }

  /** Some connective has the constant y or n as an operand. */
  predicate HasConst(e: Expr) {
    match e
    case Symbol(_) => false
    case Cmp(_, _, _) => false
    case Not(_) => false
    case Bin(_, l, r) => l == Y || l == N || r == Y || r == N || HasConst(l) || HasConst(r)
  }

  lemma OpLaws(c: Conn, x: Tri, y: Tri, z: Tri)
    ensures Op(c, Op(c, x, y), z) == Op(c, x, Op(c, y, z))
    ensures Op(c, x, y) == Op(c, y, x)
    ensures Op(c, x, x) == x
    ensures Op(c, if c == AND then Yes else No, x) == x
    ensures Leq(x, y) ==> Leq(Op(c, z, x), Op(c, z, y))
  {
  }

  /** expr_eliminate_yn */
  function ElimYn(e: Expr): (r: Expr)
    ensures Size(r) <= Size(e)
    ensures HasConst(e) ==> Size(r) < Size(e)
    ensures !HasConst(r)
    ensures Nnf(e) ==> Nnf(r)
  {
    match e
    case Bin(c, l, r) =>
      var l', r' := ElimYn(l), ElimYn(r);
      if l' == Zero(c) then Zero(c)
      else if l' == Unit(c) then r'
      else if r' == Zero(c) then Zero(c)
      else if r' == Unit(c) then l'
      else Bin(c, l', r')
    case _ => e
  }

  lemma UnitAndZero(env: Env, c: Conn, x: Tri)
    ensures Op(c, Val(env, Unit(c)), x) == x == Op(c, x, Val(env, Unit(c)))
    ensures Op(c, Val(env, Zero(c)), x) == Val(env, Zero(c)) == Op(c, x, Val(env, Zero(c)))
  {
  }

  /** Removing constants keeps the value in every environment. */
  lemma {:induction false} ElimYnValue(env: Env, e: Expr)
    ensures Val(env, ElimYn(e)) == Val(env, e)
  {
    if e.Bin? {
      ElimYnValue(env, e.l);
      ElimYnValue(env, e.r);
      UnitAndZero(env, e.c, Val(env, e.l));
      UnitAndZero(env, e.c, Val(env, e.r));
    }
  }
}
