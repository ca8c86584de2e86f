/** Per-subtree values: which nodes rebalancing can leave wrong, and why recomputing one path to
    the root and its siblings puts every node right (lib/rbt.c: rbt_update and its callers). */
module RbtAugment {
  import opened RbtTree
  import opened RbtBalance

  /** An rbt_update_func: a node's value from its payload and its children's values (0 for a
      missing child). */
  type Upd = (int, int, int) -> int

  /** What is expected of the values: that they follow upd, except perhaps in subtrees that
      contain the node skip, whose payload was changed and whose own update is still to come. */
  datatype Rule = Rule(upd: Upd, skip: Node?)

  predicate Skips(u: Rule, t: Tree) { u.skip != null && u.skip in Nodes(t) }

  function AugOf(t: Tree): int { if t.Nil? then 0 else t.e.aug }

  /** Every node of t has the value its subtree calls for. */
  predicate Good(u: Rule, t: Tree) {
    t.T? ==> (Skips(u, t) || t.e.aug == u.upd(t.e.data, AugOf(t.l), AugOf(t.r))) && Good(u, t.l) && Good(u, t.r)
  }

  /** Every node of t but perhaps its root is right. */
  predicate KidsGood(u: Rule, t: Tree) { t.T? ==> Good(u, t.l) && Good(u, t.r) }

  predicate SibsGood(u: Rule, c: Ctx) { c.Top? || (Good(u, Sib(c)) && SibsGood(u, c.up)) }

  predicate SibsKids(u: Rule, c: Ctx) { c.Top? || (KidsGood(u, Sib(c)) && SibsKids(u, c.up)) }

  function Recompute(u: Rule, t: Tree): Tree {
    if t.Nil? then t else T(t.l, t.e.(aug := u.upd(t.e.data, AugOf(t.l), AugOf(t.r))), t.r)
  }

  /** rbt_update from the position (c, t): the node, its sibling, then the parent, up to the root. */
  function Repair(u: Rule, c: Ctx, t: Tree): Tree {
    match c
    case Top => Recompute(u, t)
    case InL(e, s, up) => Repair(u, up, T(Recompute(u, t), e, Recompute(u, s)))
    case InR(s, e, up) => Repair(u, up, T(Recompute(u, s), e, Recompute(u, t)))
  }

  lemma {:induction false} RepairGood(u: Rule, c: Ctx, t: Tree)
    requires KidsGood(u, t) && SibsKids(u, c)
    ensures Good(u, Repair(u, c, t))
  {
    match c
    case Top =>
    case InL(e, s, up) => RepairGood(u, up, T(Recompute(u, t), e, Recompute(u, s)));
    case InR(s, e, up) => RepairGood(u, up, T(Recompute(u, s), e, Recompute(u, t)));
  }

  /** Trees that differ in their per-subtree values only. */
  predicate SameButAug(t: Tree, t': Tree) {
    t.T? == t'.T? && (t.T? ==> t'.e == t.e.(aug := t'.e.aug) && SameButAug(t.l, t'.l) && SameButAug(t.r, t'.r))
  }

  lemma {:induction false} SameButAugRefl(t: Tree)
    ensures SameButAug(t, t)
  {
    if t.T? {
      SameButAugRefl(t.l);
      SameButAugRefl(t.r);
    }
  }

  lemma {:induction false} SameButAugPlug(c: Ctx, t: Tree, t': Tree)
    requires SameButAug(t, t')
    ensures SameButAug(Plug(c, t), Plug(c, t'))
  {
    match c
    case Top =>
    case InL(e, s, up) =>
      SameButAugRefl(s);
      SameButAugPlug(up, T(t, e, s), T(t', e, s));
    case InR(s, e, up) =>
      SameButAugRefl(s);
      SameButAugPlug(up, T(s, e, t), T(s, e, t'));
  }

  lemma {:induction false} SameButAugTrans(t: Tree, t': Tree, t'': Tree)
    requires SameButAug(t, t') && SameButAug(t', t'')
    ensures SameButAug(t, t'')
  {
    if t.T? {
      SameButAugTrans(t.l, t'.l, t''.l);
      SameButAugTrans(t.r, t'.r, t''.r);
    }
  }

  /** The values do not enter order, nodes or balance. */
  lemma {:induction false} SameButAugKeeps(t: Tree, t': Tree)
    requires SameButAug(t, t')
    ensures Items(t') == Items(t) && Nodes(t') == Nodes(t) && IsRed(t') == IsRed(t)
    ensures Distinct(t') == Distinct(t)
    ensures forall k: nat :: RB(t', k) <==> RB(t, k)
  {
    if t.T? {
      SameButAugKeeps(t.l, t'.l);
      SameButAugKeeps(t.r, t'.r);
    }
  }

  lemma SameButAugBalanced(t: Tree, t': Tree)
    requires SameButAug(t, t') && IsRBTree(t)
    ensures IsRBTree(t')
  {
    SameButAugKeeps(t, t');
    var k: nat :| RB(t, k);
    assert RB(t', k);
  }

  lemma RecomputeSame(u: Rule, t: Tree)
    ensures SameButAug(t, Recompute(u, t))
  {
    if t.T? {
      SameButAugRefl(t.l);
      SameButAugRefl(t.r);
    }
  }

  lemma {:induction false} RepairSame(u: Rule, c: Ctx, t: Tree)
    ensures SameButAug(Plug(c, t), Repair(u, c, t))
  {
    RecomputeSame(u, t);
    if !c.Top? {
      RecomputeSame(u, Sib(c));
      var s, s' := Recompute(u, t), Recompute(u, Sib(c));
      var t' := if c.InL? then T(s, c.e, s') else T(s', c.e, s);
      SameButAugPlug(c.up, Fill(c, t), t');
      RepairSame(u, c.up, t');
      SameButAugTrans(Plug(c, t), Plug(c.up, t'), Repair(u, c, t));
    }
  }

  // ----- where the wrong values can be -----

  /** All subtrees off the way down to node n are right, and so are the subtrees below n. */
  predicate OffGood(u: Rule, t: Tree, n: Node) {
    t.T? &&
    if t.e.n == n then KidsGood(u, t)
    else if n in Nodes(t.l) then Good(u, t.r) && OffGood(u, t.l, n)
    else n in Nodes(t.r) && Good(u, t.l) && OffGood(u, t.r, n)
  }

  /** As OffGood, but the roots of the subtrees off the way may be wrong too: what rbt_update
      started at n can put right. */
  predicate OffKids(u: Rule, t: Tree, n: Node) {
    t.T? &&
    if t.e.n == n then KidsGood(u, t)
    else if n in Nodes(t.l) then KidsGood(u, t.r) && OffKids(u, t.l, n)
    else n in Nodes(t.r) && KidsGood(u, t.l) && OffKids(u, t.r, n)
  }

  lemma {:induction false} OffGoodKids(u: Rule, t: Tree, n: Node)
    requires OffGood(u, t, n)
    ensures OffKids(u, t, n)
  {
    if t.e.n != n {
      OffGoodKids(u, if n in Nodes(t.l) then t.l else t.r, n);
    }
  }

  lemma {:induction false} SibsGoodKids(u: Rule, c: Ctx)
    requires SibsGood(u, c)
    ensures SibsKids(u, c)
  {
    if !c.Top? { SibsGoodKids(u, c.up); }
  }

  lemma {:induction false} OffKidsNode(u: Rule, t: Tree, n: Node)
    requires OffKids(u, t, n)
    ensures n in Nodes(t)
  {
  }

  lemma {:induction false} PlugOffKids(u: Rule, c: Ctx, t: Tree, n: Node)
    requires Apart(c, t) && n in Nodes(t)
    ensures OffKids(u, Plug(c, t), n) <==> OffKids(u, t, n) && SibsKids(u, c)
  {
    if !c.Top? { PlugOffKids(u, c.up, Fill(c, t), n); }
  }

  lemma {:induction false} PlugGoodInv(u: Rule, c: Ctx, t: Tree)
    requires Good(u, Plug(c, t))
    ensures Good(u, t) && SibsGood(u, c)
  {
    if !c.Top? { PlugGoodInv(u, c.up, Fill(c, t)); }
  }

  lemma OffKidsBlacken(u: Rule, t: Tree, n: Node)
    ensures OffKids(u, Blacken(t), n) == OffKids(u, t, n)
  {
  }

  // ----- insertion -----

  function SubAt(t: Tree, n: Node): (s: Tree)
    requires n in Nodes(t)
    ensures s.T? && s.e.n == n
  {
    if t.e.n == n then t else if n in Nodes(t.l) then SubAt(t.l, n) else SubAt(t.r, n)
  }

  /** The surroundings of node n in t, where t itself stands in c. */
  function CtxAt(t: Tree, n: Node, c: Ctx): Ctx
    requires n in Nodes(t)
  {
    if t.e.n == n then c
    else if n in Nodes(t.l) then CtxAt(t.l, n, InL(t.e, t.r, c))
    else CtxAt(t.r, n, InR(t.l, t.e, c))
  }

  lemma {:induction false} PlugAt(t: Tree, n: Node, c: Ctx)
    requires n in Nodes(t)
    ensures Plug(CtxAt(t, n, c), SubAt(t, n)) == Plug(c, t)
  {
    if t.e.n != n {
      if n in Nodes(t.l) { PlugAt(t.l, n, InL(t.e, t.r, c)); } else { PlugAt(t.r, n, InR(t.l, t.e, c)); }
    }
  }

  /** The place of node n in the order. */
  function Idx(t: Tree, n: Node): nat
    requires n in Nodes(t)
  {
    |Before(CtxAt(t, n, Top))| + |Items(SubAt(t, n).l)|
  }

  lemma IdxItem(t: Tree, n: Node)
    requires n in Nodes(t)
    ensures Plug(CtxAt(t, n, Top), SubAt(t, n)) == t
    ensures Idx(t, n) < |Items(t)| && Items(t)[Idx(t, n)] == ItemOf(SubAt(t, n).e)
  {
    IdxSplit(t, n);
  }

  lemma IdxBefore(t: Tree, n: Node)
    requires n in Nodes(t)
    ensures Idx(t, n) < |Items(t)| && Items(t)[..Idx(t, n)] == Before(CtxAt(t, n, Top)) + Items(SubAt(t, n).l)
  {
    IdxSplit(t, n);
  }

  lemma IdxAfter(t: Tree, n: Node)
    requires n in Nodes(t)
    ensures Idx(t, n) < |Items(t)| && Items(t)[Idx(t, n) + 1..] == Items(SubAt(t, n).r) + After(CtxAt(t, n, Top))
  {
    IdxSplit(t, n);
  }

  lemma IdxSplit(t: Tree, n: Node)
    requires n in Nodes(t)
    ensures var c, s := CtxAt(t, n, Top), SubAt(t, n);
            && Plug(c, s) == t && Idx(t, n) < |Items(t)|
            && Items(t)[..Idx(t, n)] == Before(c) + Items(s.l)
            && Items(t)[Idx(t, n)] == ItemOf(s.e)
            && Items(t)[Idx(t, n) + 1..] == Items(s.r) + After(c)
  {
    hide Items, Plug, Before, After, CtxAt, SubAt, Nodes, Idx;
    var c, s := CtxAt(t, n, Top), SubAt(t, n);
    IdxPlace(t, n);
    PlugAt(t, n, Top);
    PlugItems(c, s);
    NodeItems(s);
    Middle(Before(c), Items(s.l), ItemOf(s.e), Items(s.r), After(c), Items(t));
  }

  lemma IdxPlace(t: Tree, n: Node)
    requires n in Nodes(t)
    ensures Plug(Top, t) == t && Idx(t, n) == |Before(CtxAt(t, n, Top))| + |Items(SubAt(t, n).l)|
  {
  }

  lemma NodeItems(s: Tree)
    requires s.T?
    ensures Items(s) == Items(s.l) + [ItemOf(s.e)] + Items(s.r)
  {
  }

  lemma Middle(p: seq<Item>, a: seq<Item>, x: Item, b: seq<Item>, q: seq<Item>, s: seq<Item>)
    requires s == p + (a + [x] + b) + q
    ensures var i := |p| + |a|; i < |s| && s[..i] == p + a && s[i] == x && s[i + 1..] == b + q
  {
    assert s == (p + a) + [x] + (b + q);
  }

  /** The node at place i, if there is one. */
  function NodeAt(s: seq<Item>, i: int): Node? {
    if 0 <= i < |s| then s[i].n else null
  }

  function ItemNodes(s: seq<Item>): set<Node> { set i | 0 <= i < |s| :: s[i].n }

  predicate NoDup(s: seq<Item>) { forall i, j :: 0 <= i < j < |s| ==> s[i].n != s[j].n }

  lemma ItemNodesConcat(a: seq<Item>, x: Item, b: seq<Item>)
    ensures ItemNodes(a + [x] + b) == ItemNodes(a) + {x.n} + ItemNodes(b)
    ensures NoDup(a) && NoDup(b) && ItemNodes(a) !! ItemNodes(b) && x.n !in ItemNodes(a) && x.n !in ItemNodes(b)
            ==> NoDup(a + [x] + b)
  {
    var s := a + [x] + b;
    forall n: Node | n in ItemNodes(a) ensures n in ItemNodes(s) {
      var i :| 0 <= i < |a| && a[i].n == n;
      assert s[i] == a[i];
    }
    forall n: Node | n in ItemNodes(b) ensures n in ItemNodes(s) {
      var i :| 0 <= i < |b| && b[i].n == n;
      assert s[|a| + 1 + i] == b[i];
    }
    assert s[|a|] == x;
    forall i | 0 <= i < |s| ensures s[i].n in ItemNodes(a) + {x.n} + ItemNodes(b) {
      if i > |a| { assert s[i] == b[i - |a| - 1]; }
    }
  }

  /** The nodes of a tree are those of its records, each once. */
  lemma {:induction false} ItemsNodes(t: Tree)
    ensures ItemNodes(Items(t)) == Nodes(t)
    ensures Distinct(t) ==> NoDup(Items(t))
  {
    if t.T? {
      ItemsNodes(t.l);
      ItemsNodes(t.r);
      ItemNodesConcat(Items(t.l), ItemOf(t.e), Items(t.r));
    }
  }

  lemma {:induction false} PlugSubAt(c: Ctx, t: Tree, n: Node)
    requires Apart(c, t) && n in Nodes(t)
    ensures n in Nodes(Plug(c, t)) && SubAt(Plug(c, t), n) == SubAt(t, n)
  {
    if !c.Top? { PlugSubAt(c.up, Fill(c, t), n); }
  }

  predicate LeafAt(t: Tree, n: Node) {
    n in Nodes(t) && SubAt(t, n).l.Nil? && SubAt(t, n).r.Nil?
  }

  /** Where rbt_insert_update starts: the node's left child, else its right child, else itself. */
  function Start(t: Tree, n: Node): Node
    requires n in Nodes(t)
  {
    var s := SubAt(t, n);
    if s.l.T? then s.l.e.n else if s.r.T? then s.r.e.n else n
  }

  lemma RecoloredApart(c: Ctx, t: Tree)
    requires Apart(c, t) && !c.Top? && !c.up.Top?
    ensures Apart(c.up.up, Recolored(c, t)) && Nodes(Recolored(c, t)) == Nodes(Fill(c.up, Fill(c, t)))
  {
    assert Apart(c.up, Fill(c, t));
    assert Apart(c.up.up, Fill(c.up, Fill(c, t)));
  }

  lemma TurnedApart(c: Ctx, t: Tree)
    requires Apart(c, t) && !c.Top? && !c.up.Top? && t.T?
    ensures Apart(c.up.up, Turned(c, t)) && Nodes(Turned(c, t)) == Nodes(Fill(c.up, Fill(c, t)))
  {
    assert Apart(c.up, Fill(c, t));
    assert Apart(c.up.up, Fill(c.up, Fill(c, t)));
    assert Distinct(t);
    var s := Turned(c, t);
    assert Distinct(s.l) && Distinct(s.r);
  }

  lemma TurnedOff(u: Rule, c: Ctx, t: Tree, n: Node)
    requires Apart(c, t) && !c.Top? && !c.up.Top? && t.T?
    requires OffGood(u, t, n) && LeafAt(t, n) && Good(u, Sib(c)) && Good(u, Sib(c.up))
    ensures n in Nodes(Turned(c, t)) && Start(Turned(c, t), n) in Nodes(Turned(c, t))
    ensures OffKids(u, Turned(c, t), Start(Turned(c, t), n))
  {
    var s := Turned(c, t);
    OffGoodKids(u, t, n);
    TurnedApart(c, t);
    assert Apart(c.up, Fill(c, t));
    assert Distinct(Fill(c.up, Fill(c, t)));
    if c.InL? == c.up.InL? {
      assert SubAt(s, n) == SubAt(t, n);
    } else if t.e.n == n {
      assert s.l.T?;
    } else if n in Nodes(t.l) {
      OffGoodKids(u, t.l, n);
      assert n in Nodes(s.l) && SubAt(s, n) == SubAt(t, n);
    } else {
      OffGoodKids(u, t.r, n);
      assert n in Nodes(s.r) && SubAt(s, n) == SubAt(t, n);
    }
  }

  /** After rbt_insert_color, all wrong values are where rbt_insert_update goes. */
  lemma {:induction false} InsertFixOff(u: Rule, c: Ctx, t: Tree, n: Node)
    requires RedsNested(c) && Apart(c, t) && SibsGood(u, c) && OffGood(u, t, n) && LeafAt(t, n)
    ensures var s := InsertFix(c, t); n in Nodes(s) && OffKids(u, s, Start(s, n))
    decreases c
  {
    if c.Top? || c.e.color == Black {
      InsertEndsOff(u, c, t, n);
    } else if IsRed(Sib(c.up)) {
      RecoloredApart(c, t);
      InsertFixOff(u, c.up.up, Recolored(c, t), n);
    } else {
      InsertTurnsOff(u, c, t, n);
    }
  }

  lemma InsertEndsOff(u: Rule, c: Ctx, t: Tree, n: Node)
    requires Apart(c, t) && SibsGood(u, c) && OffGood(u, t, n) && LeafAt(t, n)
    ensures var s := Blacken(Plug(c, t)); n in Nodes(s) && OffKids(u, s, Start(s, n))
  {
    OffGoodKids(u, t, n);
    SibsGoodKids(u, c);
    PlugOffKids(u, c, t, n);
    PlugSubAt(c, t, n);
    OffKidsBlacken(u, Plug(c, t), n);
  }

  lemma InsertTurnsOff(u: Rule, c: Ctx, t: Tree, n: Node)
    requires RedsNested(c) && Apart(c, t) && SibsGood(u, c) && OffGood(u, t, n) && LeafAt(t, n)
    requires !c.Top? && c.e.color != Black && !IsRed(Sib(c.up))
    ensures var s := Blacken(Plug(c.up.up, Turned(c, t))); n in Nodes(s) && OffKids(u, s, Start(s, n))
  {
    TurnedOff(u, c, t, n);
    TurnedApart(c, t);
    var s := Turned(c, t);
    SibsGoodKids(u, c.up.up);
    PlugOffKids(u, c.up.up, s, Start(s, n));
    PlugSubAt(c.up.up, s, n);
    OffKidsBlacken(u, Plug(c.up.up, s), Start(s, n));
  }

  // ----- deletion -----

  lemma LiftedApart(c: Ctx, t: Tree)
    requires Apart(c, t) && !c.Top? && Sib(c).T?
    ensures Apart(Lifted(c), t)
  {
    assert Distinct(Sib(c)) && DistinctCtx(c.up);
    assert DistinctCtx(Lifted(c).up);
  }

  /** The node whose value the path starts from is t's, or the parent when nothing hangs there. */
  predicate Covers(u: Rule, c: Ctx, t: Tree, d: Node) {
    if t.T? then OffGood(u, t, d) else !c.Top? && c.e.n == d
  }

  lemma FillOff(u: Rule, c: Ctx, t: Tree, d: Node)
    requires !c.Top? && Apart(c, t) && Covers(u, c, t, d) && Good(u, Sib(c))
    ensures OffGood(u, Fill(c, t), d) && Apart(c.up, Fill(c, t)) && d in Nodes(Fill(c, t))
  {
    if t.T? {
      OffGoodKids(u, t, d);
      OffKidsNode(u, t, d);
    }
  }

  /** A rotation keeps the nodes, whatever it does to the colours. */
  lemma RotationNodes(a: Tree, x: Entry, b: Tree, y: Entry, z: Tree, x': Entry, y': Entry)
    requires x'.n == x.n && y'.n == y.n
    ensures Nodes(T(T(a, x, b), y, z)) == Nodes(T(a, x', T(b, y', z)))
    ensures Distinct(T(T(a, x, b), y, z)) == Distinct(T(a, x', T(b, y', z)))
  {
    assert Nodes(T(a, x, b)) == Nodes(a) + {x.n} + Nodes(b);
    assert Nodes(T(b, y', z)) == Nodes(b) + {y.n} + Nodes(z);
  }

  lemma ClosedApart(c: Ctx, t: Tree)
    requires Apart(c, t) && !c.Top? && Sib(c).T? && (IsRed(Sib(c).l) || IsRed(Sib(c).r))
    ensures Apart(c.up, Closed(c, t)) && Nodes(Closed(c, t)) == Nodes(Fill(c, t))
  {
    assert Apart(c.up, Fill(c, t));
    var o, o' := Sib(c), OuterRed(c);
    if c.InL? {
      if !IsRed(o.r) { RotationNodes(o.l.l, o.l.e, o.l.r, o.e, o.r, o'.e, o'.r.e); }
      assert Distinct(o') && Nodes(o') == Nodes(o);
      RotationNodes(t, Paint(c.e, Black), o'.l, Paint(o'.e, c.e.color), o'.r, c.e, o'.e);
    } else {
      if !IsRed(o.l) { RotationNodes(o.l, o'.l.e, o.r.l, o'.e, o.r.r, o.e, o.r.e); }
      assert Distinct(o') && Nodes(o') == Nodes(o);
      RotationNodes(o'.l, o'.e, o'.r, c.e, t, Paint(o'.e, c.e.color), Paint(c.e, Black));
    }
  }

  lemma ClosedOff(u: Rule, c: Ctx, t: Tree, d: Node)
    requires Apart(c, t) && !c.Top? && Sib(c).T? && (IsRed(Sib(c).l) || IsRed(Sib(c).r))
    requires Covers(u, c, t, d) && Good(u, Sib(c))
    ensures OffKids(u, Closed(c, t), d) && d in Nodes(Closed(c, t))
  {
    ClosedApart(c, t);
    var o := OuterRed(c);
    assert Good(u, Sib(c).l) && Good(u, Sib(c).r);
    assert Good(u, if c.InL? then o.l else o.r);
    assert KidsGood(u, o.l) && KidsGood(u, o.r);
    if t.T? {
      OffGoodKids(u, t, d);
      OffKidsNode(u, t, d);
    }
    var s := Closed(c, t);
    assert OffKids(u, if c.InL? then s.l else s.r, d);
  }

  /** After rbt_delete_color, all wrong values are where rbt_update goes from d. */
  lemma {:induction false} DeleteFixOff(u: Rule, c: Ctx, t: Tree, k: nat, d: Node)
    requires DeletePre(c, t, k) && Apart(c, t) && SibsGood(u, c) && Covers(u, c, t, d)
    ensures OffKids(u, DeleteFix(c, t, k), d)
    decreases 2 * Depth(c) + (if IsRed(t) then 0 else 1)
  {
    if IsRed(t) || c.Top? {
      OffGoodKids(u, t, d);
      OffKidsNode(u, t, d);
      SibsGoodKids(u, c);
      PlugOffKids(u, c, Blacken(t), d);
    } else {
      SiblingExists(c, t, k);
      var c' := BlackSib(c);
      if IsRed(Sib(c)) { LiftedApart(c, t); }
      var o := Sib(c');
      if !IsRed(o.l) && !IsRed(o.r) {
        PushedPre(c', t, k);
        assert Good(u, o) && Good(u, Redden(o));
        FillOff(u, WithSib(c', Redden(o)), t, d);
        DeleteFixOff(u, c'.up, Pushed(c', t), if c'.e.color == Red then k else k + 1, d);
      } else {
        ClosedOff(u, c', t, d);
        ClosedApart(c', t);
        SibsGoodKids(u, c'.up);
        PlugOffKids(u, c'.up, Closed(c', t), d);
        OffKidsBlacken(u, Plug(c'.up, Closed(c', t)), d);
      }
    }
  }

  lemma {:induction false} MinCtxApart(t: Tree, c: Ctx)
    requires t.T? && Distinct(t) && DistinctCtx(c) && CtxNodes(c) !! (Nodes(t) - Nodes(MinTree(t)))
    ensures Distinct(MinTree(t)) && Nodes(MinTree(t)) <= Nodes(t)
    ensures CtxNodes(MinCtx(t, c)) == CtxNodes(c) + (Nodes(t) - Nodes(MinTree(t)))
    ensures DistinctCtx(MinCtx(t, c))
  {
    if t.l.T? {
      MinTreeNodes(t.l);
      MinCtxApart(t.l, InL(t.e, t.r, c));
    }
  }

  lemma {:induction false} MinTreeNodes(t: Tree)
    requires t.T?
    ensures Nodes(MinTree(t)) <= Nodes(t)
  {
    if t.l.T? { MinTreeNodes(t.l); }
  }

  lemma {:induction false} MinCtxGood(u: Rule, t: Tree, c: Ctx)
    requires t.T? && Good(u, t) && SibsGood(u, c)
    ensures SibsGood(u, MinCtx(t, c)) && Good(u, MinTree(t))
  {
    if t.l.T? { MinCtxGood(u, t.l, InL(t.e, t.r, c)); }
  }

  /** Taking a node out leaves its other nodes apart. */
  lemma CutApart(c: Ctx, t: Tree)
    requires t.T? && Apart(c, t)
    ensures var h := Cut(c, t);
            Apart(h.c, h.t) && Nodes(h.t) + CtxNodes(h.c) == Nodes(t) + CtxNodes(c) - {t.e.n}
  {
    if t.l.T? && t.r.T? {
      var y := MinTree(t.r);
      var c' := InR(t.l, Paint(y.e, t.e.color), c);
      MinTreeNodes(t.r);
      MinCtxApart(t.r, c');
      assert Nodes(y) == {y.e.n} + Nodes(y.r);
    }
  }

  /** rbt_delete_update_begin: the deepest node whose subtree the deletion changes. */
  function Deepest(c: Ctx, t: Tree): Node?
    requires t.T?
  {
    if t.r.Nil? && t.l.Nil? then Par(c)
    else if t.r.Nil? then Root(t.l)
    else if t.l.Nil? then Root(t.r)
    else
      var y := MinTree(t.r);
      if y.r.T? then y.r.e.n
      else if t.r.l.T? then Par(MinCtx(t.r, InR(t.l, t.e, c)))
      else y.e.n
  }

  lemma {:induction false} MinCtxPar(t: Tree, c: Ctx, c': Ctx)
    requires t.T? && t.l.T? && Par(c) != null && Par(c') != null
    ensures Par(MinCtx(t, c)) == Par(MinCtx(t, c')) != null
  {
    if t.l.l.T? { MinCtxPar(t.l, InL(t.e, t.r, c), InL(t.e, t.r, c')); }
  }

  lemma DeepestAtHole(c: Ctx, t: Tree)
    requires t.T?
    ensures var h := Cut(c, t); Deepest(c, t) == if h.t.T? then h.t.e.n else Par(h.c)
  {
    if t.l.T? && t.r.T? {
      var y := MinTree(t.r);
      if t.r.l.T? {
        MinCtxPar(t.r, InR(t.l, t.e, c), InR(t.l, Paint(y.e, t.e.color), c));
      }
    }
  }

  /** After rbt_delete of the node at (c, t) every wrong value is where rbt_update goes from the
      node that rbt_delete_update_begin picked; without such a node the tree is empty. */
  lemma DeletedOff(u: Rule, c: Ctx, t: Tree, k: nat)
    requires t.T? && Apart(c, t) && Good(u, Plug(c, t))
    requires IsRBTree(Plug(c, t))
    requires Cut(c, t).color == Black ==> DeletePre(Cut(c, t).c, Cut(c, t).t, k)
    ensures Deepest(c, t) == null ==> Deleted(c, t, k).Nil?
    ensures Deepest(c, t) != null ==> OffKids(u, Deleted(c, t, k), Deepest(c, t))
  {
    var h := Cut(c, t);
    DeepestAtHole(c, t);
    CutApart(c, t);
    PlugGoodInv(u, c, t);
    if t.l.T? && t.r.T? {
      MinCtxGood(u, t.r, InR(t.l, Paint(MinTree(t.r).e, t.e.color), c));
    }
    assert SibsGood(u, h.c) && Good(u, h.t);
    var d := Deepest(c, t);
    if d != null {
      assert Covers(u, h.c, h.t, d);
      if h.color == Black {
        DeleteFixOff(u, h.c, h.t, k, d);
      } else {
        CutRedOff(u, c, t, d);
      }
    }
  }

  lemma CutRedOff(u: Rule, c: Ctx, t: Tree, d: Node)
    requires t.T? && IsRBTree(Plug(c, t)) && Cut(c, t).color == Red
    requires var h := Cut(c, t); Apart(h.c, h.t) && SibsGood(u, h.c) && Covers(u, h.c, h.t, d)
    ensures var h := Cut(c, t); OffKids(u, Plug(h.c, h.t), d)
  {
    var h := Cut(c, t);
    var b: nat :| RB(Plug(c, t), b);
    var i := PlugRBInv(c, t, b);
    var _ := CutRB(c, t, i);
    assert h.t.Nil? && !h.c.Top?;
    FillOff(u, h.c, h.t, d);
    OffGoodKids(u, Fill(h.c, h.t), d);
    SibsGoodKids(u, h.c.up);
    PlugOffKids(u, h.c.up, Fill(h.c, h.t), d);
  }

  // ----- whole operations -----

  function LeafTree(e: Entry): Tree { T(Nil, Paint(e, Red), Nil) }

  /** Linking a red leaf into a red-black tree and recolouring: the result is red-black again, its
      records are the old ones with the new one in the gap, and every wrong per-subtree value is
      where rbt_insert_update goes. */
  lemma InsertedCorrect(c: Ctx, e: Entry)
    requires IsRBTree(Plug(c, Nil)) && Apart(c, LeafTree(e))
    ensures RedsNested(c) && IsRBTree(InsertFix(c, LeafTree(e)))
    ensures Items(InsertFix(c, LeafTree(e))) == Before(c) + [ItemOf(e)] + After(c)
    ensures Items(Plug(c, Nil)) == Before(c) + After(c)
    ensures Nodes(InsertFix(c, LeafTree(e))) == Nodes(Plug(c, Nil)) + {e.n}
  {
    var t := LeafTree(e);
    InsertedBalanced(c, e);
    assert Items(t) == [ItemOf(e)] && Items(Nil) == [];
    hide Items, Plug, InsertFix, Nodes, Before, After, IsRBTree, RedsNested, LeafTree;
    InsertFixItems(c, t);
    PlugItems(c, t);
    PlugItems(c, Nil);
    InsertedNodes(c, e);
  }

  lemma InsertedBalanced(c: Ctx, e: Entry)
    requires IsRBTree(Plug(c, Nil))
    ensures RedsNested(c) && IsRBTree(InsertFix(c, LeafTree(e)))
  {
    var k: nat :| RB(Plug(c, Nil), k);
    var j := PlugRBInv(c, Nil, k);
    assert RB(LeafTree(e), 0) && j == 0;
    InsertFixRB(c, LeafTree(e), 0);
  }

  lemma InsertedNodes(c: Ctx, e: Entry)
    requires RedsNested(c)
    ensures Nodes(InsertFix(c, LeafTree(e))) == Nodes(Plug(c, Nil)) + {e.n}
  {
    var t := LeafTree(e);
    assert Nodes(t) == {e.n} && Nodes(Nil) == {};
    hide Items, Plug, InsertFix, Nodes, RedsNested, LeafTree;
    InsertFixItems(c, t);
    PlugNodes(c, t);
    PlugNodes(c, Nil);
    SameItemsSameNodes(InsertFix(c, t), Plug(c, t));
  }

  lemma SameItemsSameNodes(t: Tree, t': Tree)
    requires Items(t) == Items(t')
    ensures Nodes(t) == Nodes(t')
  {
    ItemsNodes(t);
    ItemsNodes(t');
  }

  lemma InsertedOff(u: Rule, c: Ctx, e: Entry)
    requires RedsNested(c) && Apart(c, LeafTree(e)) && Good(u, Plug(c, Nil))
    ensures var s := InsertFix(c, LeafTree(e)); e.n in Nodes(s) && OffKids(u, s, Start(s, e.n))
  {
    PlugGoodInv(u, c, Nil);
    InsertFixOff(u, c, LeafTree(e), e.n);
  }

  function RemoveAt(s: seq<Item>, i: nat): seq<Item>
    requires i < |s|
  {
    s[..i] + s[i + 1..]
  }

  /** A black height to hand to rbt_delete_color, if it is going to be called. */
  lemma CutHeight(c: Ctx, t: Tree) returns (k: nat)
    requires t.T? && IsRBTree(Plug(c, t))
    ensures Cut(c, t).color == Black ==> DeletePre(Cut(c, t).c, Cut(c, t).t, k)
  {
    var b: nat :| RB(Plug(c, t), b);
    var i := PlugRBInv(c, t, b);
    k := CutRB(c, t, i);
  }

  /** Deleting a node: red-black again, one record fewer, the others in order. */
  lemma DeletedItems(t: Tree, n: Node, k: nat)
    requires n in Nodes(t) && IsRBTree(t) && Distinct(t)
    requires var c, s := CtxAt(t, n, Top), SubAt(t, n);
             Cut(c, s).color == Black ==> DeletePre(Cut(c, s).c, Cut(c, s).t, k)
    ensures Idx(t, n) < |Items(t)|
    ensures var t' := Deleted(CtxAt(t, n, Top), SubAt(t, n), k);
            && IsRBTree(t') && Items(t') == RemoveAt(Items(t), Idx(t, n)) && Nodes(t') == Nodes(t) - {n}
  {
    var c, s := CtxAt(t, n, Top), SubAt(t, n);
    PlugAt(t, n, Top);
    DeletedCorrect(c, s, k);
    DeletedSeq(t, n, Deleted(c, s, k));
    DeletedNodes(t, n, Deleted(c, s, k));
  }

  lemma DeletedSeq(t: Tree, n: Node, t': Tree)
    requires n in Nodes(t)
    requires var c, s := CtxAt(t, n, Top), SubAt(t, n);
             Items(t') == Before(c) + Items(s.l) + Items(s.r) + After(c)
    ensures Idx(t, n) < |Items(t)| && Items(t') == RemoveAt(Items(t), Idx(t, n))
  {
    var c, s := CtxAt(t, n, Top), SubAt(t, n);
    IdxBefore(t, n);
    IdxAfter(t, n);
    Assoc(Before(c), Items(s.l), Items(s.r), After(c));
  }

  lemma Assoc(a: seq<Item>, b: seq<Item>, c: seq<Item>, d: seq<Item>)
    ensures a + b + c + d == (a + b) + (c + d)
  {
  }

  lemma DeletedNodes(t: Tree, n: Node, t': Tree)
    requires n in Nodes(t) && Distinct(t) && Idx(t, n) < |Items(t)| && Items(t') == RemoveAt(Items(t), Idx(t, n))
    ensures Nodes(t') == Nodes(t) - {n}
  {
    IdxItem(t, n);
    ItemsNodes(t);
    ItemsNodes(t');
    RemoveAtNodes(Items(t), Idx(t, n));
  }

  lemma RemoveAtNodes(s: seq<Item>, i: nat)
    requires i < |s| && NoDup(s)
    ensures ItemNodes(RemoveAt(s, i)) == ItemNodes(s) - {s[i].n}
  {
    var r := RemoveAt(s, i);
    forall j | 0 <= j < |s| && j != i ensures s[j].n in ItemNodes(r) {
      var k := if j < i then j else j - 1;
      assert r[k] == s[j];
    }
    forall j | 0 <= j < |r| ensures r[j].n in ItemNodes(s) - {s[i].n} {
      var k := if j < i then j else j + 1;
      assert r[j] == s[k];
    }
  }

  // ----- changing a record in place -----

  /** The same node with another key and payload. */
  function Rewrite(t: Tree, key: int, data: int): Tree
    requires t.T?
  {
    T(t.l, t.e.(key := key, data := data), t.r)
  }

  lemma {:induction false} SkipWeakens(u: Upd, t: Tree, n: Node)
    requires Good(Rule(u, null), t)
    ensures Good(Rule(u, n), t)
  {
    if t.T? {
      SkipWeakens(u, t.l, n);
      SkipWeakens(u, t.r, n);
    }
  }

  /** After a record changed in place, only subtrees with that node can be wrong. */
  lemma {:induction false} RewriteGood(u: Upd, c: Ctx, t: Tree, t': Tree, n: Node)
    requires Good(Rule(u, null), Plug(c, t)) && Good(Rule(u, n), t') && n in Nodes(t')
    ensures Good(Rule(u, n), Plug(c, t'))
  {
    if !c.Top? {
      PlugGoodInv(Rule(u, null), c.up, Fill(c, t));
      SkipWeakens(u, Sib(c), n);
      RewriteGood(u, c.up, Fill(c, t), Fill(c, t'), n);
    }
  }

  /** ... and all of those lie on the way rbt_update goes from the node. */
  lemma {:induction false} SkipOff(u: Upd, t: Tree, n: Node)
    requires Good(Rule(u, n), t) && n in Nodes(t) && Distinct(t)
    ensures OffKids(Rule(u, null), t, n)
  {
    if t.e.n == n {
      NoSkip(u, t.l, n);
      NoSkip(u, t.r, n);
    } else if n in Nodes(t.l) {
      SkipOff(u, t.l, n);
      NoSkip(u, t.r, n);
    } else {
      SkipOff(u, t.r, n);
      NoSkip(u, t.l, n);
    }
  }

  lemma {:induction false} NoSkip(u: Upd, t: Tree, n: Node)
    requires Good(Rule(u, n), t) && n !in Nodes(t)
    ensures Good(Rule(u, null), t)
  {
    if t.T? {
      NoSkip(u, t.l, n);
      NoSkip(u, t.r, n);
    }
  }

  lemma {:induction false} RewriteKeeps(c: Ctx, t: Tree, t': Tree)
    requires t.T? && t'.T? && t'.l == t.l && t'.r == t.r && t'.e.n == t.e.n && t'.e.color == t.e.color
    requires IsRBTree(Plug(c, t))
    ensures IsRBTree(Plug(c, t')) && Nodes(Plug(c, t')) == Nodes(Plug(c, t))
  {
    var k: nat :| RB(Plug(c, t), k);
    var j := PlugRBInv(c, t, k);
    PlugRB(c, t', j);
    PlugNodes(c, t);
    PlugNodes(c, t');
  }

  lemma RewriteItems(t: Tree, n: Node, key: int, data: int)
    requires n in Nodes(t)
    ensures Idx(t, n) < |Items(t)|
    ensures Items(Plug(CtxAt(t, n, Top), Rewrite(SubAt(t, n), key, data))) == Items(t)[Idx(t, n) := Item(n, key, data)]
  {
    var c, s := CtxAt(t, n, Top), SubAt(t, n);
    IdxSplit(t, n);
    var s' := Rewrite(s, key, data);
    PlugItems(c, s');
    assert Items(s') == Items(s.l) + [Item(n, key, data)] + Items(s.r);
    ReplaceMiddle(Before(c), Items(s.l), Item(n, key, data), Items(s.r), After(c), Items(t), Idx(t, n));
  }

  lemma ReplaceMiddle(p: seq<Item>, a: seq<Item>, x: Item, b: seq<Item>, q: seq<Item>, s: seq<Item>, i: nat)
    requires i < |s| && s[..i] == p + a && s[i + 1..] == b + q
    ensures p + (a + [x] + b) + q == s[i := x]
  {
    assert s[i := x] == s[..i] + [x] + s[i + 1..];
  }

  /** A node has one place in the order. */
  lemma IdxUnique(t: Tree, n: Node, i: nat)
    requires Distinct(t) && i < |Items(t)| && Items(t)[i].n == n
    ensures n in Nodes(t) && Idx(t, n) == i
  {
    ItemsNodes(t);
    assert n in ItemNodes(Items(t));
    IdxItem(t, n);
  }
}
