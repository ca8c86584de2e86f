/** Intrusive tree nodes, the trees they form, and positions inside a tree (include/rbt.h). */
module RbtTree {

  datatype Color = Red | Black

  /** struct rbt_node_t together with the fields of the record it is embedded in: the key the
      owner orders by, a payload, and the per-subtree value an rbt_update_func maintains. */
  class Node {
    var color: Color
    var f: Node?
    var l: Node?
    var r: Node?
    var key: int
    var data: int
    var aug: int

    constructor (key: int, data: int)
      ensures this.key == key && this.data == data
    {
      this.key := key;
      this.data := data;
      this.aug := 0;
      this.color := Red;
      this.f, this.l, this.r := null, null, null;
    }
  }

  /** A node and what it holds. */
  datatype Entry = Entry(n: Node, color: Color, key: int, data: int, aug: int)

  datatype Tree = Nil | T(l: Tree, e: Entry, r: Tree)

  /** A position: the way up from a subtree. */
  datatype Ctx = Top | InL(e: Entry, r: Tree, up: Ctx) | InR(l: Tree, e: Entry, up: Ctx)

  function Plug(c: Ctx, t: Tree): Tree {
    match c
    case Top => t
    case InL(e, r, up) => Plug(up, T(t, e, r))
    case InR(l, e, up) => Plug(up, T(l, e, t))
  }

  // ----- the nodes of a tree -----

  function Nodes(t: Tree): set<Node> {
    if t.Nil? then {} else Nodes(t.l) + {t.e.n} + Nodes(t.r)
  }

  function CtxNodes(c: Ctx): set<Node> {
    match c
    case Top => {}
    case InL(e, r, up) => {e.n} + Nodes(r) + CtxNodes(up)
    case InR(l, e, up) => {e.n} + Nodes(l) + CtxNodes(up)
  }

  function Root(t: Tree): Node? { if t.Nil? then null else t.e.n }

  function Par(c: Ctx): Node? { if c.Top? then null else c.e.n }

  /** The pointer in rbt->root when the subtree below c has root pointer hole. */
  function RootPtr(c: Ctx, hole: Node?): Node? {
    match c
    case Top => hole
    case InL(e, _, up) => RootPtr(up, e.n)
    case InR(_, e, up) => RootPtr(up, e.n)
  }

  predicate Distinct(t: Tree) {
    t.T? ==>
      && Distinct(t.l) && Distinct(t.r)
      && t.e.n !in Nodes(t.l) && t.e.n !in Nodes(t.r) && Nodes(t.l) !! Nodes(t.r)
  }

  predicate DistinctCtx(c: Ctx) {
    match c
    case Top => true
    case InL(e, r, up) =>
      && Distinct(r) && DistinctCtx(up) && e.n !in Nodes(r) && e.n !in CtxNodes(up) && Nodes(r) !! CtxNodes(up)
    case InR(l, e, up) =>
      && Distinct(l) && DistinctCtx(up) && e.n !in Nodes(l) && e.n !in CtxNodes(up) && Nodes(l) !! CtxNodes(up)
  }

  predicate Apart(c: Ctx, t: Tree) {
    Distinct(t) && DistinctCtx(c) && Nodes(t) !! CtxNodes(c)
  }

  lemma {:induction false} PlugNodes(c: Ctx, t: Tree)
    ensures Nodes(Plug(c, t)) == Nodes(t) + CtxNodes(c)
    ensures Distinct(Plug(c, t)) <==> Apart(c, t)
    ensures Root(Plug(c, t)) == RootPtr(c, Root(t))
  {
    match c
    case Top =>
    case InL(e, r, up) => PlugNodes(up, T(t, e, r));
    case InR(l, e, up) => PlugNodes(up, T(l, e, t));
  }

  // ----- what the pointers say -----

  datatype Cell = Cell(color: Color, f: Node?, l: Node?, r: Node?, key: int, data: int, aug: int)

  /** What a set of nodes holds at one moment. */
  type Mem = map<Node, Cell>

  ghost function Snap(s: set<Node>): Mem
    reads s
  {
    map n | n in s :: Cell(n.color, n.f, n.l, n.r, n.key, n.data, n.aug)
  }

  function CellOf(e: Entry, f: Node?, l: Node?, r: Node?): Cell { Cell(e.color, f, l, r, e.key, e.data, e.aug) }

  /** Memory m holds tree t, whose root has parent pointer f. */
  predicate Rep(m: Mem, t: Tree, f: Node?) {
    t.T? ==>
      && t.e.n in m && m[t.e.n] == CellOf(t.e, f, Root(t.l), Root(t.r))
      && Rep(m, t.l, t.e.n) && Rep(m, t.r, t.e.n)
  }

  /** Memory m holds the surroundings c of a subtree whose root pointer is hole. */
  predicate RepCtx(m: Mem, c: Ctx, hole: Node?) {
    match c
    case Top => true
    case InL(e, r, up) =>
      && e.n in m && m[e.n] == CellOf(e, Par(up), hole, Root(r))
      && Rep(m, r, e.n) && RepCtx(m, up, e.n)
    case InR(l, e, up) =>
      && e.n in m && m[e.n] == CellOf(e, Par(up), Root(l), hole)
      && Rep(m, l, e.n) && RepCtx(m, up, e.n)
  }

  lemma {:induction false} RepPlug(m: Mem, c: Ctx, t: Tree)
    ensures Rep(m, Plug(c, t), null) <==> Rep(m, t, Par(c)) && RepCtx(m, c, Root(t))
  {
    match c
    case Top =>
    case InL(e, r, up) => RepPlug(m, up, T(t, e, r));
    case InR(l, e, up) => RepPlug(m, up, T(l, e, t));
  }

  predicate Agree(m: Mem, m': Mem, s: set<Node>) {
    forall n :: n in s && n in m ==> n in m' && m'[n] == m[n]
  }

  lemma {:induction false} RepFrame(m: Mem, m': Mem, t: Tree, f: Node?)
    requires Rep(m, t, f) && Agree(m, m', Nodes(t))
    ensures Rep(m', t, f)
  {
    if t.T? {
      RepFrame(m, m', t.l, t.e.n);
      RepFrame(m, m', t.r, t.e.n);
    }
  }

  lemma {:induction false} RepCtxFrame(m: Mem, m': Mem, c: Ctx, hole: Node?)
    requires RepCtx(m, c, hole) && Agree(m, m', CtxNodes(c))
    ensures RepCtx(m', c, hole)
  {
    match c
    case Top =>
    case InL(e, r, up) =>
      RepFrame(m, m', r, e.n);
      RepCtxFrame(m, m', up, e.n);
    case InR(l, e, up) =>
      RepFrame(m, m', l, e.n);
      RepCtxFrame(m, m', up, e.n);
  }

  /** Memory m, with root pointer root, holds subtree t in surroundings c. */
  predicate Focus(m: Mem, root: Node?, c: Ctx, t: Tree) {
    Apart(c, t) && root == RootPtr(c, Root(t)) && Rep(m, t, Par(c)) && RepCtx(m, c, Root(t))
  }

  lemma Refocus(m: Mem, root: Node?, c: Ctx, t: Tree, c': Ctx, t': Tree)
    requires Focus(m, root, c, t) && Plug(c, t) == Plug(c', t')
    ensures Focus(m, root, c', t')
  {
    PlugNodes(c, t); PlugNodes(c', t');
    RepPlug(m, c, t); RepPlug(m, c', t');
  }

  // ----- rotation -----

  /** Everything outside s is as it was. */
  predicate OnlyChanges(m: Mem, m': Mem, s: set<Node?>) {
    m'.Keys == m.Keys && forall n :: n in m && n !in s ==> m'[n] == m[n]
  }

  /** The child pointer of the parent that led to node now leads to node'. */
  predicate Relinked(m: Mem, m': Mem, root: Node?, root': Node?, f: Node?, node: Node, node': Node?) {
    if f == null then root' == node'
    else
      && root' == root && f in m && f in m'
      && m'[f] == (if m[f].l == node then m[f].(l := node') else m[f].(r := node'))
  }

  lemma RelinkedCtx(m: Mem, m': Mem, root: Node?, root': Node?, c: Ctx, node: Node, node': Node?)
    requires DistinctCtx(c) && RepCtx(m, c, node) && node !in CtxNodes(c)
    requires root == RootPtr(c, node)
    requires Relinked(m, m', root, root', Par(c), node, node')
    requires Agree(m, m', CtxNodes(c) - {Par(c)})
    ensures RepCtx(m', c, node') && root' == RootPtr(c, node')
  {
    match c
    case Top =>
    case InL(e, r, up) =>
      RepFrame(m, m', r, e.n);
      RepCtxFrame(m, m', up, e.n);
    case InR(l, e, up) =>
      RepFrame(m, m', l, e.n);
      RepCtxFrame(m, m', up, e.n);
  }

  /** Hanging a subtree below another parent. */
  lemma RepMoved(m: Mem, m': Mem, t: Tree, f: Node?, f': Node?)
    requires Rep(m, t, f) && Distinct(t) && Agree(m, m', Nodes(t) - {Root(t)})
    requires t.T? ==> t.e.n in m' && m'[t.e.n] == m[t.e.n].(f := f')
    ensures Rep(m', t, f')
  {
    if t.T? {
      RepFrame(m, m', t.l, t.e.n);
      RepFrame(m, m', t.r, t.e.n);
    }
  }

  /** The cells a left rotation touches. */
  lemma BeforeRotateLeft(m: Mem, root: Node?, c: Ctx, a: Tree, x: Entry, b: Tree, y: Entry, z: Tree)
    requires Focus(m, root, c, T(a, x, T(b, y, z)))
    ensures x.n in m && m[x.n].r == y.n && m[x.n].f == Par(c)
    ensures y.n in m && y.n != x.n && m[y.n].l == Root(b)
    ensures b.T? ==> b.e.n in m && b.e.n != x.n && b.e.n != y.n
    ensures !c.Top? ==> c.e.n in m && c.e.n != x.n && c.e.n != y.n && c.e.n != Root(b)
  {
    assert Rep(m, T(b, y, z), x.n) && Distinct(T(b, y, z));
    assert Rep(m, b, y.n);
  }

  lemma RotatedLeft(m: Mem, m': Mem, root: Node?, root': Node?, c: Ctx, a: Tree, x: Entry, b: Tree, y: Entry, z: Tree)
    requires Focus(m, root, c, T(a, x, T(b, y, z)))
    requires OnlyChanges(m, m', {x.n, y.n, Root(b), Par(c)})
    requires m'[x.n] == m[x.n].(r := Root(b), f := y.n)
    requires y.n in m && m'[y.n] == m[y.n].(l := x.n, f := Par(c))
    requires b.T? ==> b.e.n in m && m'[b.e.n] == m[b.e.n].(f := x.n)
    requires Relinked(m, m', root, root', Par(c), x.n, y.n)
    ensures Focus(m', root', c, T(T(a, x, b), y, z))
  {
    var t := T(b, y, z);
    assert Rep(m, t, x.n) && Distinct(t);
    RepFrame(m, m', a, x.n);
    RepFrame(m, m', z, y.n);
    RepMoved(m, m', b, y.n, x.n);
    RelinkedCtx(m, m', root, root', c, x.n, y.n);
    assert Rep(m', T(a, x, b), y.n) && Distinct(T(a, x, b));
  }

  /** The cells a right rotation touches. */
  lemma BeforeRotateRight(m: Mem, root: Node?, c: Ctx, a: Tree, x: Entry, b: Tree, y: Entry, z: Tree)
    requires Focus(m, root, c, T(T(a, x, b), y, z))
    ensures y.n in m && m[y.n].l == x.n && m[y.n].f == Par(c)
    ensures x.n in m && x.n != y.n && m[x.n].r == Root(b)
    ensures b.T? ==> b.e.n in m && b.e.n != x.n && b.e.n != y.n
    ensures !c.Top? ==> c.e.n in m && c.e.n != x.n && c.e.n != y.n && c.e.n != Root(b)
  {
    assert Rep(m, T(a, x, b), y.n) && Distinct(T(a, x, b));
    assert Rep(m, b, x.n);
  }

  lemma RotatedRight(m: Mem, m': Mem, root: Node?, root': Node?, c: Ctx, a: Tree, x: Entry, b: Tree, y: Entry, z: Tree)
    requires Focus(m, root, c, T(T(a, x, b), y, z))
    requires OnlyChanges(m, m', {x.n, y.n, Root(b), Par(c)})
    requires m'[y.n] == m[y.n].(l := Root(b), f := x.n)
    requires x.n in m && m'[x.n] == m[x.n].(r := y.n, f := Par(c))
    requires b.T? ==> b.e.n in m && m'[b.e.n] == m[b.e.n].(f := y.n)
    requires Relinked(m, m', root, root', Par(c), y.n, x.n)
    ensures Focus(m', root', c, T(a, x, T(b, y, z)))
  {
    var t := T(a, x, b);
    assert Rep(m, t, y.n) && Distinct(t);
    RepFrame(m, m', a, x.n);
    RepFrame(m, m', z, y.n);
    RepMoved(m, m', b, x.n, y.n);
    RelinkedCtx(m, m', root, root', c, y.n, x.n);
    assert Rep(m', T(b, y, z), x.n) && Distinct(T(b, y, z));
  }

  // ----- single writes -----

  /** A node's own fields may change without disturbing the links. */
  lemma Rewritten(m: Mem, m': Mem, root: Node?, c: Ctx, t: Tree, e: Entry)
    requires Focus(m, root, c, t) && t.T? && e.n == t.e.n
    requires OnlyChanges(m, m', {e.n}) && e.n in m
    requires m'[e.n] == m[e.n].(color := e.color, key := e.key, data := e.data, aug := e.aug)
    ensures Focus(m', root, c, T(t.l, e, t.r))
  {
    RepFrame(m, m', t.l, t.e.n);
    RepFrame(m, m', t.r, t.e.n);
    RepCtxFrame(m, m', c, t.e.n);
  }

  /** What the node at a position and the node above it hold. */
  lemma Look(m: Mem, root: Node?, c: Ctx, t: Tree)
    requires Focus(m, root, c, t)
    ensures t.T? ==> t.e.n in m && m[t.e.n] == CellOf(t.e, Par(c), Root(t.l), Root(t.r))
    ensures t.T? && t.l.T? ==> t.l.e.n in m && m[t.l.e.n].color == t.l.e.color
    ensures t.T? && t.r.T? ==> t.r.e.n in m && m[t.r.e.n].color == t.r.e.color
    ensures !c.Top? ==>
              && c.e.n in m && c.e.n != Root(t)
              && m[c.e.n] == if c.InL? then CellOf(c.e, Par(c.up), Root(t), Root(c.r)) else CellOf(c.e, Par(c.up), Root(c.l), Root(t))
    ensures c.InL? && t.T? ==> Root(c.r) != t.e.n
    ensures c.InR? && t.T? ==> Root(c.l) != t.e.n
    ensures c.Top? <==> root == Root(t)
  {
    if t.T? {
      assert Rep(m, t.l, t.e.n) && Rep(m, t.r, t.e.n);
    }
    RootPtrIn(c, Root(t));
  }

  lemma {:induction false} RootPtrIn(c: Ctx, hole: Node?)
    ensures !c.Top? ==> RootPtr(c, hole) != null && RootPtr(c, hole) in CtxNodes(c)
  {
    if !c.Top? { RootPtrIn(c.up, c.e.n); }
  }

  // ----- taking a node out -----

  /** A node with at most one child is replaced by that child. */
  lemma SplicedOut(m: Mem, m': Mem, root: Node?, root': Node?, c: Ctx, t: Tree, x: Tree)
    requires Focus(m, root, c, t) && t.T?
    requires (t.l.Nil? && x == t.r) || (t.r.Nil? && x == t.l)
    requires OnlyChanges(m, m', {Root(x), Par(c)})
    requires x.T? ==> x.e.n in m && m'[x.e.n] == m[x.e.n].(f := Par(c))
    requires Relinked(m, m', root, root', Par(c), t.e.n, Root(x))
    ensures Focus(m', root', c, x)
  {
    RepMoved(m, m', x, t.e.n, Par(c));
    RelinkedCtx(m, m', root, root', c, t.e.n, Root(x));
  }

  /** t without its first node. */
  function RemoveMin(t: Tree): Tree
    requires t.T?
  {
    if t.l.Nil? then t.r else T(RemoveMin(t.l), t.e, t.r)
  }

  function MinTree(t: Tree): (s: Tree)
    requires t.T?
    ensures s.T? && s.l.Nil?
  {
    if t.l.Nil? then t else MinTree(t.l)
  }

  /** The parent of the first node. */
  function MinParent(t: Tree): Node
    requires t.T? && t.l.T?
  {
    if t.l.l.Nil? then t.e.n else MinParent(t.l)
  }

  lemma {:induction false} MinNodes(t: Tree)
    requires t.T? && Distinct(t)
    ensures Nodes(MinTree(t)) <= Nodes(t) && Distinct(MinTree(t))
    ensures Nodes(RemoveMin(t)) == Nodes(t) - {MinTree(t).e.n} && Distinct(RemoveMin(t))
    ensures t.l.T? ==> MinParent(t) in Nodes(t) && MinParent(t) !in Nodes(MinTree(t))
    ensures t.l.T? ==> t.e.n !in Nodes(MinTree(t))
  {
    if t.l.T? { MinNodes(t.l); }
  }

  /** What the first node and its parent hold. */
  lemma {:induction false} MinCells(m: Mem, t: Tree, f: Node?)
    requires t.T? && Rep(m, t, f)
    ensures var y := MinTree(t);
            && Rep(m, y, if t.l.T? then MinParent(t) else f)
            && (t.l.T? ==> MinParent(t) in m && m[MinParent(t)].l == y.e.n)
  {
    if t.l.T? { MinCells(m, t.l, t.e.n); }
  }

  /** The first node is unhooked: its parent takes its right child. */
  lemma {:induction false} MinUnhooked(m: Mem, m': Mem, t: Tree, f: Node?)
    requires t.T? && t.l.T? && Rep(m, t, f) && Distinct(t)
    requires var y := MinTree(t);
             && Agree(m, m', Nodes(t) - {y.e.n, MinParent(t), Root(y.r)})
             && MinParent(t) in m && MinParent(t) in m' && m'[MinParent(t)] == m[MinParent(t)].(l := Root(y.r))
             && (y.r.T? ==> y.r.e.n in m && y.r.e.n in m' && m'[y.r.e.n] == m[y.r.e.n].(f := MinParent(t)))
    ensures Rep(m', RemoveMin(t), f)
  {
    var y := MinTree(t);
    MinNodes(t.l);
    assert Nodes(y.r) <= Nodes(y) && y.e.n in Nodes(y);
    RepFrame(m, m', t.r, t.e.n);
    if t.l.l.Nil? {
      assert y == t.l && Rep(m, y, t.e.n) && Distinct(y);
      RepMoved(m, m', y.r, y.e.n, t.e.n);
    } else {
      MinUnhooked(m, m', t.l, t.e.n);
    }
  }

  /** The cells after the first node y of the right subtree has taken the place of the root of t. */
  predicate Replaced(m: Mem, m': Mem, root: Node?, root': Node?, c: Ctx, t: Tree)
    requires t.T? && t.l.T? && t.r.T?
  {
    var y := MinTree(t.r);
    var p := if t.r.l.T? then MinParent(t.r) else y.e.n;
    && OnlyChanges(m, m', {Par(c), y.e.n, t.l.e.n} + (if t.r.l.T? then {t.r.e.n, p, Root(y.r)} else {}))
    && Relinked(m, m', root, root', Par(c), t.e.n, y.e.n)
    && y.e.n in m && m'[y.e.n] == CellOf(y.e.(color := t.e.color), Par(c), t.l.e.n, if t.r.l.T? then t.r.e.n else Root(y.r))
    && t.l.e.n in m && m'[t.l.e.n] == m[t.l.e.n].(f := y.e.n)
    && (t.r.l.T? ==>
          && p in m && t.r.e.n in m
          && m'[p] == (if p == t.r.e.n then m[p].(l := Root(y.r), f := y.e.n) else m[p].(l := Root(y.r)))
          && (p != t.r.e.n ==> m'[t.r.e.n] == m[t.r.e.n].(f := y.e.n))
          && (y.r.T? ==> y.r.e.n in m && m'[y.r.e.n] == m[y.r.e.n].(f := p)))
  }

  lemma ReplacedRight(m: Mem, m': Mem, root: Node?, root': Node?, c: Ctx, t: Tree)
    requires Focus(m, root, c, t) && t.T? && t.l.T? && t.r.T? && Replaced(m, m', root, root', c, t)
    ensures Rep(m', RemoveMin(t.r), MinTree(t.r).e.n)
  {
    var r, y := t.r, MinTree(t.r);
    MinNodes(r);
    assert Nodes(y) == {y.e.n} + Nodes(y.r) && y.e.n !in Nodes(y.r);
    if r.l.Nil? {
      assert Rep(m, y, t.e.n);
      RepFrame(m, m', y.r, y.e.n);
    } else {
      // the memory with the right subtree still below its old parent
      var m1 := m'[r.e.n := m'[r.e.n].(f := t.e.n)];
      assert Rep(m, r, t.e.n);
      MinUnhooked(m, m1, r, t.e.n);
      assert RemoveMin(r).e.n == r.e.n;
      RepMoved(m1, m', RemoveMin(r), t.e.n, y.e.n);
    }
  }

  lemma SuccessorMoved(m: Mem, m': Mem, root: Node?, root': Node?, c: Ctx, t: Tree)
    requires Focus(m, root, c, t) && t.T? && t.l.T? && t.r.T? && Replaced(m, m', root, root', c, t)
    ensures Focus(m', root', InR(t.l, MinTree(t.r).e.(color := t.e.color), c), RemoveMin(t.r))
  {
    var r, y := t.r, MinTree(t.r);
    MinNodes(r);
    ReplacedRight(m, m', root, root', c, t);
    assert y.e.n in Nodes(y) && Root(y.r) in {null} + Nodes(y);
    RepMoved(m, m', t.l, t.e.n, y.e.n);
    RelinkedCtx(m, m', root, root', c, t.e.n, y.e.n);
    assert Root(RemoveMin(r)) == if r.l.T? then r.e.n else Root(y.r);
  }

  // ----- linking a new leaf -----

  /** rb_link_node at an empty position. */
  lemma Linked(m: Mem, m': Mem, root: Node?, root': Node?, c: Ctx, e: Entry)
    requires Focus(m, root, c, Nil) && e.n !in CtxNodes(c)
    requires Agree(m, m', CtxNodes(c) - {Par(c)})
    requires e.n in m' && m'[e.n] == CellOf(e, Par(c), null, null)
    requires if c.Top? then root' == e.n
             else root' == root && c.e.n in m && c.e.n in m' &&
                  m'[c.e.n] == if c.InL? then m[c.e.n].(l := e.n) else m[c.e.n].(r := e.n)
    ensures Focus(m', root', c, T(Nil, e, Nil))
  {
    match c
    case Top =>
    case InL(p, s, up) =>
      RepFrame(m, m', s, p.n);
      RepCtxFrame(m, m', up, p.n);
    case InR(s, p, up) =>
      RepFrame(m, m', s, p.n);
      RepCtxFrame(m, m', up, p.n);
  }

  /** Forgetting the nodes outside a tree. */
  lemma FocusRestrict(m: Mem, m': Mem, root: Node?, t: Tree)
    requires Focus(m, root, Top, t) && Agree(m, m', Nodes(t))
    ensures Focus(m', root, Top, t)
  {
    RepFrame(m, m', t, null);
  }
}
