/** The tree on the heap: its pointer-changing operations (lib/rbt.c). */
module RbtHeap {
  import opened RbtTree
  import opened RbtBalance
  import opened RbtAugment

  /** struct rbt_t */
  class Rbt {
    var root: Node?
    ghost var nodes: set<Node>
    ghost var tree: Tree

    /** The nodes on the heap form the tree, and the tree is red-black. */
    ghost predicate Valid()
      reads this, nodes
    {
      nodes == Nodes(tree) && Focus(Snap(nodes), root, Top, tree) && IsRBTree(tree)
    }

    /** rbt_init */
    constructor ()
      ensures Valid() && tree == Nil && nodes == {}
    {
      root := null;
      nodes := {};
      tree := Nil;
      new;
      assert RB(Nil, 0);
    }

    /** The pointer writes of rotate_left. */
    method SwingLeft(node: Node)
      requires node.r != null && node.r != node
      requires node.r.l != null ==> node.r.l != node && node.r.l != node.r
      requires node.f != null ==> node.f != node && node.f != node.r && node.f != node.r.l
      modifies this`root, node`r, node`f, node.r`f, node.r`l
      modifies (if node.r.l != null then {node.r.l} else {})`f
      modifies (if node.f != null then {node.f} else {})`l
      modifies (if node.f != null then {node.f} else {})`r
      ensures node.r == old(node.r.l) && node.f == old(node.r)
      ensures old(node.r).f == old(node.f) && old(node.r).l == node
      ensures old(node.r.l) != null ==> old(node.r.l).f == node
      ensures old(node.f) != null ==>
                && root == old(root)
                && old(node.f).l == (if old(node.f.l) == node then old(node.r) else old(node.f.l))
                && old(node.f).r == (if old(node.f.l) == node then old(node.f.r) else old(node.r))
      ensures old(node.f) == null ==> root == old(node.r)
    {
      var r := node.r;
      var f := node.f;
      node.r := r.l;
      if r.l != null {
        r.l.f := node;
      }
      node.f := r;
      r.f := f;
      r.l := node;
      if f != null {
        if node == f.l {
          f.l := r;
        } else {
          f.r := r;
        }
      } else {
        root := r;
      }
    }

    /** The pointer writes of rotate_right. */
    method SwingRight(node: Node)
      requires node.l != null && node.l != node
      requires node.l.r != null ==> node.l.r != node && node.l.r != node.l
      requires node.f != null ==> node.f != node && node.f != node.l && node.f != node.l.r
      modifies this`root, node`l, node`f, node.l`f, node.l`r
      modifies (if node.l.r != null then {node.l.r} else {})`f
      modifies (if node.f != null then {node.f} else {})`l
      modifies (if node.f != null then {node.f} else {})`r
      ensures node.l == old(node.l.r) && node.f == old(node.l)
      ensures old(node.l).f == old(node.f) && old(node.l).r == node
      ensures old(node.l.r) != null ==> old(node.l.r).f == node
      ensures old(node.f) != null ==>
                && root == old(root)
                && old(node.f).l == (if old(node.f.l) == node then old(node.l) else old(node.f.l))
                && old(node.f).r == (if old(node.f.l) == node then old(node.f.r) else old(node.l))
      ensures old(node.f) == null ==> root == old(node.l)
    {
      var l := node.l;
      var f := node.f;
      node.l := l.r;
      if l.r != null {
        l.r.f := node;
      }
      node.f := l;
      l.f := f;
      l.r := node;
      if f != null {
        if node == f.l {
          f.l := l;
        } else {
          f.r := l;
        }
      } else {
        root := l;
      }
    }

    /** rotate_left at position c. */
    method RotateLeft(node: Node, ghost c: Ctx, ghost a: Tree, ghost x: Entry, ghost b: Tree, ghost y: Entry, ghost z: Tree)
      requires Focus(Snap(nodes), root, c, T(a, x, T(b, y, z))) && x.n == node
      modifies this`root, nodes`f, nodes`l, nodes`r
      ensures Focus(Snap(nodes), root, c, T(T(a, x, b), y, z))
    {
      ghost var m := Snap(nodes);
      BeforeRotateLeft(m, root, c, a, x, b, y, z);
      SwingLeft(node);
      RotatedLeft(m, Snap(nodes), old(root), root, c, a, x, b, y, z);
    }

    /** rotate_right at position c. */
    method RotateRight(node: Node, ghost c: Ctx, ghost a: Tree, ghost x: Entry, ghost b: Tree, ghost y: Entry, ghost z: Tree)
      requires Focus(Snap(nodes), root, c, T(T(a, x, b), y, z)) && y.n == node
      modifies this`root, nodes`f, nodes`l, nodes`r
      ensures Focus(Snap(nodes), root, c, T(a, x, T(b, y, z)))
    {
      ghost var m := Snap(nodes);
      BeforeRotateRight(m, root, c, a, x, b, y, z);
      SwingRight(node);
      RotatedRight(m, Snap(nodes), old(root), root, c, a, x, b, y, z);
    }

    /** node->color = k at position c. */
    method SetColor(node: Node, k: Color, ghost c: Ctx, ghost t: Tree)
      requires Focus(Snap(nodes), root, c, t) && t.T? && t.e.n == node
      modifies nodes`color
      ensures Focus(Snap(nodes), root, c, T(t.l, Paint(t.e, k), t.r))
    {
      ghost var m := Snap(nodes);
      Look(m, root, c, t);
      node.color := k;
      Rewritten(m, Snap(nodes), root, c, t, Paint(t.e, k));
    }

    /** The same, seen from one level below: the parent of the subtree t is painted. */
    method SetParentColor(node: Node, k: Color, ghost c: Ctx, ghost t: Tree)
      requires Focus(Snap(nodes), root, c, t) && !c.Top? && c.e.n == node
      modifies nodes`color
      ensures Focus(Snap(nodes), root, PaintCtx(c, k), t)
    {
      Refocus(Snap(nodes), root, c, t, c.up, Fill(c, t));
      SetColor(node, k, c.up, Fill(c, t));
      Refocus(Snap(nodes), root, c.up, Fill(PaintCtx(c, k), t), PaintCtx(c, k), t);
    }

    /** The same for the sibling of the subtree t. */
    method SetSiblingColor(node: Node, k: Color, ghost c: Ctx, ghost t: Tree)
      requires Focus(Snap(nodes), root, c, t) && !c.Top? && Sib(c).T? && Sib(c).e.n == node
      modifies nodes`color
      ensures var s := Sib(c); Focus(Snap(nodes), root, WithSib(c, T(s.l, Paint(s.e, k), s.r)), t)
    {
      ghost var s := Sib(c);
      ghost var c' := if c.InL? then InR(t, c.e, c.up) else InL(c.e, t, c.up);
      ghost var s' := T(s.l, Paint(s.e, k), s.r);
      Refocus(Snap(nodes), root, c, t, c', s);
      SetColor(node, k, c', s);
      Refocus(Snap(nodes), root, c', s', WithSib(c, s'), t);
    }

    // ----- insertion -----

    /** The red-uncle step of rbt_insert_color; the grandparent is the next node to look at. */
    method RecolorUncle(f: Node, g: Node, uncle: Node, ghost c: Ctx, ghost t: Tree)
      requires Focus(Snap(nodes), root, c, t) && !c.Top? && !c.up.Top? && Sib(c.up).T?
      requires c.e.n == f && c.up.e.n == g && Sib(c.up).e.n == uncle
      modifies nodes`color
      ensures Focus(Snap(nodes), root, c.up.up, Recolored(c, t))
    {
      Refocus(Snap(nodes), root, c, t, c.up, Fill(c, t));
      SetSiblingColor(uncle, Black, c.up, Fill(c, t));
      ghost var d := WithSib(c.up, Blacken(Sib(c.up)));
      SetColor(f, Black, d, Fill(c, t));
      ghost var t' := Fill(PaintCtx(c, Black), t);
      SetParentColor(g, Red, d, t');
      Refocus(Snap(nodes), root, PaintCtx(d, Red), t', c.up.up, Recolored(c, t));
    }

    /** rotate_left(f) when the node is an inner grandchild: node and parent change places. */
    method StraightenLeft(f: Node, ghost c: Ctx, ghost t: Tree) returns (ghost c': Ctx, ghost t': Tree)
      requires Focus(Snap(nodes), root, c, t) && t.T? && c.InR? && c.e.n == f && c.up.InL?
      modifies this`root, nodes`f, nodes`l, nodes`r
      ensures Focus(Snap(nodes), root, c', t') && t'.T? && t'.e.n == f
      ensures c'.InL? && c'.e == t.e && c'.up == c.up && Turned(c', t') == Turned(c, t)
    {
      Refocus(Snap(nodes), root, c, t, c.up, T(c.l, c.e, T(t.l, t.e, t.r)));
      RotateLeft(f, c.up, c.l, c.e, t.l, t.e, t.r);
      c', t' := InL(t.e, t.r, c.up), T(c.l, c.e, t.l);
      Refocus(Snap(nodes), root, c.up, T(t', t.e, t.r), c', t');
    }

    method StraightenRight(f: Node, ghost c: Ctx, ghost t: Tree) returns (ghost c': Ctx, ghost t': Tree)
      requires Focus(Snap(nodes), root, c, t) && t.T? && c.InL? && c.e.n == f && c.up.InR?
      modifies this`root, nodes`f, nodes`l, nodes`r
      ensures Focus(Snap(nodes), root, c', t') && t'.T? && t'.e.n == f
      ensures c'.InR? && c'.e == t.e && c'.up == c.up && Turned(c', t') == Turned(c, t)
    {
      Refocus(Snap(nodes), root, c, t, c.up, T(T(t.l, t.e, t.r), c.e, c.r));
      RotateRight(f, c.up, t.l, t.e, t.r, c.e, c.r);
      c', t' := InR(t.l, t.e, c.up), T(t.r, c.e, c.r);
      Refocus(Snap(nodes), root, c.up, T(t.l, t.e, t'), c', t');
    }

    /** Parent black, grandparent red. */
    method PaintAbove(f: Node, g: Node, ghost c: Ctx, ghost t: Tree)
      requires Focus(Snap(nodes), root, c, t) && !c.Top? && c.e.n == f && !c.up.Top? && c.up.e.n == g
      modifies nodes`color
      ensures Focus(Snap(nodes), root, c.up.up, Fill(PaintCtx(c.up, Red), Fill(PaintCtx(c, Black), t)))
    {
      SetParentColor(f, Black, c, t);
      ghost var s := Fill(PaintCtx(c, Black), t);
      Refocus(Snap(nodes), root, PaintCtx(c, Black), t, c.up, s);
      SetParentColor(g, Red, c.up, s);
      Refocus(Snap(nodes), root, PaintCtx(c.up, Red), s, c.up.up, Fill(PaintCtx(c.up, Red), s));
    }

    /** The black-uncle step with an outer grandchild on the left. */
    method TurnOuterLeft(f: Node, g: Node, ghost c: Ctx, ghost t: Tree) returns (ghost c': Ctx)
      requires Focus(Snap(nodes), root, c, t) && t.T? && c.InL? && c.e.n == f && c.up.InL? && c.up.e.n == g
      modifies this`root, nodes`color, nodes`f, nodes`l, nodes`r
      ensures Focus(Snap(nodes), root, c', t) && Plug(c', t) == Plug(c.up.up, Turned(c, t))
      ensures !c'.Top? && c'.e.color == Black && c'.up == c.up.up
    {
      ghost var fe, ge := Paint(c.e, Black), Paint(c.up.e, Red);
      PaintAbove(f, g, c, t);
      RotateRight(g, c.up.up, t, fe, c.r, ge, c.up.r);
      c' := InL(fe, T(c.r, ge, c.up.r), c.up.up);
      Refocus(Snap(nodes), root, c.up.up, Turned(c, t), c', t);
    }

    method TurnOuterRight(f: Node, g: Node, ghost c: Ctx, ghost t: Tree) returns (ghost c': Ctx)
      requires Focus(Snap(nodes), root, c, t) && t.T? && c.InR? && c.e.n == f && c.up.InR? && c.up.e.n == g
      modifies this`root, nodes`color, nodes`f, nodes`l, nodes`r
      ensures Focus(Snap(nodes), root, c', t) && Plug(c', t) == Plug(c.up.up, Turned(c, t))
      ensures !c'.Top? && c'.e.color == Black && c'.up == c.up.up
    {
      ghost var fe, ge := Paint(c.e, Black), Paint(c.up.e, Red);
      PaintAbove(f, g, c, t);
      RotateLeft(g, c.up.up, c.up.l, ge, c.l, fe, t);
      c' := InR(T(c.up.l, ge, c.l), fe, c.up.up);
      Refocus(Snap(nodes), root, c.up.up, Turned(c, t), c', t);
    }

    /** The black-uncle case, the parent a left child. */
    method TurnLeft(node: Node, f: Node, g: Node, ghost c: Ctx, ghost t: Tree)
      returns (node': Node, ghost c': Ctx, ghost t': Tree)
      requires Focus(Snap(nodes), root, c, t) && t.T? && t.e.n == node && !c.Top? && c.e.n == f
      requires c.up.InL? && c.up.e.n == g && (f.r == node <==> c.InR?)
      modifies this`root, nodes`color, nodes`f, nodes`l, nodes`r
      ensures Focus(Snap(nodes), root, c', t') && t'.T? && t'.e.n == node'
      ensures Plug(c', t') == Plug(c.up.up, Turned(c, t))
      ensures !c'.Top? && c'.e.color == Black && c'.up == c.up.up
    {
      var p := f;
      node', c', t' := node, c, t;
      if f.r == node {
        c', t' := StraightenLeft(f, c, t);
        p, node' := node, f;
      }
      c' := TurnOuterLeft(p, g, c', t');
    }

    /** The black-uncle case, the parent a right child. */
    method TurnRight(node: Node, f: Node, g: Node, ghost c: Ctx, ghost t: Tree)
      returns (node': Node, ghost c': Ctx, ghost t': Tree)
      requires Focus(Snap(nodes), root, c, t) && t.T? && t.e.n == node && !c.Top? && c.e.n == f
      requires c.up.InR? && c.up.e.n == g && (f.l == node <==> c.InL?)
      modifies this`root, nodes`color, nodes`f, nodes`l, nodes`r
      ensures Focus(Snap(nodes), root, c', t') && t'.T? && t'.e.n == node'
      ensures Plug(c', t') == Plug(c.up.up, Turned(c, t))
      ensures !c'.Top? && c'.e.color == Black && c'.up == c.up.up
    {
      var p := f;
      node', c', t' := node, c, t;
      if f.l == node {
        c', t' := StraightenRight(f, c, t);
        p, node' := node, f;
      }
      c' := TurnOuterRight(p, g, c', t');
    }

    /** The pointers one round looks at. */
    ghost predicate RoundView(node: Node, f: Node, g: Node, uncle: Node?, c: Ctx)
      requires !c.Top? && !c.up.Top?
      reads node, f, g, uncle
    {
      && c.e.n == f && c.up.e.n == g
      && node.f == f && f.f == g && (f == g.l <==> c.up.InL?)
      && (f.r == node <==> c.InR?) && (f.l == node <==> c.InL?)
      && uncle == Root(Sib(c.up)) && uncle == (if c.up.InL? then g.r else g.l)
      && (uncle != null ==> uncle.color == Sib(c.up).e.color)
    }

    lemma RoundViewHolds(node: Node, c: Ctx, t: Tree)
      requires Focus(Snap(nodes), root, c, t) && t.T? && t.e.n == node && !c.Top? && !c.up.Top?
      ensures node in nodes && c.e.n in nodes && c.up.e.n in nodes
      ensures Root(Sib(c.up)) == null || Root(Sib(c.up)) in nodes
      ensures RoundView(node, c.e.n, c.up.e.n, Root(Sib(c.up)), c)
    {
      var m := Snap(nodes);
      Look(m, root, c, t);
      Refocus(m, root, c, t, c.up, Fill(c, t));
      Look(m, root, c.up, Fill(c, t));
      assert RepCtx(m, c.up, c.e.n) && Rep(m, Sib(c.up), c.up.e.n);
    }

    /** One round of the loop of rbt_insert_color, for a node with a red parent. */
    method InsertStep(node: Node, ghost c: Ctx, ghost t: Tree) returns (node': Node, ghost c': Ctx, ghost t': Tree)
      requires Focus(Snap(nodes), root, c, t) && t.T? && t.e.n == node && RedsNested(c) && !c.Top? && c.e.color == Red
      modifies this`root, nodes`color, nodes`f, nodes`l, nodes`r
      ensures Focus(Snap(nodes), root, c', t') && t'.T? && t'.e.n == node'
      ensures RedsNested(c') && InsertFix(c', t') == InsertFix(c, t) && Depth(c') < Depth(c)
    {
      RoundViewHolds(node, c, t);
      assert RedsNested(c.up) && RedsNested(c.up.up);
      var f := node.f;
      var g := f.f;
      if f == g.l {
        var u := g.r;
        if u != null && u.color == Red {
          RecolorUncle(f, g, u, c, t);
          node', c', t' := g, c.up.up, Recolored(c, t);
        } else {
          node', c', t' := TurnLeft(node, f, g, c, t);
        }
      } else {
        var u := g.l;
        if u != null && u.color == Red {
          RecolorUncle(f, g, u, c, t);
          node', c', t' := g, c.up.up, Recolored(c, t);
        } else {
          node', c', t' := TurnRight(node, f, g, c, t);
        }
      }
    }

    /** rbt_insert_color */
    method InsertColor(node: Node, ghost c: Ctx, ghost t: Tree)
      requires Focus(Snap(nodes), root, c, t) && t.T? && t.e.n == node && RedsNested(c)
      modifies this`root, nodes`color, nodes`f, nodes`l, nodes`r
      ensures Focus(Snap(nodes), root, Top, InsertFix(c, Redden(t)))
    {
      SetColor(node, Red, c, t);
      var n := node;
      ghost var d, s := c, Redden(t);
      Look(Snap(nodes), root, d, s);
      while n.f != null && n.f.color == Red
        invariant Focus(Snap(nodes), root, d, s) && s.T? && s.e.n == n && RedsNested(d)
        invariant n.f == Par(d) && (!d.Top? ==> n.f.color == d.e.color)
        invariant InsertFix(d, s) == InsertFix(c, Redden(t))
        decreases Depth(d)
      {
        n, d, s := InsertStep(n, d, s);
        Look(Snap(nodes), root, d, s);
      }
      Refocus(Snap(nodes), root, d, s, Top, Plug(d, s));
      PlugNodes(d, s);
      SetColor(root, Black, Top, Plug(d, s));
    }

    // ----- deletion: rebalancing -----

    /** Sibling black, parent red, before the rotation that lifts a red sibling. */
    method PaintForLift(other: Node, parent: Node, ghost c: Ctx, ghost t: Tree)
      requires Focus(Snap(nodes), root, c, t) && !c.Top? && c.e.n == parent && Sib(c).T? && Sib(c).e.n == other
      modifies nodes`color
      ensures Focus(Snap(nodes), root, c.up, Fill(PaintCtx(WithSib(c, Blacken(Sib(c))), Red), t))
    {
      SetSiblingColor(other, Black, c, t);
      ghost var d := WithSib(c, Blacken(Sib(c)));
      SetParentColor(parent, Red, d, t);
      Refocus(Snap(nodes), root, PaintCtx(d, Red), t, c.up, Fill(PaintCtx(d, Red), t));
    }

    method LiftLeft(other: Node, parent: Node, ghost c: Ctx, ghost t: Tree)
      requires Focus(Snap(nodes), root, c, t) && c.InL? && c.e.n == parent && c.r.T? && c.r.e.n == other
      modifies this`root, nodes`color, nodes`f, nodes`l, nodes`r
      ensures Focus(Snap(nodes), root, Lifted(c), t)
    {
      ghost var o, oe, pe := c.r, Paint(c.r.e, Black), Paint(c.e, Red);
      PaintForLift(other, parent, c, t);
      RotateLeft(parent, c.up, t, pe, o.l, oe, o.r);
      Refocus(Snap(nodes), root, c.up, T(T(t, pe, o.l), oe, o.r), Lifted(c), t);
    }

    method LiftRight(other: Node, parent: Node, ghost c: Ctx, ghost t: Tree)
      requires Focus(Snap(nodes), root, c, t) && c.InR? && c.e.n == parent && c.l.T? && c.l.e.n == other
      modifies this`root, nodes`color, nodes`f, nodes`l, nodes`r
      ensures Focus(Snap(nodes), root, Lifted(c), t)
    {
      ghost var o, oe, pe := c.l, Paint(c.l.e, Black), Paint(c.e, Red);
      PaintForLift(other, parent, c, t);
      RotateRight(parent, c.up, o.l, oe, o.r, pe, t);
      Refocus(Snap(nodes), root, c.up, T(o.l, oe, T(o.r, pe, t)), Lifted(c), t);
    }

    /** No red nephew: the sibling turns red. */
    method PushUp(other: Node, ghost c: Ctx, ghost t: Tree)
      requires Focus(Snap(nodes), root, c, t) && !c.Top? && Sib(c).T? && Sib(c).e.n == other
      modifies nodes`color
      ensures Focus(Snap(nodes), root, c.up, Pushed(c, t))
    {
      SetSiblingColor(other, Red, c, t);
      Refocus(Snap(nodes), root, WithSib(c, Redden(Sib(c))), t, c.up, Pushed(c, t));
    }

    /** The rotation around the sibling that brings its red inner child out. */
    method OutwardLeft(other: Node, inner: Node, ghost c: Ctx, ghost t: Tree)
      requires Focus(Snap(nodes), root, c, t) && c.InL? && c.r.T? && c.r.e.n == other
      requires c.r.l.T? && c.r.l.e.n == inner && IsRed(c.r.l) && !IsRed(c.r.r)
      modifies this`root, nodes`color, nodes`f, nodes`l, nodes`r
      ensures Focus(Snap(nodes), root, WithSib(c, OuterRed(c)), t)
    {
      ghost var o := c.r;
      ghost var d := InR(t, c.e, c.up);
      Refocus(Snap(nodes), root, c, t, InL(o.e, o.r, d), o.l);
      SetColor(inner, Black, InL(o.e, o.r, d), o.l);
      SetParentColor(other, Red, InL(o.e, o.r, d), Blacken(o.l));
      ghost var ie, oe := Paint(o.l.e, Black), Paint(o.e, Red);
      Refocus(Snap(nodes), root, InL(oe, o.r, d), Blacken(o.l), d, T(T(o.l.l, ie, o.l.r), oe, o.r));
      RotateRight(other, d, o.l.l, ie, o.l.r, oe, o.r);
      Refocus(Snap(nodes), root, d, T(o.l.l, ie, T(o.l.r, oe, o.r)), WithSib(c, OuterRed(c)), t);
    }

    method OutwardRight(other: Node, inner: Node, ghost c: Ctx, ghost t: Tree)
      requires Focus(Snap(nodes), root, c, t) && c.InR? && c.l.T? && c.l.e.n == other
      requires c.l.r.T? && c.l.r.e.n == inner && IsRed(c.l.r) && !IsRed(c.l.l)
      modifies this`root, nodes`color, nodes`f, nodes`l, nodes`r
      ensures Focus(Snap(nodes), root, WithSib(c, OuterRed(c)), t)
    {
      ghost var o := c.l;
      ghost var d := InL(c.e, t, c.up);
      Refocus(Snap(nodes), root, c, t, InR(o.l, o.e, d), o.r);
      SetColor(inner, Black, InR(o.l, o.e, d), o.r);
      SetParentColor(other, Red, InR(o.l, o.e, d), Blacken(o.r));
      ghost var ie, oe := Paint(o.r.e, Black), Paint(o.e, Red);
      Refocus(Snap(nodes), root, InR(o.l, oe, d), Blacken(o.r), d, T(o.l, oe, T(o.r.l, ie, o.r.r)));
      RotateLeft(other, d, o.l, oe, o.r.l, ie, o.r.r);
      Refocus(Snap(nodes), root, d, T(T(o.l, oe, o.r.l), ie, o.r.r), WithSib(c, OuterRed(c)), t);
    }

    /** The closing colours: the sibling takes the parent's, the parent and the outer nephew turn black. */
    method PaintForClose(other: Node, parent: Node, outer: Node, ghost c: Ctx, ghost t: Tree)
      requires Focus(Snap(nodes), root, c, t) && !c.Top? && c.e.n == parent && Sib(c).T? && Sib(c).e.n == other
      requires var o := Sib(c); Root(if c.InL? then o.r else o.l) == outer
      modifies nodes`color
      ensures var o := Sib(c); var oe, pe := Paint(o.e, c.e.color), Paint(c.e, Black);
              Focus(Snap(nodes), root, c.up,
                    if c.InL? then T(t, pe, T(o.l, oe, Blacken(o.r))) else T(T(Blacken(o.l), oe, o.r), pe, t))
    {
      ghost var o := Sib(c);
      ghost var oe, pe := Paint(o.e, c.e.color), Paint(c.e, Black);
      Look(Snap(nodes), root, c, t);
      SetSiblingColor(other, parent.color, c, t);
      ghost var c1 := WithSib(c, T(o.l, oe, o.r));
      SetParentColor(parent, Black, c1, t);
      ghost var c2 := PaintCtx(c1, Black);
      ghost var d := if c.InL? then InR(o.l, oe, InR(t, pe, c.up)) else InL(oe, o.r, InL(pe, t, c.up));
      ghost var n := if c.InL? then o.r else o.l;
      Refocus(Snap(nodes), root, c2, t, d, n);
      SetColor(outer, Black, d, n);
      Refocus(Snap(nodes), root, d, Blacken(n), c.up,
              if c.InL? then T(t, pe, T(o.l, oe, Blacken(o.r))) else T(T(Blacken(o.l), oe, o.r), pe, t));
    }

    /** The pointers around a short subtree: its parent, its sibling and the nephews. */
    lemma SiblingView(c: Ctx, t: Tree)
      requires Focus(Snap(nodes), root, c, t) && !c.Top? && Sib(c).T?
      ensures c.e.n in nodes && Sib(c).e.n in nodes
      ensures c.e.n.f == Par(c.up) && (c.e.n.l == Root(t) <==> c.InL?)
      ensures c.InL? ==> c.e.n.r == c.r.e.n
      ensures c.InR? ==> c.e.n.l == c.l.e.n
      ensures var o := Sib(c);
              && o.e.n.color == o.e.color && o.e.n.l == Root(o.l) && o.e.n.r == Root(o.r)
              && (o.l.T? ==> o.l.e.n in nodes && o.l.e.n.color == o.l.e.color)
              && (o.r.T? ==> o.r.e.n in nodes && o.r.e.n.color == o.r.e.color)
    {
      var m := Snap(nodes);
      var o := Sib(c);
      Look(m, root, c, t);
      assert Rep(m, o, c.e.n);
      assert Rep(m, o.l, o.e.n) && Rep(m, o.r, o.e.n);
    }

    /** A red nephew: at most two rotations end the rebalancing. */
    method CloseLeft(parent: Node, sibling: Node, ghost c: Ctx, ghost t: Tree)
      requires Focus(Snap(nodes), root, c, t) && c.InL? && c.e.n == parent && c.r.T? && c.r.e.n == sibling
      requires IsRed(c.r.l) || IsRed(c.r.r)
      modifies this`root, nodes`color, nodes`f, nodes`l, nodes`r
      ensures Focus(Snap(nodes), root, c.up, Closed(c, t))
    {
      var other := sibling;
      ghost var d := c;
      SiblingView(c, t);
      if other.r == null || other.r.color == Black {
        OutwardLeft(other, other.l, c, t);
        d := WithSib(c, OuterRed(c));
        SiblingView(d, t);
        other := parent.r;
      }
      ghost var o := d.r;
      PaintForClose(other, parent, other.r, d, t);
      RotateLeft(parent, c.up, t, Paint(c.e, Black), o.l, Paint(o.e, c.e.color), Blacken(o.r));
    }

    method CloseRight(parent: Node, sibling: Node, ghost c: Ctx, ghost t: Tree)
      requires Focus(Snap(nodes), root, c, t) && c.InR? && c.e.n == parent && c.l.T? && c.l.e.n == sibling
      requires IsRed(c.l.l) || IsRed(c.l.r)
      modifies this`root, nodes`color, nodes`f, nodes`l, nodes`r
      ensures Focus(Snap(nodes), root, c.up, Closed(c, t))
    {
      var other := sibling;
      ghost var d := c;
      SiblingView(c, t);
      if other.l == null || other.l.color == Black {
        OutwardRight(other, other.r, c, t);
        d := WithSib(c, OuterRed(c));
        SiblingView(d, t);
        other := parent.l;
      }
      ghost var o := d.l;
      PaintForClose(other, parent, other.l, d, t);
      RotateRight(parent, c.up, Blacken(o.l), Paint(o.e, c.e.color), o.r, Paint(c.e, Black), t);
    }

    /** A round of rbt_delete_color once the sibling is black: node' is the node to go on with, or
        the root when the work is done. */
    method SettleLeft(parent: Node, other: Node, ghost c: Ctx, ghost t: Tree)
      returns (node': Node?, parent': Node?, done: bool, ghost c': Ctx, ghost t': Tree)
      requires Focus(Snap(nodes), root, c, t) && c.InL? && c.e.n == parent && c.r.T? && c.r.e.n == other
      modifies this`root, nodes`color, nodes`f, nodes`l, nodes`r
      ensures Focus(Snap(nodes), root, c', t') && node' == Root(t') && (!done ==> parent' == Par(c'))
      ensures done == (IsRed(c.r.l) || IsRed(c.r.r))
      ensures c' == (if done then Top else c.up)
      ensures t' == if done then Plug(c.up, Closed(c, t)) else Pushed(c, t)
    {
      SiblingView(c, t);
      if (other.l == null || other.l.color == Black) && (other.r == null || other.r.color == Black) {
        PushUp(other, c, t);
        c', t', done := c.up, Pushed(c, t), false;
        Look(Snap(nodes), root, c', t');
        node' := parent;
        parent' := parent.f;
      } else {
        CloseLeft(parent, other, c, t);
        c', t', done := Top, Plug(c.up, Closed(c, t)), true;
        Refocus(Snap(nodes), root, c.up, Closed(c, t), c', t');
        node', parent' := root, null;
      }
    }

    method SettleRight(parent: Node, other: Node, ghost c: Ctx, ghost t: Tree)
      returns (node': Node?, parent': Node?, done: bool, ghost c': Ctx, ghost t': Tree)
      requires Focus(Snap(nodes), root, c, t) && c.InR? && c.e.n == parent && c.l.T? && c.l.e.n == other
      modifies this`root, nodes`color, nodes`f, nodes`l, nodes`r
      ensures Focus(Snap(nodes), root, c', t') && node' == Root(t') && (!done ==> parent' == Par(c'))
      ensures done == (IsRed(c.l.l) || IsRed(c.l.r))
      ensures c' == (if done then Top else c.up)
      ensures t' == if done then Plug(c.up, Closed(c, t)) else Pushed(c, t)
    {
      SiblingView(c, t);
      if (other.l == null || other.l.color == Black) && (other.r == null || other.r.color == Black) {
        PushUp(other, c, t);
        c', t', done := c.up, Pushed(c, t), false;
        Look(Snap(nodes), root, c', t');
        node' := parent;
        parent' := parent.f;
      } else {
        CloseRight(parent, other, c, t);
        c', t', done := Top, Plug(c.up, Closed(c, t)), true;
        Refocus(Snap(nodes), root, c.up, Closed(c, t), c', t');
        node', parent' := root, null;
      }
    }

    /** One round of rbt_delete_color. The sibling it follows is never null. */
    method DeleteStep(node: Node?, parent: Node, ghost c: Ctx, ghost t: Tree, ghost k: nat)
      returns (node': Node?, parent': Node?, done: bool, ghost c': Ctx, ghost t': Tree, ghost k': nat)
      requires Focus(Snap(nodes), root, c, t) && node == Root(t) && !c.Top? && c.e.n == parent
      requires DeletePre(c, t, k) && !IsRed(t)
      modifies this`root, nodes`color, nodes`f, nodes`l, nodes`r
      ensures Focus(Snap(nodes), root, c', t') && node' == Root(t')
      ensures done ==> c'.Top? && Blacken(t') == DeleteFix(c, t, k)
      ensures !done ==>
                && parent' == Par(c') && DeletePre(c', t', k') && DeleteFix(c', t', k') == DeleteFix(c, t, k)
                && 2 * Depth(c') + (if IsRed(t') then 0 else 1) < 2 * Depth(c) + 1
    {
      SiblingExists(c, t, k);
      SiblingView(c, t);
      ghost var d := BlackSib(c);
      k' := if d.e.color == Red then k else k + 1;
      if parent.l == node {
        var other := parent.r;
        if other.color == Red {
          LiftLeft(other, parent, c, t);
          SiblingView(d, t);
          other := parent.r;
        }
        node', parent', done, c', t' := SettleLeft(parent, other, d, t);
      } else {
        var other := parent.l;
        if other.color == Red {
          LiftRight(other, parent, c, t);
          SiblingView(d, t);
          other := parent.l;
        }
        node', parent', done, c', t' := SettleRight(parent, other, d, t);
      }
      if !done { PushedPre(d, t, k); }
    }

    /** rbt_delete_color */
    method DeleteColor(node: Node?, parent: Node?, ghost c: Ctx, ghost t: Tree, ghost k: nat)
      requires Focus(Snap(nodes), root, c, t) && node == Root(t) && parent == Par(c) && DeletePre(c, t, k)
      modifies this`root, nodes`color, nodes`f, nodes`l, nodes`r
      ensures Focus(Snap(nodes), root, Top, DeleteFix(c, t, k))
    {
      var n, p := node, parent;
      ghost var d, s, j := c, t, k;
      Look(Snap(nodes), root, d, s);
      while (n == null || n.color == Black) && n != root
        invariant Focus(Snap(nodes), root, d, s) && n == Root(s) && p == Par(d)
        invariant DeletePre(d, s, j) && DeleteFix(d, s, j) == DeleteFix(c, t, k)
        invariant n != null ==> n.color == s.e.color
        invariant d.Top? <==> root == n
        decreases 2 * Depth(d) + (if IsRed(s) then 0 else 1)
      {
        var done;
        n, p, done, d, s, j := DeleteStep(n, p, d, s, j);
        Look(Snap(nodes), root, d, s);
        if done {
          break;
        }
      }
      assert Plug(d, Blacken(s)) == DeleteFix(c, t, k);
      hide DeleteFix, DeletePre;
      if n != null {
        SetColor(n, Black, d, s);
      }
      Refocus(Snap(nodes), root, d, Blacken(s), Top, Plug(d, Blacken(s)));
    }

    // ----- deletion: taking the node out -----

    /** The pointer writes of rbt_delete for a node z with two children and successor y: y takes z's
        place. Returns the child that fills y's old place, its parent, and y's old colour. */
    method Transplant(z: Node, y: Node) returns (s: Node?, f: Node, color: Color)
      requires z.l != null && z.r != null && y.f != null && y != z
      requires z.l !in {y, z, z.f, z.r, y.r, y.f}
      requires z.f != null ==> z.f !in {y, z, z.l, z.r, y.r, y.f}
      requires y.r != null ==> y.r !in {z, y, z.l, z.f, z.r, y.f}
      requires if y.f == z then y == z.r else y.f != y && y != z.r && z.r != z
      modifies this`root, y`f, y`color, y`l, y`r, z.l`f
      modifies (if y.f != z then {z.r} else {})`f, (if y.f != z then {y.f} else {})`l
      modifies (if y.f != z && y.r != null then {y.r} else {})`f
      modifies (if z.f != null then {z.f} else {})`l, (if z.f != null then {z.f} else {})`r
      ensures s == old(y.r) && color == old(y.color) && f == (if old(y.f) == z then y else old(y.f))
      ensures y.f == old(z.f) && y.color == old(z.color) && y.l == old(z.l)
      ensures y.r == (if old(y.f) == z then old(y.r) else old(z.r))
      ensures old(z.l).f == y
      ensures old(y.f) != z ==> old(z.r).f == y && old(y.f).l == s && (s != null ==> s.f == old(y.f))
      ensures old(z.f) == null ==> root == y
      ensures old(z.f) != null ==>
                && root == old(root)
                && old(z.f).l == (if old(z.f.l) == z then y else old(z.f.l))
                && old(z.f).r == (if old(z.f.l) == z then old(z.f.r) else y)
    {
      if z.f != null {
        if z.f.l == z {
          z.f.l := y;
        } else {
          z.f.r := y;
        }
      } else {
        root := y;
      }
      s := y.r;
      f := y.f;
      color := y.color;
      if f == z {
        f := y;
      } else {
        if s != null {
          s.f := f;
        }
        f.l := s;
        y.r := z.r;
        z.r.f := y;
      }
      y.f := z.f;
      y.color := z.color;
      y.l := z.l;
      z.l.f := y;
    }

    /** The pointers Transplant starts from. */
    ghost predicate TransplantView(c: Ctx, t: Tree)
      requires t.T? && t.l.T? && t.r.T?
      reads this, nodes
    {
      var z, y := t.e.n, MinTree(t.r);
      && z in nodes && y.e.n in nodes && t.l.e.n in nodes && t.r.e.n in nodes && y.e.n != z
      && (!c.Top? ==> c.e.n in nodes) && (y.r.T? ==> y.r.e.n in nodes)
      && z.l == t.l.e.n && z.r == t.r.e.n && z.f == Par(c) && z.color == t.e.color
      && y.e.n.r == Root(y.r) && y.e.n.color == y.e.color
      && y.e.n.key == y.e.key && y.e.n.data == y.e.data && y.e.n.aug == y.e.aug
      && y.e.n.f == (if t.r.l.T? then MinParent(t.r) else z)
      && z.l !in {y.e.n, z, z.f, z.r, Root(y.r), y.e.n.f}
      && (z.f != null ==> z.f !in {y.e.n, z, z.l, z.r, Root(y.r), y.e.n.f})
      && (y.r.T? ==> y.r.e.n !in {z, y.e.n, z.l, z.f, z.r, y.e.n.f})
      && (if t.r.l.T? then MinParent(t.r) in nodes && MinParent(t.r) != y.e.n && MinParent(t.r) != z && y.e.n != z.r && z.r != z
          else y == t.r)
    }

    lemma TransplantViewHolds(c: Ctx, t: Tree)
      requires Focus(Snap(nodes), root, c, t) && t.T? && t.l.T? && t.r.T?
      ensures TransplantView(c, t)
    {
      var m, y := Snap(nodes), MinTree(t.r);
      Look(m, root, c, t);
      assert Rep(m, t.r, t.e.n) && Rep(m, t.l, t.e.n);
      MinNodes(t.r);
      MinCells(m, t.r, t.e.n);
      assert Rep(m, y.r, y.e.n);
      assert Nodes(y) == {y.e.n} + Nodes(y.r) && Distinct(y);
      assert t.r.l.T? ==> MinParent(t.r) in Nodes(t.r);
    }

    /** Transplant, told in terms of what memory holds. */
    method TransplantCells(z: Node, y: Node, ghost c: Ctx, ghost t: Tree) returns (s: Node?, f: Node, color: Color)
      requires t.T? && t.l.T? && t.r.T? && t.e.n == z && y == MinTree(t.r).e.n && TransplantView(c, t)
      modifies this`root, nodes`color, nodes`f, nodes`l, nodes`r
      ensures Replaced(old(Snap(nodes)), Snap(nodes), old(root), root, c, t)
      ensures s == Root(MinTree(t.r).r) && color == MinTree(t.r).e.color
      ensures f == if t.r.l.T? then MinParent(t.r) else y
    {
      s, f, color := Transplant(z, y);
    }

    method MoveSuccessor(z: Node, y: Node, ghost c: Ctx, ghost t: Tree) returns (s: Node?, f: Node, color: Color)
      requires Focus(Snap(nodes), root, c, t) && t.T? && t.l.T? && t.r.T? && t.e.n == z && y == MinTree(t.r).e.n
      modifies this`root, nodes`color, nodes`f, nodes`l, nodes`r
      ensures Focus(Snap(nodes), root, InR(t.l, Paint(MinTree(t.r).e, t.e.color), c), RemoveMin(t.r))
      ensures s == Root(MinTree(t.r).r) && color == MinTree(t.r).e.color
      ensures f == if t.r.l.T? then MinParent(t.r) else y
    {
      ghost var m := Snap(nodes);
      TransplantViewHolds(c, t);
      s, f, color := TransplantCells(z, y, c, t);
      SuccessorMoved(m, Snap(nodes), old(root), root, c, t);
    }

    /** A node with two children gives its place to its successor. */
    method CutTwo(z: Node, y: Node, ghost c: Ctx, ghost t: Tree) returns (s: Node?, f: Node, color: Color)
      requires Focus(Snap(nodes), root, c, t) && t.T? && t.l.T? && t.r.T? && t.e.n == z && y == MinTree(t.r).e.n
      modifies this`root, nodes`color, nodes`f, nodes`l, nodes`r
      ensures var h := Cut(c, t);
              Focus(Snap(nodes), root, h.c, h.t) && s == Root(h.t) && f == Par(h.c) && color == h.color
    {
      s, f, color := MoveSuccessor(z, y, c, t);
      ghost var d := InR(t.l, Paint(MinTree(t.r).e, t.e.color), c);
      RemoveMinPlug(t.r, d);
      Refocus(Snap(nodes), root, d, RemoveMin(t.r), MinCtx(t.r, d), MinTree(t.r).r);
      if t.r.l.T? { MinCtxParent(t.r, d); }
    }

    /** A node with at most one child gives its place to that child. */
    method CutOne(z: Node, s: Node?, ghost c: Ctx, ghost t: Tree) returns (f: Node?, color: Color)
      requires Focus(Snap(nodes), root, c, t) && t.T? && t.e.n == z
      requires if t.l.Nil? then s == Root(t.r) else t.r.Nil? && s == Root(t.l)
      modifies this`root, nodes`f, nodes`l, nodes`r
      ensures var h := Cut(c, t);
              Focus(Snap(nodes), root, h.c, h.t) && s == Root(h.t) && f == Par(h.c) && color == h.color
    {
      ghost var m := Snap(nodes);
      ghost var x := if t.l.Nil? then t.r else t.l;
      Look(m, root, c, t);
      assert Rep(m, x, z) && Distinct(x);
      f := z.f;
      color := z.color;
      if s != null {
        s.f := f;
      }
      if f != null {
        if f.l == z {
          f.l := s;
        } else {
          f.r := s;
        }
      } else {
        root := s;
      }
      SplicedOut(m, Snap(nodes), old(root), root, c, t, x);
    }

    /** The successor of a node with a right child: the first node of its right subtree. */
    method LeftMost(start: Node, ghost c: Ctx, ghost t: Tree) returns (y: Node)
      requires Focus(Snap(nodes), root, c, t) && t.T? && t.e.n == start
      ensures y == MinTree(t).e.n
    {
      y := start;
      ghost var d, s := c, t;
      Look(Snap(nodes), root, d, s);
      while y.l != null
        invariant Focus(Snap(nodes), root, d, s) && s.T? && s.e.n == y && y.l == Root(s.l)
        invariant MinTree(s) == MinTree(t)
        decreases s
      {
        y := y.l;
        Refocus(Snap(nodes), root, d, s, InL(s.e, s.r, d), s.l);
        d, s := InL(s.e, s.r, d), s.l;
        Look(Snap(nodes), root, d, s);
      }
    }

    /** rbt_delete of the node at position (c, t). */
    method DeleteAt(node: Node, ghost c: Ctx, ghost t: Tree, ghost k: nat)
      requires Focus(Snap(nodes), root, c, t) && t.T? && t.e.n == node
      requires Cut(c, t).color == Black ==> DeletePre(Cut(c, t).c, Cut(c, t).t, k)
      modifies this`root, nodes`color, nodes`f, nodes`l, nodes`r
      ensures Focus(Snap(nodes), root, Top, Deleted(c, t, k))
    {
      Look(Snap(nodes), root, c, t);
      ghost var h := Cut(c, t);
      var s, f, color;
      if node.l == null {
        s := node.r;
        f, color := CutOne(node, s, c, t);
      } else if node.r == null {
        s := node.l;
        f, color := CutOne(node, s, c, t);
      } else {
        Refocus(Snap(nodes), root, c, t, InR(t.l, t.e, c), t.r);
        var y := LeftMost(node.r, InR(t.l, t.e, c), t.r);
        s, f, color := CutTwo(node, y, c, t);
      }
      if color == Black {
        DeleteColor(s, f, h.c, h.t, k);
      } else {
        Refocus(Snap(nodes), root, h.c, h.t, Top, Plug(h.c, h.t));
      }
    }

    // ----- walking -----

    /** A valid tree, seen from one of its nodes. */
    lemma FocusAt(node: Node)
      requires Valid() && node in nodes
      ensures Focus(Snap(nodes), root, CtxAt(tree, node, Top), SubAt(tree, node))
      ensures Plug(CtxAt(tree, node, Top), SubAt(tree, node)) == tree
    {
      PlugAt(tree, node, Top);
      Refocus(Snap(nodes), root, Top, tree, CtxAt(tree, node, Top), SubAt(tree, node));
    }

    method RightMost(start: Node, ghost c: Ctx, ghost t: Tree) returns (y: Node)
      requires Focus(Snap(nodes), root, c, t) && t.T? && t.e.n == start
      ensures y == MaxTree(t).e.n
    {
      y := start;
      ghost var d, s := c, t;
      Look(Snap(nodes), root, d, s);
      while y.r != null
        invariant Focus(Snap(nodes), root, d, s) && s.T? && s.e.n == y && y.r == Root(s.r)
        invariant MaxTree(s) == MaxTree(t)
        decreases s
      {
        y := y.r;
        Refocus(Snap(nodes), root, d, s, InR(s.l, s.e, d), s.r);
        d, s := InR(s.l, s.e, d), s.r;
        Look(Snap(nodes), root, d, s);
      }
    }

    /** Up while coming from the right: the first node after the subtree. */
    method ClimbNext(node: Node, ghost c: Ctx, ghost t: Tree) returns (res: Node?)
      requires Focus(Snap(nodes), root, c, t) && t.T? && t.e.n == node
      ensures res == FirstNode(After(c))
    {
      var n := node;
      ghost var d, s := c, t;
      Look(Snap(nodes), root, d, s);
      while n.f != null && n == n.f.r
        invariant Focus(Snap(nodes), root, d, s) && s.T? && s.e.n == n && After(d) == After(c)
        decreases d
      {
        Look(Snap(nodes), root, d, s);
        n := n.f;
        Refocus(Snap(nodes), root, d, s, d.up, Fill(d, s));
        d, s := d.up, Fill(d, s);
      }
      Look(Snap(nodes), root, d, s);
      res := n.f;
    }

    /** Up while coming from the left: the last node before the subtree. */
    method ClimbPrev(node: Node, ghost c: Ctx, ghost t: Tree) returns (res: Node?)
      requires Focus(Snap(nodes), root, c, t) && t.T? && t.e.n == node
      ensures res == LastNode(Before(c))
    {
      var n := node;
      ghost var d, s := c, t;
      Look(Snap(nodes), root, d, s);
      while n.f != null && n == n.f.l
        invariant Focus(Snap(nodes), root, d, s) && s.T? && s.e.n == n && Before(d) == Before(c)
        decreases d
      {
        Look(Snap(nodes), root, d, s);
        n := n.f;
        Refocus(Snap(nodes), root, d, s, d.up, Fill(d, s));
        d, s := d.up, Fill(d, s);
      }
      Look(Snap(nodes), root, d, s);
      res := n.f;
    }

    /** rbt_next: the node after this one in the order, or null. */
    method Next(node: Node) returns (res: Node?)
      requires Valid() && node in nodes
      ensures res == NodeAt(Items(tree), Idx(tree, node) + 1)
    {
      FocusAt(node);
      ghost var d, s := CtxAt(tree, node, Top), SubAt(tree, node);
      Look(Snap(nodes), root, d, s);
      if node.r != null {
        Refocus(Snap(nodes), root, d, s, InR(s.l, s.e, d), s.r);
        res := LeftMost(node.r, InR(s.l, s.e, d), s.r);
      } else {
        res := ClimbNext(node, d, s);
      }
      NextItem(tree, node);
    }

    /** rbt_prev: the node before this one in the order, or null. */
    method Prev(node: Node) returns (res: Node?)
      requires Valid() && node in nodes
      ensures res == NodeAt(Items(tree), Idx(tree, node) - 1)
    {
      FocusAt(node);
      ghost var d, s := CtxAt(tree, node, Top), SubAt(tree, node);
      Look(Snap(nodes), root, d, s);
      if node.l != null {
        Refocus(Snap(nodes), root, d, s, InL(s.e, s.r, d), s.l);
        res := RightMost(node.l, InL(s.e, s.r, d), s.l);
      } else {
        res := ClimbPrev(node, d, s);
      }
      PrevItem(tree, node);
    }

    /** rbt_first: walks back from the root to the first node. */
    method First() returns (res: Node?)
      requires Valid()
      ensures res == NodeAt(Items(tree), 0)
    {
      res := root;
      if res == null {
        return;
      }
      var tmp := Prev(res);
      IdxItem(tree, res);
      while tmp != null
        invariant res in nodes && tmp == NodeAt(Items(tree), Idx(tree, res) - 1)
        decreases Idx(tree, res)
      {
        ItemsNodes(tree);
        ghost var i := Idx(tree, res);
        assert tmp in ItemNodes(Items(tree));
        res := tmp;
        IdxItem(tree, res);
        tmp := Prev(res);
      }
      IdxItem(tree, res);
    }

    // ----- per-subtree values -----

    /** The update function on the node at (c, t). */
    method UpdateNode(node: Node, u: Upd, ghost skip: Node?, ghost c: Ctx, ghost t: Tree)
      requires Focus(Snap(nodes), root, c, t) && t.T? && t.e.n == node
      modifies nodes`aug
      ensures Focus(Snap(nodes), root, c, Recompute(Rule(u, skip), t))
    {
      ghost var m := Snap(nodes);
      assert Rep(m, t.l, node) && Rep(m, t.r, node);
      var la := if node.l == null then 0 else node.l.aug;
      var ra := if node.r == null then 0 else node.r.aug;
      node.aug := u(node.data, la, ra);
      Rewritten(m, Snap(nodes), root, c, t, Recompute(Rule(u, skip), t).e);
    }

    /** The sibling's update, seen from the node. */
    method UpdateSibling(other: Node, u: Upd, ghost skip: Node?, ghost c: Ctx, ghost t: Tree)
      requires Focus(Snap(nodes), root, c, t) && !c.Top? && Sib(c).T? && Sib(c).e.n == other
      modifies nodes`aug
      ensures Focus(Snap(nodes), root, WithSib(c, Recompute(Rule(u, skip), Sib(c))), t)
    {
      ghost var s := Sib(c);
      ghost var d := if c.InL? then InR(t, c.e, c.up) else InL(c.e, t, c.up);
      Refocus(Snap(nodes), root, c, t, d, s);
      UpdateNode(other, u, skip, d, s);
      Refocus(Snap(nodes), root, d, Recompute(Rule(u, skip), s), WithSib(c, Recompute(Rule(u, skip), s)), t);
    }

    /** One level of rbt_update above a node already recomputed: its sibling, or the node again
        when it has none and is a left child. */
    method UpdateAround(node: Node, f: Node, u: Upd, ghost skip: Node?, ghost c: Ctx, ghost t: Tree)
      requires Focus(Snap(nodes), root, c, t) && t.T? && t.e.n == node && !c.Top? && c.e.n == f
      requires Recompute(Rule(u, skip), t) == t
      modifies nodes`aug
      ensures Focus(Snap(nodes), root, c.up, Fill(WithSib(c, Recompute(Rule(u, skip), Sib(c))), t))
    {
      Look(Snap(nodes), root, c, t);
      ghost var d := WithSib(c, Recompute(Rule(u, skip), Sib(c)));
      if node == f.l && f.r != null {
        UpdateSibling(f.r, u, skip, c, t);
      } else if f.l != null {
        if f.l == node {
          UpdateNode(f.l, u, skip, c, t);
        } else {
          UpdateSibling(f.l, u, skip, c, t);
        }
      }
      Refocus(Snap(nodes), root, d, t, c.up, Fill(d, t));
    }

    /** One turn of the loop of rbt_update: the level above n is recomputed, then the parent. */
    method UpdateLevel(n: Node, f: Node, u: Upd, ghost skip: Node?, ghost c: Ctx, ghost t: Tree)
      requires Focus(Snap(nodes), root, c, t) && t.T? && t.e.n == n && !c.Top? && c.e.n == f
      requires Recompute(Rule(u, skip), t) == t
      modifies nodes`aug
      ensures var r := Rule(u, skip);
              var t' := Recompute(r, Fill(WithSib(c, Recompute(r, Sib(c))), t));
              Focus(Snap(nodes), root, c.up, t') && f.f == Par(c.up)
    {
      ghost var r := Rule(u, skip);
      UpdateAround(n, f, u, skip, c, t);
      ghost var s := Fill(WithSib(c, Recompute(r, Sib(c))), t);
      UpdateNode(f, u, skip, c.up, s);
      Look(Snap(nodes), root, c.up, Recompute(r, s));
    }

    /** rbt_update */
    method Update(node: Node, u: Upd, ghost skip: Node?, ghost c: Ctx, ghost t: Tree)
      requires Focus(Snap(nodes), root, c, t) && t.T? && t.e.n == node
      modifies nodes`aug
      ensures Focus(Snap(nodes), root, Top, Repair(Rule(u, skip), c, t))
    {
      var n := node;
      ghost var r := Rule(u, skip);
      ghost var d, s := c, Recompute(r, t);
      UpdateNode(n, u, skip, c, t);
      Look(Snap(nodes), root, d, s);
      while n.f != null
        invariant Focus(Snap(nodes), root, d, s) && s.T? && s.e.n == n && n.f == Par(d)
        invariant Recompute(r, s) == s && Repair(r, d, s) == Repair(r, c, t)
        decreases d
      {
        var f := n.f;
        UpdateLevel(n, f, u, skip, d, s);
        d, s := d.up, Recompute(r, Fill(WithSib(d, Recompute(r, Sib(d))), s));
        n := f;
      }
    }

    // ----- insertion by key -----

    /** The descent of the owners' _rbt_insert: the empty place where a key belongs, unless the key
        is already there. */
    method FindSlot(key: int) returns (found: bool, parent: Node?, left: bool, ghost c: Ctx)
      requires Valid() && SortedKeys(Items(tree))
      ensures found <==> HasKey(Items(tree), key)
      ensures !found ==>
                && Focus(Snap(nodes), root, c, Nil) && Plug(c, Nil) == tree
                && parent == Par(c) && (!c.Top? ==> left == c.InL?)
                && KeysBelow(Before(c), key) && KeysAbove(key, After(c))
    {
      var p := root;
      parent, left, found := null, false, false;
      c := Top;
      ghost var s := tree;
      while p != null
        invariant Focus(Snap(nodes), root, c, s) && Plug(c, s) == tree && p == Root(s)
        invariant parent == Par(c) && (!c.Top? ==> left == c.InL?)
        invariant SortedKeys(Items(s)) && KeysBelow(Before(c), key) && KeysAbove(key, After(c))
        decreases s
      {
        Look(Snap(nodes), root, c, s);
        parent := p;
        if key < p.key {
          DescendLeft(c, s, key);
          Refocus(Snap(nodes), root, c, s, InL(s.e, s.r, c), s.l);
          p, left := p.l, true;
          c, s := InL(s.e, s.r, c), s.l;
        } else if key > p.key {
          DescendRight(c, s, key);
          Refocus(Snap(nodes), root, c, s, InR(s.l, s.e, c), s.r);
          p, left := p.r, false;
          c, s := InR(s.l, s.e, c), s.r;
        } else {
          found := true;
          KeyThere(c, s);
          return;
        }
      }
      PlugItems(c, Nil);
      BelowAboveNoKey(Before(c), key, After(c));
      assert Before(c) + [] + After(c) == Before(c) + After(c);
    }

    /** rb_link_node */
    method Link(node: Node, parent: Node?, left: bool, ghost c: Ctx)
      requires Focus(Snap(nodes), root, c, Nil) && parent == Par(c) && (!c.Top? ==> left == c.InL?)
      requires node !in nodes && CtxNodes(c) <= nodes
      modifies this`root, this`nodes, nodes`l, nodes`r, node`f, node`l, node`r
      ensures nodes == old(nodes) + {node}
      ensures Focus(Snap(nodes), root, c, T(Nil, Entry(node, node.color, node.key, node.data, node.aug), Nil))
    {
      ghost var m := Snap(nodes);
      Look(m, root, c, Nil);
      node.f := parent;
      node.l, node.r := null, null;
      if parent == null {
        root := node;
      } else if left {
        parent.l := node;
      } else {
        parent.r := node;
      }
      nodes := nodes + {node};
      Linked(m, Snap(nodes), old(root), root, c, Entry(node, node.color, node.key, node.data, node.aug));
    }

    /** rb_link_node and rbt_insert_color at an empty place of the tree. */
    method InsertAt(node: Node, parent: Node?, left: bool, ghost c: Ctx, ghost e: Entry)
      requires Valid() && node !in nodes && Plug(c, Nil) == tree
      requires Focus(Snap(nodes), root, c, Nil) && parent == Par(c) && (!c.Top? ==> left == c.InL?)
      requires e == Entry(node, node.color, node.key, node.data, node.aug)
      modifies this, nodes`color, nodes`f, nodes`l, nodes`r, node`color, node`f, node`l, node`r
      ensures Valid() && nodes == old(nodes) + {node} && Apart(c, LeafTree(e))
      ensures RedsNested(c) && tree == InsertFix(c, LeafTree(e))
    {
      PlugNodes(c, Nil);
      InsertedCorrect(c, e);
      Link(node, parent, left, c);
      InsertColor(node, c, T(Nil, e, Nil));
      tree := InsertFix(c, LeafTree(e));
    }

    /** The owners' rbt_insert: link at the search position, then rbt_insert_color. A key already
        there is refused and nothing changes. */
    method Insert(node: Node) returns (ok: bool)
      requires Valid() && SortedKeys(Items(tree)) && node !in nodes
      modifies this, nodes`color, nodes`f, nodes`l, nodes`r, node`color, node`f, node`l, node`r
      ensures Valid() && ok == !HasKey(old(Items(tree)), node.key)
      ensures !ok ==> tree == old(tree) && nodes == old(nodes) && root == old(root)
      ensures ok ==>
                && nodes == old(nodes) + {node}
                && Items(tree) == InsertItem(old(Items(tree)), Item(node, node.key, node.data))
                && SortedKeys(Items(tree))
      ensures ok ==> forall u: Rule :: Good(u, old(tree)) ==> node in Nodes(tree) && OffKids(u, tree, Start(tree, node))
    {
      var found, parent, left;
      ghost var c;
      found, parent, left, c := FindSlot(node.key);
      if found {
        return false;
      }
      ok := true;
      ghost var e := Entry(node, node.color, node.key, node.data, node.aug);
      InsertAt(node, parent, left, c, e);
      InsertedItems(c, e);
      forall u: Rule | Good(u, old(tree)) ensures node in Nodes(tree) && OffKids(u, tree, Start(tree, node)) {
        InsertedOff(u, c, e);
      }
    }

    /** Insertion into a tree that keeps no per-subtree values. */
    method Add(node: Node) returns (ok: bool)
      requires Valid() && SortedKeys(Items(tree)) && node !in nodes
      modifies this, nodes`color, nodes`f, nodes`l, nodes`r, node`color, node`f, node`l, node`r
      ensures Valid() && ok == !HasKey(old(Items(tree)), node.key)
      ensures !ok ==> tree == old(tree) && nodes == old(nodes)
      ensures ok ==>
                && nodes == old(nodes) + {node}
                && Items(tree) == InsertItem(old(Items(tree)), Item(node, node.key, node.data))
    {
      ok := Insert(node);
    }

    /** Deletion from a tree that keeps no per-subtree values. */
    method Remove(node: Node)
      requires Valid() && node in nodes
      modifies this, nodes`color, nodes`f, nodes`l, nodes`r
      ensures Valid() && nodes == old(nodes) - {node}
      ensures Idx(old(tree), node) < |old(Items(tree))|
      ensures Items(tree) == RemoveAt(old(Items(tree)), Idx(old(tree), node))
    {
      Delete(node);
    }

    /** rbt_update from a node of the tree, when every wrong value is on its way. */
    method UpdateFrom(node: Node, u: Upd, ghost skip: Node?)
      requires Valid() && node in nodes && OffKids(Rule(u, skip), tree, node)
      modifies this`tree, nodes`aug
      ensures Valid() && Good(Rule(u, skip), tree)
      ensures Items(tree) == old(Items(tree)) && SameButAug(old(tree), tree)
    {
      ghost var r := Rule(u, skip);
      ghost var c, s := CtxAt(tree, node, Top), SubAt(tree, node);
      FocusAt(node);
      PlugOffKids(r, c, s, node);
      Update(node, u, skip, c, s);
      RepairGood(r, c, s);
      RepairSame(r, c, s);
      SameButAugKeeps(tree, Repair(r, c, s));
      SameButAugBalanced(tree, Repair(r, c, s));
      tree := Repair(r, c, s);
    }

    /** rbt_insert_update */
    method InsertUpdate(node: Node, u: Upd, ghost skip: Node?)
      requires Valid() && node in nodes && OffKids(Rule(u, skip), tree, Start(tree, node))
      modifies this`tree, nodes`aug
      ensures Valid() && Good(Rule(u, skip), tree)
      ensures Items(tree) == old(Items(tree)) && SameButAug(old(tree), tree)
    {
      FocusAt(node);
      Look(Snap(nodes), root, CtxAt(tree, node, Top), SubAt(tree, node));
      var start := node;
      if node.l != null {
        start := node.l;
      } else if node.r != null {
        start := node.r;
      }
      OffKidsNode(Rule(u, skip), tree, start);
      UpdateFrom(start, u, skip);
    }

    // ----- deletion of a node -----

    /** rbt_delete */
    method Delete(node: Node)
      requires Valid() && node in nodes
      modifies this, nodes`color, nodes`f, nodes`l, nodes`r
      ensures Valid() && nodes == old(nodes) - {node}
      ensures Idx(old(tree), node) < |old(Items(tree))|
      ensures Items(tree) == RemoveAt(old(Items(tree)), Idx(old(tree), node))
      ensures var d := Deepest(CtxAt(old(tree), node, Top), SubAt(old(tree), node));
              && (d == null ==> tree.Nil?)
              && (d != null ==> forall u: Rule :: Good(u, old(tree)) ==> OffKids(u, tree, d))
    {
      ghost var c, s := CtxAt(tree, node, Top), SubAt(tree, node);
      FocusAt(node);
      ghost var k := CutHeight(c, s);
      DeletedItems(tree, node, k);
      DeleteAt(node, c, s, k);
      ghost var m := Snap(nodes);
      ghost var t := tree;
      tree := Deleted(c, s, k);
      nodes := nodes - {node};
      FocusRestrict(m, Snap(nodes), root, tree);
      DeepestNone(t, node, k);
      forall u: Rule | Good(u, t) && Deepest(c, s) != null ensures OffKids(u, tree, Deepest(c, s)) {
        DeletedOff(u, c, s, k);
      }
    }

    /** rbt_delete_update_begin */
    method DeleteUpdateBegin(node: Node) returns (deepest: Node?)
      requires Valid() && node in nodes
      ensures deepest == Deepest(CtxAt(tree, node, Top), SubAt(tree, node))
    {
      ghost var c, t := CtxAt(tree, node, Top), SubAt(tree, node);
      FocusAt(node);
      Look(Snap(nodes), root, c, t);
      if node.r == null && node.l == null {
        deepest := node.f;
      } else if node.r == null {
        deepest := node.l;
      } else if node.l == null {
        deepest := node.r;
      } else {
        deepest := Next(node);
        NextItem(tree, node);
        TransplantViewHolds(c, t);
        if deepest.r != null {
          deepest := deepest.r;
        } else if deepest.f != node {
          deepest := deepest.f;
          MinCtxParent(t.r, InR(t.l, t.e, c));
        }
      }
    }

    /** The owners' deletion: rbt_delete_update_begin, rbt_delete, rbt_delete_update_end. Afterwards
        every value in the whole tree is right. */
    method DeleteAndUpdate(node: Node, u: Upd, ghost skip: Node?)
      requires Valid() && node in nodes && Good(Rule(u, skip), tree)
      modifies this, nodes`color, nodes`f, nodes`l, nodes`r, nodes`aug
      ensures Valid() && nodes == old(nodes) - {node} && Good(Rule(u, skip), tree)
      ensures Idx(old(tree), node) < |old(Items(tree))|
      ensures Items(tree) == RemoveAt(old(Items(tree)), Idx(old(tree), node))
    {
      var deepest := DeleteUpdateBegin(node);
      Delete(node);
      if deepest != null {
        OffKidsNode(Rule(u, skip), tree, deepest);
        UpdateFrom(deepest, u, skip);
      }
    }

    /** The owners' insertion: rbt_insert, rbt_insert_color, rbt_insert_update. */
    method InsertAndUpdate(node: Node, u: Upd, ghost skip: Node?) returns (ok: bool)
      requires Valid() && SortedKeys(Items(tree)) && node !in nodes && Good(Rule(u, skip), tree)
      modifies this, nodes`color, nodes`f, nodes`l, nodes`r, nodes`aug, node`color, node`f, node`l, node`r, node`aug
      ensures Valid() && ok == !HasKey(old(Items(tree)), node.key) && Good(Rule(u, skip), tree)
      ensures !ok ==> tree == old(tree) && nodes == old(nodes)
      ensures ok ==>
                && nodes == old(nodes) + {node}
                && Items(tree) == InsertItem(old(Items(tree)), Item(node, node.key, node.data))
                && SortedKeys(Items(tree))
    {
      ok := Insert(node);
      if ok {
        InsertUpdate(node, u, skip);
      }
    }

    /** Writing a node's key and payload in place; its values are then to be recomputed from it. */
    method SetPayload(node: Node, key: int, data: int)
      requires Valid() && node in nodes
      modifies this`tree, nodes`key, nodes`data
      ensures Valid() && Idx(old(tree), node) < |old(Items(tree))|
      ensures Items(tree) == old(Items(tree))[Idx(old(tree), node) := Item(node, key, data)]
      ensures forall u: Upd :: Good(Rule(u, null), old(tree)) ==> Good(Rule(u, node), tree)
    {
      ghost var m := Snap(nodes);
      ghost var c, s := CtxAt(tree, node, Top), SubAt(tree, node);
      ghost var s' := Rewrite(s, key, data);
      FocusAt(node);
      Look(m, root, c, s);
      node.key := key;
      node.data := data;
      Rewritten(m, Snap(nodes), root, c, s, s'.e);
      RewriteKeeps(c, s, s');
      RewriteItems(tree, node, key, data);
      forall u: Upd | Good(Rule(u, null), tree) ensures Good(Rule(u, node), Plug(c, s')) {
        PlugGoodInv(Rule(u, null), c, s);
        SkipWeakens(u, s.l, node);
        SkipWeakens(u, s.r, node);
        RewriteGood(u, c, s, s', node);
      }
      tree := Plug(c, s');
      Refocus(Snap(nodes), root, c, s', Top, tree);
    }

    /** rbt_update of a node whose record changed. */
    method UpdateChanged(node: Node, u: Upd)
      requires Valid() && node in nodes && Good(Rule(u, node), tree)
      modifies this`tree, nodes`aug
      ensures Valid() && Good(Rule(u, null), tree) && Items(tree) == old(Items(tree))
    {
      SkipOff(u, tree, node);
      UpdateFrom(node, u, null);
    }

    /** A node's fields are those of its record. */
    lemma ItemFields(node: Node)
      requires Valid() && node in nodes
      ensures Idx(tree, node) < |Items(tree)| && Items(tree)[Idx(tree, node)] == Item(node, node.key, node.data)
    {
      FocusAt(node);
      IdxItem(tree, node);
      Look(Snap(nodes), root, CtxAt(tree, node, Top), SubAt(tree, node));
    }

    /** The node at a place of the order. */
    lemma NodeAtFields(i: nat)
      requires Valid() && i < |Items(tree)|
      ensures var n := Items(tree)[i].n; n in nodes && Idx(tree, n) == i && Items(tree)[i] == Item(n, n.key, n.data)
    {
      IdxUnique(tree, Items(tree)[i].n, i);
      ItemFields(Items(tree)[i].n);
    }
  }

  /** Nothing is left to update only when nothing is left. */
  lemma DeepestNone(t: Tree, n: Node, k: nat)
    requires n in Nodes(t) && IsRBTree(t) && Distinct(t)
    requires var c, s := CtxAt(t, n, Top), SubAt(t, n);
             Cut(c, s).color == Black ==> DeletePre(Cut(c, s).c, Cut(c, s).t, k)
    ensures var c, s := CtxAt(t, n, Top), SubAt(t, n);
            Deepest(c, s) == null ==> Deleted(c, s, k).Nil?
  {
    var c, s := CtxAt(t, n, Top), SubAt(t, n);
    DeepestAtHole(c, s);
  }

  /** The records after an insertion at the place of the key. */
  lemma InsertedItems(c: Ctx, e: Entry)
    requires IsRBTree(Plug(c, Nil)) && Apart(c, LeafTree(e)) && SortedKeys(Items(Plug(c, Nil)))
    requires KeysBelow(Before(c), e.key) && KeysAbove(e.key, After(c))
    ensures RedsNested(c)
    ensures var s := Items(InsertFix(c, LeafTree(e)));
            s == InsertItem(Items(Plug(c, Nil)), ItemOf(e)) && SortedKeys(s)
  {
    InsertedCorrect(c, e);
    InsertItemSplit(Before(c), ItemOf(e), After(c));
    SortedGap(Before(c), ItemOf(e), After(c));
  }

  lemma SortedGap(a: seq<Item>, x: Item, b: seq<Item>)
    requires SortedKeys(a + b) && KeysBelow(a, x.key) && KeysAbove(x.key, b)
    ensures SortedKeys(a + [x] + b)
  {
    assert forall i :: 0 <= i < |a| ==> (a + b)[i] == a[i];
    assert forall i :: 0 <= i < |b| ==> (a + b)[|a| + i] == b[i];
    SortedJoin(a, x, b);
  }

  lemma KeyThere(c: Ctx, t: Tree)
    requires t.T?
    ensures HasKey(Items(Plug(c, t)), t.e.key)
  {
    PlugItems(c, t);
    var i := |Before(c)| + |Items(t.l)|;
    assert Items(t)[|Items(t.l)|] == ItemOf(t.e);
    assert Items(Plug(c, t))[i] == ItemOf(t.e);
  }

  /** Where the neighbours of a node are in the order. */
  lemma NextItem(t: Tree, n: Node)
    requires n in Nodes(t)
    ensures var c, s := CtxAt(t, n, Top), SubAt(t, n);
            NodeAt(Items(t), Idx(t, n) + 1) == if s.r.T? then MinTree(s.r).e.n else FirstNode(After(c))
  {
    IdxAfter(t, n);
    FirstAfter(Items(t), Idx(t, n), SubAt(t, n).r, After(CtxAt(t, n, Top)));
  }

  lemma FirstAfter(s: seq<Item>, i: nat, t: Tree, b: seq<Item>)
    requires i < |s| && s[i + 1..] == Items(t) + b
    ensures NodeAt(s, i + 1) == if t.T? then MinTree(t).e.n else FirstNode(b)
  {
    if i + 1 < |s| { assert s[i + 1..][0] == s[i + 1]; }
    if t.T? { MinTreeFirst(t); }
  }

  function FirstNode(a: seq<Item>): Node? { if a == [] then null else a[0].n }

  function LastNode(a: seq<Item>): Node? { if a == [] then null else a[|a| - 1].n }

  /** The node before the one at (c, s), by its position. */
  function PrevAt(c: Ctx, s: Tree): Node?
    requires s.T?
  {
    if s.l.T? then MaxTree(s.l).e.n else LastNode(Before(c))
  }

  lemma PrevItem(t: Tree, n: Node)
    requires n in Nodes(t)
    ensures NodeAt(Items(t), Idx(t, n) - 1) == PrevAt(CtxAt(t, n, Top), SubAt(t, n))
  {
    IdxBefore(t, n);
    LastBefore(Items(t), Idx(t, n), CtxAt(t, n, Top), SubAt(t, n));
  }

  lemma LastBefore(s: seq<Item>, i: nat, c: Ctx, t: Tree)
    requires t.T? && i < |s| && s[..i] == Before(c) + Items(t.l)
    ensures NodeAt(s, i - 1) == PrevAt(c, t)
  {
    LastOf(s, i, Before(c), Items(t.l));
    if t.l.T? { MaxTreeLast(t.l); }
  }

  lemma LastOf(s: seq<Item>, i: nat, a: seq<Item>, b: seq<Item>)
    requires i < |s| && s[..i] == a + b
    ensures b != [] ==> i > 0 && s[i - 1] == b[|b| - 1]
    ensures b == [] && a != [] ==> i > 0 && s[i - 1] == a[|a| - 1]
    ensures b == [] && a == [] ==> i == 0
  {
    if i > 0 { assert s[..i][i - 1] == s[i - 1]; }
  }

  function MaxTree(t: Tree): (s: Tree)
    requires t.T?
    ensures s.T? && s.r.Nil?
  {
    if t.r.Nil? then t else MaxTree(t.r)
  }

  lemma {:induction false} MaxTreeLast(t: Tree)
    requires t.T?
    ensures |Items(t)| > 0 && Items(t)[|Items(t)| - 1] == ItemOf(MaxTree(t).e)
  {
    if t.r.T? { MaxTreeLast(t.r); }
  }

  lemma {:induction false} MinTreeFirst(t: Tree)
    requires t.T?
    ensures |Items(t)| > 0 && Items(t)[0] == ItemOf(MinTree(t).e)
  {
    if t.l.T? { MinTreeFirst(t.l); }
  }

  lemma {:induction false} MinCtxParent(t: Tree, c: Ctx)
    requires t.T? && t.l.T?
    ensures Par(MinCtx(t, c)) == MinParent(t)
  {
    if t.l.l.T? { MinCtxParent(t.l, InL(t.e, t.r, c)); }
  }
}
