/** Rebalancing seen as functions on positions, and what it keeps (lib/rbt.c: rbt_insert_color,
    rbt_delete_color, and the splice of rbt_delete). */
module RbtBalance {
  import opened RbtTree

  // ----- order -----

  /** What a tree is for: its records in order, without colours and per-subtree values. */
  datatype Item = Item(n: Node, key: int, data: int)

  function ItemOf(e: Entry): Item { Item(e.n, e.key, e.data) }

  function Items(t: Tree): seq<Item> {
    if t.Nil? then [] else Items(t.l) + [ItemOf(t.e)] + Items(t.r)
  }

  function Before(c: Ctx): seq<Item> {
    match c
    case Top => []
    case InL(_, _, up) => Before(up)
    case InR(l, e, up) => Before(up) + Items(l) + [ItemOf(e)]
  }

  function After(c: Ctx): seq<Item> {
    match c
    case Top => []
    case InL(e, r, up) => [ItemOf(e)] + Items(r) + After(up)
    case InR(_, _, up) => After(up)
  }

  lemma Regroup(a: seq<Item>, b: seq<Item>, c: seq<Item>, d: seq<Item>, e: seq<Item>)
    ensures a + (b + c + d) + e == a + b + (c + d + e) == (a + b + c) + d + e
  {
  }

  lemma {:induction false} PlugItems(c: Ctx, t: Tree)
    ensures Items(Plug(c, t)) == Before(c) + Items(t) + After(c)
  {
    match c
    case Top =>
    case InL(e, r, up) =>
      PlugItems(up, T(t, e, r));
      Regroup(Before(up), Items(t), [ItemOf(e)], Items(r), After(up));
    case InR(l, e, up) =>
      PlugItems(up, T(l, e, t));
      Regroup(Before(up), Items(l), [ItemOf(e)], Items(t), After(up));
  }

  lemma PlugSameItems(c: Ctx, t: Tree, t': Tree)
    requires Items(t) == Items(t')
    ensures Items(Plug(c, t)) == Items(Plug(c, t'))
  {
    PlugItems(c, t);
    PlugItems(c, t');
  }

  // ----- colours and heights -----

  function Paint(e: Entry, k: Color): Entry { e.(color := k) }

  predicate IsRed(t: Tree) { t.T? && t.e.color == Red }

  function Blacken(t: Tree): Tree { if t.Nil? then t else T(t.l, Paint(t.e, Black), t.r) }

  function Redden(t: Tree): Tree { if t.Nil? then t else T(t.l, Paint(t.e, Red), t.r) }

  /** No red node has a red child and every path down passes k black nodes. */
  predicate RB(t: Tree, k: nat) {
    match t
    case Nil => k == 0
    case T(l, e, r) =>
      if e.color == Red then !IsRed(l) && !IsRed(r) && RB(l, k) && RB(r, k)
      else k > 0 && RB(l, k - 1) && RB(r, k - 1)
  }

  /** Surroundings that become a red-black tree with a black root around any subtree of black
      height k whose root has colour col. */
  predicate CtxRB(c: Ctx, k: nat, col: Color) {
    match c
    case Top => col == Black
    case InL(e, s, up) =>
      if e.color == Red then col == Black && RB(s, k) && !IsRed(s) && CtxRB(up, k, Red)
      else RB(s, k) && CtxRB(up, k + 1, Black)
    case InR(s, e, up) =>
      if e.color == Red then col == Black && RB(s, k) && !IsRed(s) && CtxRB(up, k, Red)
      else RB(s, k) && CtxRB(up, k + 1, Black)
  }

  function ColorOf(t: Tree): Color { if IsRed(t) then Red else Black }

  /** A red-black tree: black root, no red child of a red node, equal black heights. */
  ghost predicate IsRBTree(t: Tree) { !IsRed(t) && exists k: nat :: RB(t, k) }

  lemma {:induction false} CtxRBWeaken(c: Ctx, k: nat)
    requires CtxRB(c, k, Red)
    ensures CtxRB(c, k, Black)
  {
  }

  lemma {:induction false} PlugRB(c: Ctx, t: Tree, k: nat)
    requires RB(t, k) && CtxRB(c, k, ColorOf(t))
    ensures IsRBTree(Plug(c, t))
  {
    match c
    case Top =>
    case InL(e, s, up) => PlugRB(up, T(t, e, s), if e.color == Red then k else k + 1);
    case InR(s, e, up) => PlugRB(up, T(s, e, t), if e.color == Red then k else k + 1);
  }

  lemma {:induction false} PlugRBInv(c: Ctx, t: Tree, k: nat) returns (j: nat)
    requires RB(Plug(c, t), k) && !IsRed(Plug(c, t))
    ensures RB(t, j) && CtxRB(c, j, ColorOf(t))
  {
    match c
    case Top => j := k;
    case InL(e, s, up) =>
      j := PlugRBInv(up, T(t, e, s), k);
      if e.color == Black { j := j - 1; }
    case InR(s, e, up) =>
      j := PlugRBInv(up, T(s, e, t), k);
      if e.color == Black { j := j - 1; }
  }

  // ----- one level of surroundings -----

  function Sib(c: Ctx): Tree
    requires !c.Top?
  {
    if c.InL? then c.r else c.l
  }

  /** The subtree one level up: t with the innermost level of c around it. */
  function Fill(c: Ctx, t: Tree): Tree
    requires !c.Top?
  {
    if c.InL? then T(t, c.e, c.r) else T(c.l, c.e, t)
  }

  function PaintCtx(c: Ctx, k: Color): Ctx
    requires !c.Top?
  {
    if c.InL? then InL(Paint(c.e, k), c.r, c.up) else InR(c.l, Paint(c.e, k), c.up)
  }

  function WithSib(c: Ctx, s: Tree): Ctx
    requires !c.Top?
  {
    if c.InL? then InL(c.e, s, c.up) else InR(s, c.e, c.up)
  }

  // ----- insertion -----

  /** A red parent is never the root and has a black parent of its own. */
  predicate RedsNested(c: Ctx) {
    c.Top? || ((c.e.color == Red ==> !c.up.Top? && c.up.e.color == Black) && RedsNested(c.up))
  }

  lemma {:induction false} CtxRBRedsNested(c: Ctx, k: nat, col: Color)
    requires CtxRB(c, k, col)
    ensures RedsNested(c)
  {
    if !c.Top? {
      CtxRBRedsNested(c.up, if c.e.color == Red then k else k + 1, c.e.color);
    }
  }

  /** Red uncle: the parent and the uncle turn black, the grandparent red. */
  function Recolored(c: Ctx, t: Tree): Tree
    requires !c.Top? && !c.up.Top?
  {
    Fill(PaintCtx(WithSib(c.up, Blacken(Sib(c.up))), Red), Fill(PaintCtx(c, Black), t))
  }

  /** Black uncle: one or two rotations. */
  function Turned(c: Ctx, t: Tree): Tree
    requires !c.Top? && !c.up.Top? && t.T?
  {
    match (c.up, c)
    case (InL(g, u, _), InL(f, s, _)) => T(t, Paint(f, Black), T(s, Paint(g, Red), u))
    case (InL(g, u, _), InR(s, f, _)) => T(T(s, f, t.l), Paint(t.e, Black), T(t.r, Paint(g, Red), u))
    case (InR(u, g, _), InR(s, f, _)) => T(T(u, Paint(g, Red), s), Paint(f, Black), t)
    case (InR(u, g, _), InL(f, s, _)) => T(T(u, Paint(g, Red), t.l), Paint(t.e, Black), T(t.r, f, s))
  }

  /** The loop of rbt_insert_color from the position (c, t) of the node on. */
  function InsertFix(c: Ctx, t: Tree): Tree
    requires t.T? && RedsNested(c)
    decreases c
  {
    if c.Top? || c.e.color == Black then Blacken(Plug(c, t))
    else if IsRed(Sib(c.up)) then
      assert RedsNested(c.up);
      InsertFix(c.up.up, Recolored(c, t))
    else Blacken(Plug(c.up.up, Turned(c, t)))
  }

  lemma {:induction false} InsertFixRB(c: Ctx, t: Tree, k: nat)
    requires IsRed(t) && RB(t, k) && CtxRB(c, k, Black)
    ensures RedsNested(c) && IsRBTree(InsertFix(c, t))
  {
    CtxRBRedsNested(c, k, Black);
    if c.Top? {
      assert RB(Blacken(t), k + 1);
    } else if c.e.color == Black {
      CtxRBSide(c, k, t);
      PlugRB(c, t, k);
      assert Blacken(Plug(c, t)) == Plug(c, t) by { BlackenBlack(Plug(c, t)); }
    } else if IsRed(Sib(c.up)) {
      InsertFixRB(c.up.up, Recolored(c, t), k + 1);
    } else {
      PlugRB(c.up.up, Turned(c, t), k + 1);
      BlackenBlack(Plug(c.up.up, Turned(c, t)));
    }
  }

  lemma BlackenBlack(t: Tree)
    requires !IsRed(t)
    ensures Blacken(t) == t
  {
  }

  /** Below a black node any colour is fine. */
  lemma CtxRBSide(c: Ctx, k: nat, t: Tree)
    requires !c.Top? && c.e.color == Black && CtxRB(c, k, Black)
    ensures CtxRB(c, k, ColorOf(t))
  {
  }

  lemma RecoloredItems(c: Ctx, t: Tree)
    requires !c.Top? && !c.up.Top?
    ensures Items(Recolored(c, t)) == Items(Fill(c.up, Fill(c, t)))
  {
  }

  lemma TurnedItems(c: Ctx, t: Tree)
    requires !c.Top? && !c.up.Top? && t.T?
    ensures Items(Turned(c, t)) == Items(Fill(c.up, Fill(c, t)))
  {
    match (c.up, c)
    case (InL(g, u, _), InL(f, s, _)) => RotationItems(t, f, s, g, u);
    case (InL(g, u, _), InR(s, f, _)) =>
      RotationItems(s, f, t.l, t.e, t.r);
      RotationItems(T(s, f, t.l), t.e, t.r, g, u);
    case (InR(u, g, _), InR(s, f, _)) => RotationItems(u, g, s, f, t);
    case (InR(u, g, _), InL(f, s, _)) =>
      RotationItems(t.l, t.e, t.r, f, s);
      RotationItems(u, g, t.l, t.e, T(t.r, f, s));
  }

  /** A rotation keeps the order. */
  lemma RotationItems(a: Tree, x: Entry, b: Tree, y: Entry, z: Tree)
    ensures Items(T(T(a, x, b), y, z)) == Items(T(a, x, T(b, y, z)))
    ensures forall k: Color, k': Color ::
      Items(T(T(a, Paint(x, k), b), Paint(y, k'), z)) == Items(T(T(a, x, b), y, z)) &&
      Items(T(a, Paint(x, k), T(b, Paint(y, k'), z))) == Items(T(T(a, x, b), y, z))
  {
  }

  lemma {:induction false} InsertFixItems(c: Ctx, t: Tree)
    requires t.T? && RedsNested(c)
    ensures Items(InsertFix(c, t)) == Items(Plug(c, t))
    decreases c
  {
    if !c.Top? && c.e.color == Red {
      assert Plug(c, t) == Plug(c.up.up, Fill(c.up, Fill(c, t)));
      if IsRed(Sib(c.up)) {
        InsertFixItems(c.up.up, Recolored(c, t));
        RecoloredItems(c, t);
        PlugSameItems(c.up.up, Recolored(c, t), Fill(c.up, Fill(c, t)));
      } else {
        TurnedItems(c, t);
        PlugSameItems(c.up.up, Turned(c, t), Fill(c.up, Fill(c, t)));
      }
    }
  }

  // ----- deletion -----

  /** A subtree that lacks one black node: black height k where its surroundings want k + 1, or a
      red root that only has to turn black. */
  predicate Short(t: Tree, k: nat) {
    if IsRed(t) then RB(Blacken(t), k + 1) else RB(t, k)
  }

  predicate DeletePre(c: Ctx, t: Tree, k: nat) {
    Short(t, k) && CtxRB(c, k + 1, Black)
  }

  /** A red sibling becomes the parent's parent, and a black nephew the new sibling. */
  function Lifted(c: Ctx): Ctx
    requires !c.Top? && Sib(c).T?
  {
    match c
    case InL(p, o, up) => InL(Paint(p, Red), o.l, InL(Paint(o.e, Black), o.r, up))
    case InR(o, p, up) => InR(o.r, Paint(p, Red), InR(o.l, Paint(o.e, Black), up))
  }

  function BlackSib(c: Ctx): Ctx
    requires !c.Top? && Sib(c).T?
  {
    if IsRed(Sib(c)) then Lifted(c) else c
  }

  /** The sibling has no red child: it turns red, and the parent is what is short now. */
  function Pushed(c: Ctx, t: Tree): Tree
    requires !c.Top?
  {
    Fill(WithSib(c, Redden(Sib(c))), t)
  }

  /** The sibling with its outer child red, after the preparing rotation if one is needed. */
  function OuterRed(c: Ctx): Tree
    requires !c.Top? && Sib(c).T? && (IsRed(Sib(c).l) || IsRed(Sib(c).r))
  {
    var o := Sib(c);
    if c.InL? then
      (if IsRed(o.r) then o else T(o.l.l, Paint(o.l.e, Black), T(o.l.r, Paint(o.e, Red), o.r)))
    else
      (if IsRed(o.l) then o else T(T(o.l, Paint(o.e, Red), o.r.l), Paint(o.r.e, Black), o.r.r))
  }

  /** The closing rotation around the parent. */
  function Closed(c: Ctx, t: Tree): Tree
    requires !c.Top? && Sib(c).T? && (IsRed(Sib(c).l) || IsRed(Sib(c).r))
  {
    var o := OuterRed(c);
    if c.InL? then T(T(t, Paint(c.e, Black), o.l), Paint(o.e, c.e.color), Blacken(o.r))
    else T(Blacken(o.l), Paint(o.e, c.e.color), T(o.r, Paint(c.e, Black), t))
  }

  /** The sibling of a short black subtree exists, and stays so after a red one is lifted. */
  lemma SiblingExists(c: Ctx, t: Tree, k: nat)
    requires DeletePre(c, t, k) && !IsRed(t) && !c.Top?
    ensures Sib(c).T? && Sib(BlackSib(c)).T? && !BlackSib(c).Top? && !IsRed(Sib(BlackSib(c)))
    ensures DeletePre(BlackSib(c), t, k)
    ensures RB(Sib(BlackSib(c)), k + 1)
    ensures IsRed(Sib(c)) ==> c.e.color == Black && BlackSib(c).e.color == Red
  {
    if IsRed(Sib(c)) {
      assert c.e.color == Black && CtxRB(c.up, k + 2, Black);
      assert RB(Sib(c).l, k + 1) && RB(Sib(c).r, k + 1);
    }
  }

  lemma PushedPre(c: Ctx, t: Tree, k: nat)
    requires DeletePre(c, t, k) && !IsRed(t) && !c.Top? && Sib(c).T? && !IsRed(Sib(c))
    requires !IsRed(Sib(c).l) && !IsRed(Sib(c).r)
    ensures DeletePre(c.up, Pushed(c, t), if c.e.color == Red then k else k + 1)
    ensures IsRed(Pushed(c, t)) == (c.e.color == Red)
  {
    assert RB(Redden(Sib(c)), k);
    if c.e.color == Red { CtxRBWeaken(c.up, k + 1); }
  }

  function Depth(c: Ctx): nat { if c.Top? then 0 else 1 + Depth(c.up) }

  /** The loop of rbt_delete_color from the position (c, t) of the short subtree on. */
  function DeleteFix(c: Ctx, t: Tree, ghost k: nat): Tree
    requires DeletePre(c, t, k)
    decreases 2 * Depth(c) + (if IsRed(t) then 0 else 1)
  {
    if IsRed(t) || c.Top? then Plug(c, Blacken(t))
    else
      SiblingExists(c, t, k);
      var c' := BlackSib(c);
      var o := Sib(c');
      if !IsRed(o.l) && !IsRed(o.r) then
        PushedPre(c', t, k);
        DeleteFix(c'.up, Pushed(c', t), if c'.e.color == Red then k else k + 1)
      else Blacken(Plug(c'.up, Closed(c', t)))
  }

  lemma OuterRedRB(c: Ctx, k: nat)
    requires !c.Top? && Sib(c).T? && !IsRed(Sib(c)) && RB(Sib(c), k + 1)
    requires IsRed(Sib(c).l) || IsRed(Sib(c).r)
    ensures var o := OuterRed(c);
            o.T? && !IsRed(o) && RB(o.l, k) && RB(o.r, k) && IsRed(if c.InL? then o.r else o.l)
  {
    var o := Sib(c);
    assert RB(o.l, k) && RB(o.r, k);
    if c.InL? && !IsRed(o.r) {
      assert RB(o.l.l, k) && RB(o.l.r, k);
    } else if c.InR? && !IsRed(o.l) {
      assert RB(o.r.l, k) && RB(o.r.r, k);
    }
  }

  lemma ClosedRB(c: Ctx, t: Tree, k: nat)
    requires DeletePre(c, t, k) && !IsRed(t) && !c.Top? && Sib(c).T? && !IsRed(Sib(c))
    requires IsRed(Sib(c).l) || IsRed(Sib(c).r)
    ensures IsRBTree(Plug(c.up, Closed(c, t)))
  {
    var o := OuterRed(c);
    OuterRedRB(c, k);
    assert RB(Blacken(if c.InL? then o.r else o.l), k + 1);
    var j := if c.e.color == Red then k + 1 else k + 2;
    assert RB(Closed(c, t), j);
    PlugRB(c.up, Closed(c, t), j);
  }

  /** Deleting restores the red-black properties. */
  lemma {:induction false} DeleteFixRB(c: Ctx, t: Tree, k: nat)
    requires DeletePre(c, t, k)
    ensures IsRBTree(DeleteFix(c, t, k))
    decreases 2 * Depth(c) + (if IsRed(t) then 0 else 1)
  {
    if IsRed(t) {
      PlugRB(c, Blacken(t), k + 1);
    } else if !c.Top? {
      SiblingExists(c, t, k);
      var c' := BlackSib(c);
      var o := Sib(c');
      if !IsRed(o.l) && !IsRed(o.r) {
        PushedPre(c', t, k);
        DeleteFixRB(c'.up, Pushed(c', t), if c'.e.color == Red then k else k + 1);
      } else {
        ClosedRB(c', t, k);
        BlackenBlack(Plug(c'.up, Closed(c', t)));
      }
    }
  }

  lemma LiftedItems(c: Ctx, t: Tree)
    requires !c.Top? && Sib(c).T?
    ensures Items(Plug(Lifted(c), t)) == Items(Plug(c, t))
  {
    var s := Fill(Lifted(c).up, Fill(Lifted(c), t));
    if c.InL? {
      RotationItems(t, c.e, c.r.l, c.r.e, c.r.r);
    } else {
      RotationItems(c.l.l, c.l.e, c.l.r, c.e, t);
    }
    PlugSameItems(c.up, s, Fill(c, t));
  }

  lemma ClosedItems(c: Ctx, t: Tree)
    requires !c.Top? && Sib(c).T? && (IsRed(Sib(c).l) || IsRed(Sib(c).r))
    ensures Items(Closed(c, t)) == Items(Fill(c, t))
  {
    var o, o' := Sib(c), OuterRed(c);
    if c.InL? {
      if !IsRed(o.r) { RotationItems(o.l.l, o.l.e, o.l.r, o.e, o.r); }
      RotationItems(t, c.e, o'.l, o'.e, o'.r);
    } else {
      if !IsRed(o.l) { RotationItems(o.l, o.e, o.r.l, o.r.e, o.r.r); }
      RotationItems(o'.l, o'.e, o'.r, c.e, t);
    }
  }

  /** Rebalancing after a deletion keeps the order. */
  lemma {:induction false} DeleteFixItems(c: Ctx, t: Tree, k: nat)
    requires DeletePre(c, t, k)
    ensures Items(DeleteFix(c, t, k)) == Items(Plug(c, t))
    decreases 2 * Depth(c) + (if IsRed(t) then 0 else 1)
  {
    if IsRed(t) || c.Top? {
      PlugSameItems(c, Blacken(t), t);
    } else {
      SiblingExists(c, t, k);
      var c' := BlackSib(c);
      if IsRed(Sib(c)) { LiftedItems(c, t); }
      assert Items(Plug(c', t)) == Items(Plug(c, t));
      var o := Sib(c');
      if !IsRed(o.l) && !IsRed(o.r) {
        PushedPre(c', t, k);
        DeleteFixItems(c'.up, Pushed(c', t), if c'.e.color == Red then k else k + 1);
        PlugSameItems(c'.up, Pushed(c', t), Fill(c', t));
      } else {
        ClosedItems(c', t);
        PlugSameItems(c'.up, Closed(c', t), Fill(c', t));
      }
    }
  }

  // ----- taking a node out -----

  /** The position of the first node of t, below surroundings c. */
  function MinCtx(t: Tree, c: Ctx): Ctx
    requires t.T?
  {
    if t.l.Nil? then c else MinCtx(t.l, InL(t.e, t.r, c))
  }

  lemma {:induction false} MinPlug(t: Tree, c: Ctx)
    requires t.T?
    ensures Plug(MinCtx(t, c), MinTree(t)) == Plug(c, t)
  {
    if t.l.T? { MinPlug(t.l, InL(t.e, t.r, c)); }
  }

  lemma {:induction false} RemoveMinPlug(t: Tree, c: Ctx)
    requires t.T?
    ensures Plug(MinCtx(t, c), MinTree(t).r) == Plug(c, RemoveMin(t))
  {
    if t.l.T? { RemoveMinPlug(t.l, InL(t.e, t.r, c)); }
  }

  /** Where the hole is after the node at (c, t) is taken out, what hangs there, and the colour
      that left the tree there (rbt_delete before its call of rbt_delete_color). */
  datatype Hole = Hole(c: Ctx, t: Tree, color: Color)

  function Cut(c: Ctx, t: Tree): Hole
    requires t.T?
  {
    if t.l.Nil? then Hole(c, t.r, t.e.color)
    else if t.r.Nil? then Hole(c, t.l, t.e.color)
    else
      var y := MinTree(t.r);
      Hole(MinCtx(t.r, InR(t.l, Paint(y.e, t.e.color), c)), y.r, y.e.color)
  }

  lemma {:induction false} MinCtxItems(t: Tree, c: Ctx, s: Tree)
    requires t.T?
    ensures Items(MinTree(t)) <= Items(t)
    ensures Items(Plug(MinCtx(t, c), s)) == Before(c) + Items(s) + Items(t)[|Items(MinTree(t))|..] + After(c)
  {
    if t.l.Nil? {
      PlugItems(c, s);
    } else {
      var d := InL(t.e, t.r, c);
      assert MinTree(t) == MinTree(t.l) && MinCtx(t, c) == MinCtx(t.l, d);
      assert Items(t) == Items(t.l) + [ItemOf(t.e)] + Items(t.r);
      assert After(d) == [ItemOf(t.e)] + Items(t.r) + After(c) && Before(d) == Before(c);
      hide Items, Plug, Before, After, MinTree, MinCtx;
      MinCtxItems(t.l, d, s);
      var n := |Items(MinTree(t))|;
      Suffix(Items(MinTree(t)), Items(t.l), [ItemOf(t.e)], Items(t.r));
      Regroup(Before(c) + Items(s), Items(t.l)[n..], [ItemOf(t.e)], Items(t.r), After(c));
    }
  }

  lemma Suffix(m: seq<Item>, a: seq<Item>, b: seq<Item>, c: seq<Item>)
    requires m <= a
    ensures m <= a + b + c && (a + b + c)[|m|..] == a[|m|..] + b + c
  {
  }

  /** The in-order sequence loses exactly the node's record. */
  lemma CutItems(c: Ctx, t: Tree)
    requires t.T?
    ensures var h := Cut(c, t);
            Items(Plug(h.c, h.t)) == Before(c) + Items(t.l) + Items(t.r) + After(c)
  {
    if t.l.Nil? {
      PlugItems(c, t.r);
    } else if t.r.Nil? {
      PlugItems(c, t.l);
    } else {
      CutSuccessorItems(c, t);
    }
  }

  lemma CutSuccessorItems(c: Ctx, t: Tree)
    requires t.T? && t.r.T?
    ensures var y := MinTree(t.r);
            Items(Plug(MinCtx(t.r, InR(t.l, Paint(y.e, t.e.color), c)), y.r))
            == Before(c) + Items(t.l) + Items(t.r) + After(c)
  {
    var y := MinTree(t.r);
    var c' := InR(t.l, Paint(y.e, t.e.color), c);
    MinCtxItems(t.r, c', y.r);
    var yi, ri := [ItemOf(y.e)], Items(y.r);
    var rest := Items(t.r)[|Items(y)|..];
    assert Items(y) == [] + yi + ri == yi + ri;
    assert Items(t.r) == yi + ri + rest;
    assert Before(c') == Before(c) + Items(t.l) + yi;
    ConcatShuffle(Before(c), Items(t.l), yi, ri, rest, After(c));
  }

  lemma ConcatShuffle(a: seq<Item>, b: seq<Item>, c: seq<Item>, d: seq<Item>, e: seq<Item>, f: seq<Item>)
    ensures (a + b + c) + d + e + f == a + b + (c + d + e) + f
  {
  }

  lemma {:induction false} MinCtxRB(t: Tree, c: Ctx, k: nat) returns (j: nat)
    requires t.T? && RB(t, k) && CtxRB(c, k, ColorOf(t))
    ensures RB(MinTree(t), j) && CtxRB(MinCtx(t, c), j, ColorOf(MinTree(t)))
  {
    if t.l.Nil? {
      j := k;
    } else {
      j := MinCtxRB(t.l, InL(t.e, t.r, c), if t.e.color == Red then k else k - 1);
    }
  }

  /** Taking out a red node leaves a red-black tree; taking out a black one leaves a position one
      black node short, and there anything left is a red leaf. */
  lemma CutRB(c: Ctx, t: Tree, k: nat) returns (j: nat)
    requires t.T? && RB(t, k) && CtxRB(c, k, ColorOf(t))
    ensures var h := Cut(c, t);
            && (h.color == Red ==> h.t.Nil? && IsRBTree(Plug(h.c, h.t)))
            && (h.color == Black ==> DeletePre(h.c, h.t, j))
            && (h.t.T? ==> IsRed(h.t) && h.t.l.Nil? && h.t.r.Nil? && h.color == Black)
  {
    if t.l.Nil? || t.r.Nil? {
      j := CutLeafRB(c, t, k);
    } else {
      var y := MinTree(t.r);
      var c' := InR(t.l, Paint(y.e, t.e.color), c);
      var i := MinCtxRB(t.r, c', if t.e.color == Red then k else k - 1);
      j := CutLeafRB(MinCtx(t.r, c'), y, i);
      assert Cut(MinCtx(t.r, c'), y) == Cut(c, t);
    }
  }

  lemma CutLeafRB(c: Ctx, t: Tree, k: nat) returns (j: nat)
    requires t.T? && (t.l.Nil? || t.r.Nil?) && RB(t, k) && CtxRB(c, k, ColorOf(t))
    ensures var h := Cut(c, t);
            && (h.color == Red ==> h.t.Nil? && IsRBTree(Plug(h.c, h.t)))
            && (h.color == Black ==> DeletePre(h.c, h.t, j))
            && (h.t.T? ==> IsRed(h.t) && h.t.l.Nil? && h.t.r.Nil? && h.color == Black)
  {
    var s := if t.l.Nil? then t.r else t.l;
    if t.e.color == Red {
      CtxRBWeaken(c, k);
      assert RB(Nil, k);
      PlugRB(c, s, k);
      j := 0;
    } else {
      j := k - 1;
      assert j == 0;
      if s.T? { RedLeaf(s); }
    }
  }

  lemma RedLeaf(s: Tree)
    requires s.T? && RB(s, 0)
    ensures IsRed(s) && s.l.Nil? && s.r.Nil?
  {
    assert IsRed(s);
    assert RB(s.l, 0) && !IsRed(s.l);
    assert RB(s.r, 0) && !IsRed(s.r);
  }

  /** rbt_delete of the node at (c, t), as a function. */
  function Deleted(c: Ctx, t: Tree, ghost k: nat): Tree
    requires t.T? && (Cut(c, t).color == Black ==> DeletePre(Cut(c, t).c, Cut(c, t).t, k))
  {
    var h := Cut(c, t);
    if h.color == Black then DeleteFix(h.c, h.t, k) else Plug(h.c, h.t)
  }

  /** Deleting any node of a red-black tree leaves a red-black tree with the other records in order. */
  lemma DeletedCorrect(c: Ctx, t: Tree, k: nat)
    requires t.T? && IsRBTree(Plug(c, t))
    requires Cut(c, t).color == Black ==> DeletePre(Cut(c, t).c, Cut(c, t).t, k)
    ensures IsRBTree(Deleted(c, t, k))
    ensures Items(Plug(c, t)) == Before(c) + Items(t.l) + [ItemOf(t.e)] + Items(t.r) + After(c)
    ensures Items(Deleted(c, t, k)) == Before(c) + Items(t.l) + Items(t.r) + After(c)
  {
    DeletedBalanced(c, t, k);
    DeletedOrder(c, t, k);
  }

  lemma DeletedBalanced(c: Ctx, t: Tree, k: nat)
    requires t.T? && IsRBTree(Plug(c, t))
    requires Cut(c, t).color == Black ==> DeletePre(Cut(c, t).c, Cut(c, t).t, k)
    ensures IsRBTree(Deleted(c, t, k))
  {
    var h := Cut(c, t);
    if h.color == Black {
      DeleteFixRB(h.c, h.t, k);
    } else {
      var b: nat :| RB(Plug(c, t), b);
      var i := PlugRBInv(c, t, b);
      var _ := CutRB(c, t, i);
    }
  }

  lemma DeletedOrder(c: Ctx, t: Tree, k: nat)
    requires t.T? && (Cut(c, t).color == Black ==> DeletePre(Cut(c, t).c, Cut(c, t).t, k))
    ensures Items(Plug(c, t)) == Before(c) + Items(t.l) + [ItemOf(t.e)] + Items(t.r) + After(c)
    ensures Items(Deleted(c, t, k)) == Before(c) + Items(t.l) + Items(t.r) + After(c)
  {
    var h := Cut(c, t);
    assert Items(t) == Items(t.l) + [ItemOf(t.e)] + Items(t.r);
    assert Deleted(c, t, k) == if h.color == Black then DeleteFix(h.c, h.t, k) else Plug(h.c, h.t);
    hide Items, Plug, Before, After, Cut, DeleteFix, DeletePre, Deleted;
    CutItems(c, t);
    PlugItems(c, t);
    Flat(Before(c), Items(t.l), [ItemOf(t.e)], Items(t.r), After(c));
    if h.color == Black { DeleteFixItems(h.c, h.t, k); }
  }

  lemma Flat(a: seq<Item>, b: seq<Item>, x: seq<Item>, d: seq<Item>, e: seq<Item>)
    ensures a + (b + x + d) + e == a + b + x + d + e
  {
  }

  // ----- search order -----

  predicate SortedKeys(s: seq<Item>) { forall i, j :: 0 <= i < j < |s| ==> s[i].key < s[j].key }

  predicate KeysBelow(s: seq<Item>, k: int) { forall i :: 0 <= i < |s| ==> s[i].key < k }

  predicate KeysAbove(k: int, s: seq<Item>) { forall i :: 0 <= i < |s| ==> k < s[i].key }

  predicate HasKey(s: seq<Item>, k: int) { exists i :: 0 <= i < |s| && s[i].key == k }

  /** A sorted sequence with one more record in its place. */
  function InsertItem(s: seq<Item>, x: Item): seq<Item> {
    if s == [] || x.key < s[0].key then [x] + s else [s[0]] + InsertItem(s[1..], x)
  }

  lemma {:induction false} InsertItemSplit(a: seq<Item>, x: Item, b: seq<Item>)
    requires KeysBelow(a, x.key) && KeysAbove(x.key, b)
    ensures InsertItem(a + b, x) == a + [x] + b
  {
    if a == [] {
      assert a + b == b;
    } else {
      assert (a + b)[1..] == a[1..] + b;
      InsertItemSplit(a[1..], x, b);
      assert [a[0]] + (a[1..] + [x] + b) == a + [x] + b;
    }
  }

  lemma SortedParts(a: seq<Item>, x: Item, b: seq<Item>)
    requires SortedKeys(a + [x] + b)
    ensures SortedKeys(a) && SortedKeys(b) && KeysBelow(a, x.key) && KeysAbove(x.key, b)
  {
    var s := a + [x] + b;
    assert s[|a|] == x;
    assert forall i :: 0 <= i < |a| ==> s[i] == a[i];
    assert forall i :: 0 <= i < |b| ==> s[|a| + 1 + i] == b[i];
  }

  lemma SortedJoin(a: seq<Item>, x: Item, b: seq<Item>)
    requires SortedKeys(a) && SortedKeys(b) && KeysBelow(a, x.key) && KeysAbove(x.key, b)
    ensures SortedKeys(a + [x] + b)
  {
    var s := a + [x] + b;
    forall i, j | 0 <= i < j < |s| ensures s[i].key < s[j].key {
      if i < |a| && j > |a| { assert s[i].key < x.key < s[j].key; }
    }
  }

  lemma BelowAboveNoKey(a: seq<Item>, k: int, b: seq<Item>)
    requires KeysBelow(a, k) && KeysAbove(k, b)
    ensures !HasKey(a + b, k)
  {
  }

  /** Going left narrows the records after the position, going right those before it. */
  lemma DescendLeft(c: Ctx, t: Tree, k: int)
    requires t.T? && SortedKeys(Items(t)) && KeysAbove(k, After(c)) && k < t.e.key
    ensures KeysAbove(k, After(InL(t.e, t.r, c))) && SortedKeys(Items(t.l))
  {
    SortedParts(Items(t.l), ItemOf(t.e), Items(t.r));
    var s := [ItemOf(t.e)] + Items(t.r);
    assert KeysAbove(k, s);
    assert After(InL(t.e, t.r, c)) == s + After(c);
  }

  lemma DescendRight(c: Ctx, t: Tree, k: int)
    requires t.T? && SortedKeys(Items(t)) && KeysBelow(Before(c), k) && t.e.key < k
    ensures KeysBelow(Before(InR(t.l, t.e, c)), k) && SortedKeys(Items(t.r))
  {
    SortedParts(Items(t.l), ItemOf(t.e), Items(t.r));
    var s := Before(c) + Items(t.l);
    assert KeysBelow(s, k);
    assert Before(InR(t.l, t.e, c)) == s + [ItemOf(t.e)];
  }
}
