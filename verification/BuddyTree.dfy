/** The trees of pages behind the buddy allocator (kernel/memory/pm.c): a page is a free or allocated
    leaf, or virtual with its two halves below it. The program keeps only links from a page to its
    buddy and to the page it was cut from. */
module BuddyTree {

  const PAGE := 4096
  const ORDERS: nat := 21 // CONFIG_NR_BUDDY_ORDER

  datatype Pos = NoBud | AtLeft | AtRight
  datatype BudState = FREE | ALLOCED | VIRT

  /** struct page_t; root is the number of the tree the page is in. */
  class Page {
    var addr: nat
    var size: nat
    var order: nat
    var f: Page?
    var b: Page?
    var pos: Pos
    var state: BudState
    ghost var root: nat

    constructor () {}
  }

  datatype Cell = Cell(addr: nat, size: nat, order: nat, f: Page?, b: Page?, pos: Pos, state: BudState, root: nat)

  type Mem = map<Page, Cell>

  ghost function Snap(ps: set<Page>): Mem
    reads ps
  {
    map p | p in ps :: Cell(p.addr, p.size, p.order, p.f, p.b, p.pos, p.state, p.root)
  }

  function Pow2(k: nat): (n: nat)
    ensures n > 0
  {
    if k == 0 then 1 else 2 * Pow2(k - 1)
  }

  function Bytes(order: nat): nat { Pow2(order) * PAGE }

  // ----- trees and places in them -----

  datatype Tree = Leaf(p: Page, free: bool) | Split(p: Page, l: Tree, r: Tree)

  /** The way from a place in a tree up to its root. */
  datatype Ctx = Top | InLeft(p: Page, r: Tree, up: Ctx) | InRight(p: Page, l: Tree, up: Ctx)

  function Plug(c: Ctx, t: Tree): Tree {
    match c
    case Top => t
    case InLeft(p, r, up) => Plug(up, Split(p, t, r))
    case InRight(p, l, up) => Plug(up, Split(p, l, t))
  }

  function Nodes(t: Tree): set<Page> {
    match t
    case Leaf(p, _) => {p}
    case Split(p, l, r) => {p} + Nodes(l) + Nodes(r)
  }

  function CtxNodes(c: Ctx): set<Page> {
    match c
    case Top => {}
    case InLeft(p, r, up) => {p} + Nodes(r) + CtxNodes(up)
    case InRight(p, l, up) => {p} + Nodes(l) + CtxNodes(up)
  }

  /** No page twice. */
  predicate Apart(t: Tree) {
    t.Split? ==> Apart(t.l) && Apart(t.r) && t.p !in Nodes(t.l) + Nodes(t.r) && Nodes(t.l) !! Nodes(t.r)
  }

  predicate CtxApart(c: Ctx) {
    match c
    case Top => true
    case InLeft(p, r, up) => Apart(r) && CtxApart(up) && p !in Nodes(r) && p !in CtxNodes(up) && Nodes(r) !! CtxNodes(up)
    case InRight(p, l, up) => Apart(l) && CtxApart(up) && p !in Nodes(l) && p !in CtxNodes(up) && Nodes(l) !! CtxNodes(up)
  }

  lemma {:induction false} PlugNodes(c: Ctx, t: Tree)
    ensures Nodes(Plug(c, t)) == CtxNodes(c) + Nodes(t)
  {
    match c
    case Top =>
    case InLeft(p, r, up) => PlugNodes(up, Split(p, t, r));
    case InRight(p, l, up) => PlugNodes(up, Split(p, l, t));
  }

  lemma {:induction false} PlugApart(c: Ctx, t: Tree)
    ensures Apart(Plug(c, t)) <==> CtxApart(c) && Apart(t) && Nodes(t) !! CtxNodes(c)
  {
    match c
    case Top =>
    case InLeft(p, r, up) => PlugApart(up, Split(p, t, r));
    case InRight(p, l, up) => PlugApart(up, Split(p, l, t));
  }

  // ----- what the fields of the pages say -----

  datatype Link = Root | Child(f: Page, b: Page, pos: Pos)

  predicate Linked(x: Cell, k: Link) {
    match k
    case Root => x.pos == NoBud
    case Child(f, b, pos) => x.f == f && x.b == b && x.pos == pos
  }

  /** Page p stands for the block of this order at addr, in tree i. */
  predicate Stands(m: Mem, p: Page, addr: int, order: nat, k: Link, i: nat) {
    p in m && m[p].addr == addr && m[p].order == order && m[p].size == Bytes(order) && Linked(m[p], k) && m[p].root == i
  }

  predicate Rep(m: Mem, t: Tree, addr: int, order: nat, k: Link, i: nat)
    decreases t
  {
    && Stands(m, t.p, addr, order, k, i)
    && match t
       case Leaf(p, free) => m[p].state == if free then FREE else ALLOCED
       case Split(p, l, r) =>
         && m[p].state == VIRT && order > 0
         && Rep(m, l, addr, order - 1, Child(p, r.p, AtLeft), i)
         && Rep(m, r, addr + Bytes(order - 1), order - 1, Child(p, l.p, AtRight), i)
  }

  function LinkOf(c: Ctx): Link {
    match c
    case Top => Root
    case InLeft(p, r, _) => Child(p, r.p, AtLeft)
    case InRight(p, l, _) => Child(p, l.p, AtRight)
  }

  /** Where the parent of the block at addr begins. */
  function UpAddr(c: Ctx, addr: int, order: nat): int { if c.InRight? then addr - Bytes(order) else addr }

  /** The pages around the place of page q, which stands for the block at addr. */
  predicate RepCtx(m: Mem, c: Ctx, q: Page, addr: int, order: nat, i: nat)
    decreases c
  {
    match c
    case Top => true
    case InLeft(p, r, up) =>
      && Stands(m, p, addr, order + 1, LinkOf(up), i) && m[p].state == VIRT
      && Rep(m, r, addr + Bytes(order), order, Child(p, q, AtRight), i) && RepCtx(m, up, p, addr, order + 1, i)
    case InRight(p, l, up) =>
      && Stands(m, p, addr - Bytes(order), order + 1, LinkOf(up), i) && m[p].state == VIRT
      && Rep(m, l, addr - Bytes(order), order, Child(p, q, AtLeft), i) && RepCtx(m, up, p, addr - Bytes(order), order + 1, i)
  }

  function RootAddr(c: Ctx, addr: int, order: nat): int
    decreases c
  {
    if c.Top? then addr else RootAddr(c.up, UpAddr(c, addr, order), order + 1)
  }

  function Depth(c: Ctx): nat { if c.Top? then 0 else 1 + Depth(c.up) }

  lemma {:induction false} PlugRep(m: Mem, c: Ctx, t: Tree, addr: int, order: nat, i: nat)
    ensures Rep(m, Plug(c, t), RootAddr(c, addr, order), order + Depth(c), Root, i) <==>
            RepCtx(m, c, t.p, addr, order, i) && Rep(m, t, addr, order, LinkOf(c), i)
    decreases c
  {
    match c
    case Top =>
    case InLeft(p, r, up) => PlugRep(m, up, Split(p, t, r), addr, order + 1, i);
    case InRight(p, l, up) => PlugRep(m, up, Split(p, l, t), addr - Bytes(order), order + 1, i);
  }

  /** The place of t in its tree, from the fields of its page. */
  lemma {:induction false} PlugPlace(m: Mem, c: Ctx, t: Tree, addr: int, order: nat, i: nat)
    requires Rep(m, Plug(c, t), addr, order, Root, i)
    ensures t.p in m && Depth(c) + m[t.p].order == order && RootAddr(c, m[t.p].addr, m[t.p].order) == addr
    ensures RepCtx(m, c, t.p, m[t.p].addr, m[t.p].order, i) && Rep(m, t, m[t.p].addr, m[t.p].order, LinkOf(c), i)
    decreases c
  {
    match c
    case Top =>
    case InLeft(p, r, up) => PlugPlace(m, up, Split(p, t, r), addr, order, i);
    case InRight(p, l, up) => PlugPlace(m, up, Split(p, l, t), addr, order, i);
  }

  predicate SameOn(m: Mem, m': Mem, ps: set<Page>) { forall p :: p in ps && p in m ==> p in m' && m'[p] == m[p] }

  lemma {:induction false} RepFrame(m: Mem, m': Mem, t: Tree, addr: int, order: nat, k: Link, i: nat)
    requires Rep(m, t, addr, order, k, i) && SameOn(m, m', Nodes(t))
    ensures Rep(m', t, addr, order, k, i)
    decreases t
  {
    if t.Split? {
      RepFrame(m, m', t.l, addr, order - 1, Child(t.p, t.r.p, AtLeft), i);
      RepFrame(m, m', t.r, addr + Bytes(order - 1), order - 1, Child(t.p, t.l.p, AtRight), i);
    }
  }

  lemma {:induction false} RepCtxFrame(m: Mem, m': Mem, c: Ctx, q: Page, addr: int, order: nat, i: nat)
    requires RepCtx(m, c, q, addr, order, i) && SameOn(m, m', CtxNodes(c))
    ensures RepCtx(m', c, q, addr, order, i)
    decreases c
  {
    match c
    case Top =>
    case InLeft(p, r, up) =>
      RepFrame(m, m', r, addr + Bytes(order), order, Child(p, q, AtRight), i);
      RepCtxFrame(m, m', up, p, addr, order + 1, i);
    case InRight(p, l, up) =>
      RepFrame(m, m', l, addr - Bytes(order), order, Child(p, q, AtLeft), i);
      RepCtxFrame(m, m', up, p, addr - Bytes(order), order + 1, i);
  }

  lemma {:induction false} RepNodes(m: Mem, t: Tree, addr: int, order: nat, k: Link, i: nat)
    requires Rep(m, t, addr, order, k, i)
    ensures forall p :: p in Nodes(t) ==> p in m && m[p].root == i && m[p].order <= order
    decreases t
  {
    if t.Split? {
      RepNodes(m, t.l, addr, order - 1, Child(t.p, t.r.p, AtLeft), i);
      RepNodes(m, t.r, addr + Bytes(order - 1), order - 1, Child(t.p, t.l.p, AtRight), i);
    }
  }

  /** A page that is not virtual is a leaf, at some place. */
  lemma {:induction false} Locate(m: Mem, c: Ctx, t: Tree, addr: int, order: nat, i: nat, p: Page)
    returns (c': Ctx, addr': int, order': nat)
    requires Rep(m, t, addr, order, LinkOf(c), i) && p in Nodes(t) && p in m && m[p].state != VIRT
    ensures Plug(c', Leaf(p, m[p].state == FREE)) == Plug(c, t)
    ensures RootAddr(c', addr', order') == RootAddr(c, addr, order) && order' + Depth(c') == order + Depth(c)
    decreases t
  {
    match t
    case Leaf(q, _) => c', addr', order' := c, addr, order;
    case Split(q, l, r) =>
      if p in Nodes(l) {
        c', addr', order' := Locate(m, InLeft(q, r, c), l, addr, order - 1, i, p);
      } else {
        c', addr', order' := Locate(m, InRight(q, l, c), r, addr + Bytes(order - 1), order - 1, i, p);
      }
  }

  // ----- freeing and cutting -----

  predicate FreeLeaf(t: Tree) { t.Leaf? && t.free }

  /** No two buddies are both free. */
  predicate NoPair(t: Tree) {
    t.Split? ==> NoPair(t.l) && NoPair(t.r) && !(FreeLeaf(t.l) && FreeLeaf(t.r))
  }

  /** The other half of the block at this place. */
  function Sibling(c: Ctx): Tree
    requires !c.Top?
  {
    if c.InLeft? then c.r else c.l
  }

  predicate BuddyFree(c: Ctx) { !c.Top? && FreeLeaf(Sibling(c)) }

  predicate CtxNoPair(c: Ctx) { !c.Top? ==> NoPair(Sibling(c)) && CtxNoPair(c.up) }

  lemma {:induction false} PlugNoPair(c: Ctx, t: Tree)
    ensures NoPair(Plug(c, t)) <==> NoPair(t) && CtxNoPair(c) && !(FreeLeaf(t) && BuddyFree(c))
    decreases c
  {
    match c
    case Top =>
    case InLeft(p, r, up) => PlugNoPair(up, Split(p, t, r));
    case InRight(p, l, up) => PlugNoPair(up, Split(p, l, t));
  }

  /** Freeing the block of page p at this place: as long as the buddy is free too, the two become the
      block they were cut from. */
  function Freed(c: Ctx, p: Page): Tree {
    if BuddyFree(c) then Freed(c.up, c.p) else Plug(c, Leaf(p, true))
  }

  lemma {:induction false} FreedNoPair(c: Ctx, p: Page)
    requires CtxNoPair(c)
    ensures NoPair(Freed(c, p))
  {
    if BuddyFree(c) { FreedNoPair(c.up, c.p); } else { PlugNoPair(c, Leaf(p, true)); }
  }

  /** The same, seen from the root: the tree after page p has been freed. */
  function Release(t: Tree, p: Page): Tree {
    match t
    case Leaf(q, free) => Leaf(q, free || q == p)
    case Split(q, l, r) => Join(Split(q, Release(l, p), Release(r, p)))
  }

  function Join(t: Tree): Tree { if t.Split? && FreeLeaf(t.l) && FreeLeaf(t.r) then Leaf(t.p, true) else t }

  lemma {:induction false} ReleaseOther(t: Tree, p: Page)
    requires p !in Nodes(t) && NoPair(t)
    ensures Release(t, p) == t
  {
    if t.Split? {
      ReleaseOther(t.l, p);
      ReleaseOther(t.r, p);
    }
  }

  /** Joining goes on upwards as long as it yields a free leaf. */
  function JoinUp(c: Ctx, t: Tree): Tree {
    match c
    case Top => t
    case InLeft(p, r, up) => JoinUp(up, Join(Split(p, t, r)))
    case InRight(p, l, up) => JoinUp(up, Join(Split(p, l, t)))
  }

  lemma {:induction false} ReleasePlug(c: Ctx, t: Tree, p: Page)
    requires Apart(Plug(c, t)) && CtxNoPair(c) && p in Nodes(t)
    ensures Release(Plug(c, t), p) == JoinUp(c, Release(t, p))
    decreases c
  {
    PlugApart(c, t);
    match c
    case Top =>
    case InLeft(q, r, up) =>
      ReleaseOther(r, p);
      ReleasePlug(up, Split(q, t, r), p);
    case InRight(q, l, up) =>
      ReleaseOther(l, p);
      ReleasePlug(up, Split(q, l, t), p);
  }

  lemma {:induction false} JoinUpFreed(c: Ctx, p: Page)
    requires CtxNoPair(c)
    ensures JoinUp(c, Leaf(p, true)) == Freed(c, p)
    decreases c
  {
    match c
    case Top =>
    case InLeft(q, r, up) => if FreeLeaf(r) { JoinUpFreed(up, q); } else { JoinUpPlug(up, Split(q, Leaf(p, true), r)); }
    case InRight(q, l, up) => if FreeLeaf(l) { JoinUpFreed(up, q); } else { JoinUpPlug(up, Split(q, l, Leaf(p, true))); }
  }

  lemma {:induction false} JoinUpPlug(c: Ctx, t: Tree)
    requires !FreeLeaf(t)
    ensures JoinUp(c, t) == Plug(c, t)
    decreases c
  {
    match c
    case Top =>
    case InLeft(p, r, up) => JoinUpPlug(up, Split(p, t, r));
    case InRight(p, l, up) => JoinUpPlug(up, Split(p, l, t));
  }

  lemma ReleaseIsFreed(c: Ctx, p: Page)
    requires Apart(Plug(c, Leaf(p, false))) && CtxNoPair(c)
    ensures Release(Plug(c, Leaf(p, false)), p) == Freed(c, p)
  {
    ReleasePlug(c, Leaf(p, false), p);
    JoinUpFreed(c, p);
  }

  /** Place (c, p) is the left end of block (c0, g) after some cuts, every right half of which is free. */
  predicate Carved(c0: Ctx, g: Page, c: Ctx, p: Page)
    decreases c
  {
    (c == c0 && p == g) || (c.InLeft? && FreeLeaf(c.r) && Carved(c0, g, c.up, c.p))
  }

  /** ... and so begins where the block does. */
  lemma {:induction false} CarvedAddr(m: Mem, c0: Ctx, g: Page, c: Ctx, p: Page, order: nat, i: nat)
    requires Carved(c0, g, c, p) && p in m && RepCtx(m, c, p, m[p].addr, order, i)
    ensures g in m && m[g].addr == m[p].addr
    decreases c
  {
    if !(c == c0 && p == g) { CarvedAddr(m, c0, g, c.up, c.p, order + 1, i); }
  }

  /** What cutting does, freeing undoes. */
  lemma {:induction false} CarvedFreed(c0: Ctx, g: Page, c: Ctx, p: Page)
    requires Carved(c0, g, c, p)
    ensures Freed(c, p) == Freed(c0, g)
    decreases c
  {
    if !(c == c0 && p == g) { CarvedFreed(c0, g, c.up, c.p); }
  }

  lemma RoundTrip(c0: Ctx, g: Page, c: Ctx, p: Page)
    requires Carved(c0, g, c, p) && NoPair(Plug(c0, Leaf(g, true)))
    requires Apart(Plug(c, Leaf(p, false))) && CtxNoPair(c)
    ensures Release(Plug(c, Leaf(p, false)), p) == Plug(c0, Leaf(g, true))
  {
    PlugNoPair(c0, Leaf(g, true));
    CarvedFreed(c0, g, c, p);
    ReleaseIsFreed(c, p);
  }

  // ----- the blocks of a tree, in the order of their addresses -----

  datatype Block = Block(addr: int, order: nat, free: bool, p: Page)

  function Blocks(t: Tree, addr: int, order: nat): seq<Block> {
    match t
    case Leaf(p, free) => [Block(addr, order, free, p)]
    case Split(_, l, r) =>
      if order == 0 then [] else Blocks(l, addr, order - 1) + Blocks(r, addr + Bytes(order - 1), order - 1)
  }

  /** The blocks follow each other without gap or overlap from lo to hi. */
  predicate Tiles(bs: seq<Block>, lo: int, hi: int) {
    if bs == [] then lo == hi else bs[0].addr == lo && Tiles(bs[1..], lo + Bytes(bs[0].order), hi)
  }

  lemma {:induction false} TilesConcat(a: seq<Block>, b: seq<Block>, lo: int, mid: int, hi: int)
    requires Tiles(a, lo, mid) && Tiles(b, mid, hi)
    ensures Tiles(a + b, lo, hi)
  {
    if a == [] {
      assert a + b == b;
    } else {
      TilesConcat(a[1..], b, lo + Bytes(a[0].order), mid, hi);
      assert (a + b)[1..] == a[1..] + b;
    }
  }

  lemma {:induction false} BlocksTile(m: Mem, t: Tree, addr: int, order: nat, k: Link, i: nat)
    requires Rep(m, t, addr, order, k, i)
    ensures Tiles(Blocks(t, addr, order), addr, addr + Bytes(order))
    decreases t
  {
    match t
    case Leaf(p, free) => assert Tiles([], addr + Bytes(order), addr + Bytes(order));
    case Split(p, l, r) =>
      var half := addr + Bytes(order - 1);
      BlocksTile(m, l, addr, order - 1, Child(p, r.p, AtLeft), i);
      BlocksTile(m, r, half, order - 1, Child(p, l.p, AtRight), i);
      TilesConcat(Blocks(l, addr, order - 1), Blocks(r, half, order - 1), addr, half, addr + Bytes(order));
  }

  /** The blocks are the pages that are not virtual, with the fields of those pages. */
  lemma {:induction false} BlocksArePages(m: Mem, t: Tree, addr: int, order: nat, k: Link, i: nat)
    requires Rep(m, t, addr, order, k, i)
    ensures forall x :: x in Blocks(t, addr, order) ==>
      x.p in Nodes(t) && x.p in m && m[x.p].state == (if x.free then FREE else ALLOCED) &&
      m[x.p].addr == x.addr && m[x.p].order == x.order && m[x.p].size == Bytes(x.order)
    ensures forall p :: p in Nodes(t) && p in m && m[p].state != VIRT ==>
      Block(m[p].addr, m[p].order, m[p].state == FREE, p) in Blocks(t, addr, order)
    decreases t
  {
    match t
    case Leaf(p, free) =>
      assert Block(addr, order, free, p) in Blocks(t, addr, order);
    case Split(p, l, r) =>
      BlocksArePages(m, l, addr, order - 1, Child(p, r.p, AtLeft), i);
      BlocksArePages(m, r, addr + Bytes(order - 1), order - 1, Child(p, l.p, AtRight), i);
  }

  /** The blocks of a tiling lie in [lo, hi), each after the one before it. */
  lemma {:induction false} TilesApart(bs: seq<Block>, lo: int, hi: int)
    requires Tiles(bs, lo, hi)
    ensures lo <= hi
    ensures forall x :: x in bs ==> lo <= x.addr && x.addr + Bytes(x.order) <= hi
    ensures forall j, k :: 0 <= j < k < |bs| ==> bs[j].addr + Bytes(bs[j].order) <= bs[k].addr
  {
    if bs != [] {
      TilesApart(bs[1..], lo + Bytes(bs[0].order), hi);
      forall j, k | 0 <= j < k < |bs| ensures bs[j].addr + Bytes(bs[j].order) <= bs[k].addr {
        assert bs[k] == bs[1..][k - 1] && bs[k] in bs[1..];
        if j > 0 { assert bs[j] == bs[1..][j - 1]; }
      }
    }
  }

  /** Every address of [lo, hi) is in a block of the tiling. */
  lemma {:induction false} TilesCover(bs: seq<Block>, lo: int, hi: int, a: int) returns (x: Block)
    requires Tiles(bs, lo, hi) && lo <= a < hi
    ensures x in bs && x.addr <= a < x.addr + Bytes(x.order)
  {
    if a < lo + Bytes(bs[0].order) {
      x := bs[0];
    } else {
      x := TilesCover(bs[1..], lo + Bytes(bs[0].order), hi, a);
    }
  }

  // ----- the allocated leaves -----

  function Taken(t: Tree): set<Page> {
    match t
    case Leaf(p, free) => if free then {} else {p}
    case Split(_, l, r) => Taken(l) + Taken(r)
  }

  function CtxTaken(c: Ctx): set<Page> { if c.Top? then {} else Taken(Sibling(c)) + CtxTaken(c.up) }

  lemma {:induction false} PlugTaken(c: Ctx, t: Tree)
    ensures Taken(Plug(c, t)) == CtxTaken(c) + Taken(t)
    decreases c
  {
    match c
    case Top =>
    case InLeft(p, r, up) => PlugTaken(up, Split(p, t, r));
    case InRight(p, l, up) => PlugTaken(up, Split(p, l, t));
  }

  lemma {:induction false} FreedTaken(c: Ctx, p: Page)
    ensures Taken(Freed(c, p)) == CtxTaken(c)
  {
    if BuddyFree(c) { FreedTaken(c.up, c.p); } else { PlugTaken(c, Leaf(p, true)); }
  }

  lemma {:induction false} CarvedTaken(c0: Ctx, g: Page, c: Ctx, p: Page)
    requires Carved(c0, g, c, p)
    ensures CtxTaken(c) == CtxTaken(c0)
    decreases c
  {
    if !(c == c0 && p == g) { CarvedTaken(c0, g, c.up, c.p); }
  }

  lemma {:induction false} TakenRep(m: Mem, t: Tree, addr: int, order: nat, k: Link, i: nat)
    requires Rep(m, t, addr, order, k, i)
    ensures Taken(t) <= Nodes(t) <= m.Keys
    ensures forall p :: p in Nodes(t) ==> (p in Taken(t) ==> m[p].state == ALLOCED)
    ensures Apart(t) ==> forall p :: p in Nodes(t) && m[p].state == ALLOCED ==> p in Taken(t)
    decreases t
  {
    if t.Split? {
      TakenRep(m, t.l, addr, order - 1, Child(t.p, t.r.p, AtLeft), i);
      TakenRep(m, t.r, addr + Bytes(order - 1), order - 1, Child(t.p, t.l.p, AtRight), i);
    }
  }
}
