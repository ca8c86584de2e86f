/** The trees of all inserted blocks together, and the lists of free pages (kernel/memory/pm.c). */
module BuddyForest {
  import opened BuddyTree

  /** A block given to the allocator by pm_insert, and what it has been cut into. */
  datatype Area = Area(addr: nat, order: nat, t: Tree)

  predicate AreaOk(m: Mem, x: Area, i: nat) {
    x.order < ORDERS && Rep(m, x.t, x.addr, x.order, Root, i) && Apart(x.t) && NoPair(x.t)
  }

  /** The pages are exactly the pages of the trees. */
  ghost predicate Forest(m: Mem, fs: seq<Area>) {
    && (forall i :: 0 <= i < |fs| ==> AreaOk(m, fs[i], i))
    && (forall p :: p in m ==> m[p].root < |fs| && p in Nodes(fs[m[p].root].t))
  }

  predicate Distinct(q: seq<Page>) { forall j, k :: 0 <= j < k < |q| ==> q[j] != q[k] }

  predicate Listed(m: Mem, p: Page, k: nat) { p in m && m[p].state == FREE && m[p].order == k }

  /** The list of order k holds, once each, the free pages of order k. */
  ghost predicate Lists(m: Mem, head: seq<seq<Page>>) {
    && |head| == ORDERS
    && (forall k :: 0 <= k < ORDERS ==> Distinct(head[k]))
    && (forall k, j :: 0 <= k < ORDERS && 0 <= j < |head[k]| ==> Listed(m, head[k][j], k))
    && (forall p :: p in m && m[p].state == FREE ==> m[p].order < ORDERS && p in head[m[p].order])
  }

  /** Place c of tree i holds t. */
  predicate Holds(fs: seq<Area>, i: nat, c: Ctx, t: Tree) { i < |fs| && fs[i].t == Plug(c, t) }

  function Put(fs: seq<Area>, i: nat, t: Tree): seq<Area>
    requires i < |fs|
  {
    fs[i := fs[i].(t := t)]
  }

  /** What the pages at a place look like. */
  lemma View(m: Mem, fs: seq<Area>, i: nat, c: Ctx, t: Tree)
    requires Forest(m, fs) && Holds(fs, i, c, t)
    ensures t.p in m && m[t.p].root == i && m[t.p].order + Depth(c) == fs[i].order < ORDERS
    ensures RootAddr(c, m[t.p].addr, m[t.p].order) == fs[i].addr
    ensures RepCtx(m, c, t.p, m[t.p].addr, m[t.p].order, i) && Rep(m, t, m[t.p].addr, m[t.p].order, LinkOf(c), i)
    ensures CtxApart(c) && Apart(t) && Nodes(t) !! CtxNodes(c)
    ensures CtxNoPair(c) && NoPair(t) && !(FreeLeaf(t) && BuddyFree(c))
    ensures Nodes(t) + CtxNodes(c) == Nodes(fs[i].t) <= m.Keys
  {
    assert AreaOk(m, fs[i], i);
    PlugPlace(m, c, t, fs[i].addr, fs[i].order, i);
    PlugApart(c, t);
    PlugNoPair(c, t);
    PlugNodes(c, t);
    RepNodes(m, fs[i].t, fs[i].addr, fs[i].order, Root, i);
  }

  /** Every page that is not virtual has a place. */
  lemma Place(m: Mem, fs: seq<Area>, p: Page) returns (c: Ctx)
    requires Forest(m, fs) && p in m && m[p].state != VIRT
    ensures Holds(fs, m[p].root, c, Leaf(p, m[p].state == FREE))
  {
    var i := m[p].root;
    var addr, order;
    assert AreaOk(m, fs[i], i);
    c, addr, order := Locate(m, Top, fs[i].t, fs[i].addr, fs[i].order, i, p);
  }

  /** One place changes from t to t', with the same page at its top, and nothing else does. */
  ghost predicate Changed(m: Mem, m': Mem, fs: seq<Area>, i: nat, c: Ctx, t: Tree, t': Tree) {
    && Forest(m, fs) && Holds(fs, i, c, t) && t'.p == t.p && t.p in m
    && Rep(m', t', m[t.p].addr, m[t.p].order, LinkOf(c), i)
    && Apart(t') && NoPair(Plug(c, t'))
    && m'.Keys == m.Keys - Nodes(t) + Nodes(t') && SameOn(m, m', m.Keys - Nodes(t))
    && Nodes(t') !! (m.Keys - Nodes(t))
  }

  lemma ChangedArea(m: Mem, m': Mem, fs: seq<Area>, i: nat, c: Ctx, t: Tree, t': Tree)
    requires Changed(m, m', fs, i, c, t, t')
    ensures AreaOk(m', fs[i].(t := Plug(c, t')), i)
  {
    hide Forest, Rep, RepCtx, Apart, CtxApart, NoPair, CtxNoPair, Plug, RootAddr, Nodes, CtxNodes;
    View(m, fs, i, c, t);
    assert SameOn(m, m', CtxNodes(c));
    RepCtxFrame(m, m', c, t.p, m[t.p].addr, m[t.p].order, i);
    PlugRep(m', c, t', m[t.p].addr, m[t.p].order, i);
    PlugApart(c, t');
  }

  lemma OtherArea(m: Mem, m': Mem, fs: seq<Area>, i: nat, c: Ctx, t: Tree, t': Tree, j: nat)
    requires Changed(m, m', fs, i, c, t, t') && j < |fs| && j != i
    ensures AreaOk(m', fs[j], j)
  {
    assert AreaOk(m, fs[j], j);
    RepNodes(m, fs[j].t, fs[j].addr, fs[j].order, Root, j);
    View(m, fs, i, c, t);
    hide Forest;
    RepNodes(m, t, m[t.p].addr, m[t.p].order, LinkOf(c), i);
    RepFrame(m, m', fs[j].t, fs[j].addr, fs[j].order, Root, j);
  }

  lemma Change(m: Mem, m': Mem, fs: seq<Area>, i: nat, c: Ctx, t: Tree, t': Tree)
    requires Changed(m, m', fs, i, c, t, t')
    ensures Forest(m', Put(fs, i, Plug(c, t')))
  {
    hide AreaOk, Rep, Apart, NoPair;
    var fs' := Put(fs, i, Plug(c, t'));
    ChangedArea(m, m', fs, i, c, t, t');
    forall j | 0 <= j < |fs| ensures AreaOk(m', fs'[j], j) {
      if j != i { OtherArea(m, m', fs, i, c, t, t', j); }
    }
    PlugNodes(c, t);
    PlugNodes(c, t');
    RepNodes(m', t', m[t.p].addr, m[t.p].order, LinkOf(c), i);
  }

  // ----- the lists -----

  /** list_delete */
  function Drop(q: seq<Page>, p: Page): seq<Page> {
    if q == [] then [] else if q[0] == p then q[1..] else [q[0]] + Drop(q[1..], p)
  }

  lemma {:induction false} DropList(q: seq<Page>, p: Page)
    requires Distinct(q)
    ensures Distinct(Drop(q, p))
    ensures forall j :: 0 <= j < |Drop(q, p)| ==> Drop(q, p)[j] in q && Drop(q, p)[j] != p
    ensures forall j :: 0 <= j < |q| && q[j] != p ==> q[j] in Drop(q, p)
  {
    if q != [] {
      DropList(q[1..], p);
      assert forall j :: 1 <= j < |q| ==> q[j] == q[1..][j - 1];
      if q[0] != p {
        var d := Drop(q[1..], p);
        assert q[0] !in d;
        assert forall j :: 1 <= j < |d| + 1 ==> Drop(q, p)[j] == d[j - 1];
      }
    }
  }

  /** A free page leaves its list. */
  lemma ListsTake(m: Mem, head: seq<seq<Page>>, p: Page)
    requires Lists(m, head) && p in m && m[p].state == FREE
    ensures m[p].order < ORDERS == |head|
    ensures Lists(m[p := m[p].(state := ALLOCED)], head[m[p].order := Drop(head[m[p].order], p)])
  {
    var k := m[p].order;
    DropList(head[k], p);
    var m', head' := m[p := m[p].(state := ALLOCED)], head[k := Drop(head[k], p)];
    forall k', j | 0 <= k' < ORDERS && 0 <= j < |head'[k']| ensures Listed(m', head'[k'][j], k') {
      var x := head'[k'][j];
      assert if k' == k then x in Drop(head[k], p) else x in head[k'];
      assert x in head[k'];
    }
  }

  /** An allocated page becomes free and joins the end of its list. */
  lemma ListsFree(m: Mem, head: seq<seq<Page>>, p: Page)
    requires Lists(m, head) && p in m && m[p].state == ALLOCED && m[p].order < ORDERS
    ensures |head| == ORDERS
    ensures Lists(m[p := m[p].(state := FREE)], head[m[p].order := head[m[p].order] + [p]])
  {
    var k := m[p].order;
    assert p !in head[k];
  }

  /** The pages of a list that are in ps, in their order. */
  function Keep(q: seq<Page>, ps: set<Page>): seq<Page> {
    if q == [] then [] else if q[0] in ps then [q[0]] + Keep(q[1..], ps) else Keep(q[1..], ps)
  }

  lemma {:induction false} KeepAll(q: seq<Page>, ps: set<Page>)
    requires forall j :: 0 <= j < |q| ==> q[j] in ps
    ensures Keep(q, ps) == q
  {
    if q != [] { KeepAll(q[1..], ps); }
  }

  lemma {:induction false} KeepTwice(q: seq<Page>, ps: set<Page>, ps': set<Page>)
    requires ps' <= ps
    ensures Keep(Keep(q, ps), ps') == Keep(q, ps')
  {
    if q != [] {
      KeepTwice(q[1..], ps, ps');
      if q[0] in ps { assert ([q[0]] + Keep(q[1..], ps))[1..] == Keep(q[1..], ps); }
    }
  }

  lemma {:induction false} DropKeeps(q: seq<Page>, p: Page, ps: set<Page>)
    requires Distinct(q) && forall j :: 0 <= j < |q| ==> q[j] in ps || q[j] == p
    requires p !in ps
    ensures Drop(q, p) == Keep(q, ps)
  {
    if q != [] {
      assert forall j :: 0 <= j < |q[1..]| ==> q[1..][j] == q[j + 1];
      if q[0] == p { KeepAll(q[1..], ps); } else { DropKeeps(q[1..], p, ps); }
    }
  }

  /** Taking a free page off its list, when it and an allocated page go. */
  lemma MergeLists(m: Mem, head: seq<seq<Page>>, page: Page, b: Page)
    requires Lists(m, head) && page in m && m[page].state == ALLOCED && b in m && m[b].state == FREE
    ensures |head| == ORDERS && m[b].order < ORDERS
    ensures forall k :: 0 <= k < ORDERS ==> head[m[b].order := Drop(head[m[b].order], b)][k] == Keep(head[k], m.Keys - {page, b})
  {
    var o, ps := m[b].order, m.Keys - {page, b};
    forall k | 0 <= k < ORDERS ensures head[o := Drop(head[o], b)][k] == Keep(head[k], ps) {
      assert forall j :: 0 <= j < |head[k]| ==> Listed(m, head[k][j], k);
      if k == o { DropKeeps(head[k], b, ps); } else { KeepAll(head[k], ps); }
    }
  }

  /** h' is h without the pages that are gone. */
  ghost predicate KeptLists(h: seq<seq<Page>>, h': seq<seq<Page>>, ps: set<Page>) {
    |h| == |h'| == ORDERS && forall k :: 0 <= k < ORDERS ==> h'[k] == Keep(h[k], ps)
  }

  lemma KeptTwice(h: seq<seq<Page>>, h': seq<seq<Page>>, h'': seq<seq<Page>>, ps: set<Page>, ps': set<Page>)
    requires KeptLists(h, h', ps) && KeptLists(h', h'', ps') && ps' <= ps
    ensures KeptLists(h, h'', ps')
  {
    forall k | 0 <= k < ORDERS ensures h''[k] == Keep(h[k], ps') { KeepTwice(h[k], ps, ps'); }
  }

  lemma KeptThenPut(h: seq<seq<Page>>, h': seq<seq<Page>>, h'': seq<seq<Page>>, ps: set<Page>, last: Page, order: nat)
    requires KeptLists(h, h', ps) && order < |h'| && h'' == h'[order := h'[order] + [last]]
    ensures PutLast(h, h'', ps, last, order)
  {
  }

  /** h' is h without the pages that are gone and with page last at the end of the list of its order. */
  ghost predicate PutLast(h: seq<seq<Page>>, h': seq<seq<Page>>, ps: set<Page>, last: Page, order: nat) {
    && |h| == |h'| == ORDERS && order < ORDERS
    && forall k :: 0 <= k < ORDERS ==> h'[k] == Keep(h[k], ps) + (if k == order then [last] else [])
  }

  /** The lists after an allocation of order lo that took the front of list k: the lists between, which were empty, hold
      the one half that was cut off there, a page that is not in ps, and the others are as before. */
  ghost predicate CutLists(h: seq<seq<Page>>, h': seq<seq<Page>>, lo: nat, k: nat, ps: set<Page>) {
    && |h| == |h'| == ORDERS && lo <= k < ORDERS && h[k] != []
    && forall j :: 0 <= j < ORDERS ==>
         if j == k then h'[j] == h[j][1..]
         else if lo <= j < k then h[j] == [] && |h'[j]| == 1 && h'[j][0] !in ps
         else h'[j] == h[j]
  }

  lemma CutMore(h: seq<seq<Page>>, h': seq<seq<Page>>, h'': seq<seq<Page>>, lo: nat, k: nat, ps: set<Page>, r: Page)
    requires CutLists(h, h', lo + 1, k, ps) && h[lo] == [] && r !in ps && h'' == h'[lo := h'[lo] + [r]]
    ensures CutLists(h, h'', lo, k, ps)
  {
  }

  /** With every listed page still there, the other lists are as before. */
  lemma PutLastSame(m: Mem, h: seq<seq<Page>>, h': seq<seq<Page>>, ps: set<Page>, last: Page, order: nat)
    requires Lists(m, h) && m.Keys <= ps && PutLast(h, h', ps, last, order)
    ensures h' == h[order := h[order] + [last]]
  {
    forall k | 0 <= k < ORDERS ensures h'[k] == h[order := h[order] + [last]][k] {
      assert forall j :: 0 <= j < |h[k]| ==> Listed(m, h[k][j], k);
      KeepAll(h[k], ps);
    }
  }

  /** No free page comes, goes or changes its order. */
  lemma ListsSame(m: Mem, m': Mem, head: seq<seq<Page>>)
    requires Lists(m, head)
    requires forall p :: p in m && m[p].state == FREE ==> Listed(m', p, m[p].order)
    requires forall p :: p in m' && m'[p].state == FREE ==> p in m && m'[p] == m[p]
    ensures Lists(m', head)
  {
  }

  // ----- the steps of the allocator, on the pages' fields -----

  /** A leaf changes from allocated to free, its buddy not being free, or back. */
  lemma LeafChange(m: Mem, fs: seq<Area>, i: nat, c: Ctx, p: Page, free: bool)
    requires Forest(m, fs) && Holds(fs, i, c, Leaf(p, !free)) && (free ==> !BuddyFree(c)) && p in m
    ensures Forest(m[p := m[p].(state := if free then FREE else ALLOCED)], Put(fs, i, Plug(c, Leaf(p, free))))
  {
    hide Forest;
    View(m, fs, i, c, Leaf(p, !free));
    PlugNoPair(c, Leaf(p, free));
    Change(m, m[p := m[p].(state := if free then FREE else ALLOCED)], fs, i, c, Leaf(p, !free), Leaf(p, free));
  }

  /** The place of the other half. */
  function Flip(c: Ctx, t: Tree): Ctx
    requires !c.Top?
    ensures Plug(Flip(c, t), Sibling(c)) == Plug(c, t)
  {
    if c.InLeft? then InRight(c.p, t, c.up) else InLeft(c.p, t, c.up)
  }

  function WithSibling(c: Ctx, t: Tree): Ctx
    requires !c.Top?
  {
    if c.InLeft? then InLeft(c.p, t, c.up) else InRight(c.p, t, c.up)
  }

  lemma FlipSibling(c: Ctx, t: Tree, t': Tree)
    requires !c.Top?
    ensures Plug(Flip(c, t), t') == Plug(WithSibling(c, t'), t)
  {
  }

  /** A page's links lead to its buddy and to the block it was cut from. */
  lemma Around(m: Mem, fs: seq<Area>, i: nat, c: Ctx, t: Tree)
    requires Forest(m, fs) && Holds(fs, i, c, t)
    ensures t.p in m && (m[t.p].pos == NoBud <==> c.Top?)
    ensures !c.Top? ==> var b := Sibling(c).p; b in m && b != t.p && m[t.p].b == b && m[b].b == t.p
    ensures !c.Top? ==> m[t.p].f == c.p && m[Sibling(c).p].f == c.p && c.p in m && m[c.p].state == VIRT
    ensures !c.Top? ==> (m[Sibling(c).p].state == FREE <==> BuddyFree(c)) && c.p != t.p && c.p != Sibling(c).p
    ensures t.Leaf? ==> m[t.p].state == if t.free then FREE else ALLOCED
    ensures !c.Top? && Sibling(c).Leaf? && !Sibling(c).free ==> m[Sibling(c).p].state == ALLOCED
  {
    View(m, fs, i, c, t);
    hide Forest;
  }

  /** Two allocated halves become the allocated block, and their pages go. */
  lemma Collapse(m: Mem, fs: seq<Area>, i: nat, up: Ctx, f: Page, l: Page, r: Page)
    requires Forest(m, fs) && Holds(fs, i, up, Split(f, Leaf(l, false), Leaf(r, false))) && f in m
    ensures Forest((m - {l, r})[f := m[f].(state := ALLOCED)], Put(fs, i, Plug(up, Leaf(f, false))))
  {
    hide Forest, RepCtx, CtxApart, CtxNoPair, Plug, RootAddr, CtxNodes;
    var t := Split(f, Leaf(l, false), Leaf(r, false));
    View(m, fs, i, up, t);
    PlugNoPair(up, Leaf(f, false));
    assert Nodes(t) == {f, l, r};
    Change(m, (m - {l, r})[f := m[f].(state := ALLOCED)], fs, i, up, t, Leaf(f, false));
  }

  lemma MergeChange(m: Mem, fs: seq<Area>, i: nat, c: Ctx, p: Page, b: Page)
    requires Forest(m, fs) && Holds(fs, i, c, Leaf(p, false)) && !c.Top? && Sibling(c) == Leaf(b, false) && c.p in m
    ensures Forest((m - {p, b})[c.p := m[c.p].(state := ALLOCED)], Put(fs, i, Plug(c.up, Leaf(c.p, false))))
  {
    hide Forest;
    assert {p, b} == {b, p};
    if c.InLeft? { Collapse(m, fs, i, c.up, c.p, p, b); } else { Collapse(m, fs, i, c.up, c.p, b, p); }
  }

  /** Pages l and r become the halves of page f. */
  ghost predicate Halved(m: Mem, m': Mem, i: nat, f: Page, l: Page, r: Page) {
    && f in m && m[f].order > 0 && l !in m && r !in m && l != r
    && m'.Keys == m.Keys + {l, r} && SameOn(m, m', m.Keys - {f}) && m'[f] == m[f].(state := VIRT)
    && m'[l] == Cell(m[f].addr, m[f].size / 2, m[f].order - 1, f, r, AtLeft, ALLOCED, i)
    && m'[r] == Cell(m[f].addr + m[f].size / 2, m[f].size / 2, m[f].order - 1, f, l, AtRight, ALLOCED, i)
  }

  /** An allocated block is cut into two allocated halves with pages of their own. */
  lemma DivideChange(m: Mem, m': Mem, fs: seq<Area>, i: nat, c: Ctx, f: Page, l: Page, r: Page)
    requires Forest(m, fs) && Holds(fs, i, c, Leaf(f, false)) && Halved(m, m', i, f, l, r)
    ensures m[f].state == ALLOCED
    ensures Forest(m', Put(fs, i, Plug(c, Split(f, Leaf(l, false), Leaf(r, false)))))
  {
    hide Forest, RepCtx, CtxApart, CtxNoPair, Plug, RootAddr, CtxNodes;
    var t := Split(f, Leaf(l, false), Leaf(r, false));
    View(m, fs, i, c, Leaf(f, false));
    assert Bytes(m[f].order) == 2 * Bytes(m[f].order - 1);
    PlugNoPair(c, t);
    assert Nodes(t) == {f, l, r} && Nodes(Leaf(f, false)) == {f};
    assert Rep(m', t, m[f].addr, m[f].order, LinkOf(c), i);
    assert NoPair(Plug(c, t)) && Apart(t);
    assert m'.Keys == m.Keys - {f} + {f, l, r};
    Change(m, m', fs, i, c, Leaf(f, false), t);
  }

  lemma DivideLists(m: Mem, m': Mem, head: seq<seq<Page>>, i: nat, f: Page, l: Page, r: Page)
    requires Lists(m, head) && Halved(m, m', i, f, l, r) && m[f].state == ALLOCED
    ensures Lists(m', head)
  {
    ListsSame(m, m', head);
  }

  /** A block of new memory, in a tree of its own. */
  lemma NewArea(m: Mem, fs: seq<Area>, p: Page, addr: nat, order: nat, x: Cell)
    requires Forest(m, fs) && p !in m && order < ORDERS
    requires x.addr == addr && x.size == Bytes(order) && x.order == order && x.pos == NoBud
    requires x.state == ALLOCED && x.root == |fs|
    ensures Forest(m[p := x], fs + [Area(addr, order, Leaf(p, false))])
  {
    var m', fs' := m[p := x], fs + [Area(addr, order, Leaf(p, false))];
    forall j | 0 <= j < |fs'| ensures AreaOk(m', fs'[j], j) {
      if j < |fs| {
        assert AreaOk(m, fs[j], j);
        RepNodes(m, fs[j].t, fs[j].addr, fs[j].order, Root, j);
        RepFrame(m, m', fs[j].t, fs[j].addr, fs[j].order, Root, j);
      }
    }
  }

  function Merges(c: Ctx): nat { if BuddyFree(c) then 1 + Merges(c.up) else 0 }

  /** The right half free, the left half allocated, from either side. */
  lemma PlugHalves(c: Ctx, f: Page, l: Page, r: Page)
    ensures Plug(c, Split(f, Leaf(l, false), Leaf(r, false))) == Plug(InRight(f, Leaf(l, false), c), Leaf(r, false))
    ensures Freed(InRight(f, Leaf(l, false), c), r) == Plug(InLeft(f, Leaf(r, true), c), Leaf(l, false))
  {
  }

  lemma PlugTop(p: Page)
    ensures Plug(Top, Leaf(p, false)) == Leaf(p, false) && Freed(Top, p) == Leaf(p, true)
  {
  }

  /** The least order from k on with a free page, ORDERS when there is none. */
  function FirstFree(head: seq<seq<Page>>, k: nat): nat
    requires |head| == ORDERS && k <= ORDERS
    ensures k <= FirstFree(head, k) <= ORDERS
    ensures FirstFree(head, k) < ORDERS ==> head[FirstFree(head, k)] != []
    ensures forall j :: k <= j < FirstFree(head, k) ==> head[j] == []
    decreases ORDERS - k
  {
    if k == ORDERS || head[k] != [] then k else FirstFree(head, k + 1)
  }

  lemma TwoMore(ps: set<Page>, l: Page, r: Page)
    requires l !in ps && r !in ps && l != r
    ensures |ps + {l, r}| == |ps| + 2
  {
    assert ps + {l, r} == ps + {l} + {r};
  }

  // ----- the memory -----

  function End(x: Area): int { x.addr + Bytes(x.order) }

  /** Inserted blocks do not overlap. */
  predicate AreasApart(fs: seq<Area>) {
    forall i, j :: 0 <= i < j < |fs| ==> End(fs[i]) <= fs[j].addr || End(fs[j]) <= fs[i].addr
  }

  lemma PutApart(fs: seq<Area>, i: nat, t: Tree)
    requires AreasApart(fs) && i < |fs|
    ensures AreasApart(Put(fs, i, t))
  {
  }

  predicate InMemory(fs: seq<Area>, a: int) { exists i :: 0 <= i < |fs| && fs[i].addr <= a < End(fs[i]) }

  predicate InPage(m: Mem, p: Page, a: int)
    requires p in m
  {
    m[p].addr <= a < m[p].addr + m[p].size
  }

  function BlocksOf(fs: seq<Area>, i: nat): seq<Block>
    requires i < |fs|
  {
    Blocks(fs[i].t, fs[i].addr, fs[i].order)
  }

  /** The block of a page that is not virtual, among the blocks of its tree. */
  lemma BlockAt(m: Mem, fs: seq<Area>, p: Page) returns (j: nat)
    requires Forest(m, fs) && p in m && m[p].state != VIRT
    ensures m[p].root < |fs| && m[p].size == Bytes(m[p].order) && j < |BlocksOf(fs, m[p].root)|
    ensures BlocksOf(fs, m[p].root)[j] == Block(m[p].addr, m[p].order, m[p].state == FREE, p)
    ensures Tiles(BlocksOf(fs, m[p].root), fs[m[p].root].addr, End(fs[m[p].root]))
  {
    var i := m[p].root;
    var x := fs[i];
    assert AreaOk(m, x, i);
    BlocksArePages(m, x.t, x.addr, x.order, Root, i);
    BlocksTile(m, x.t, x.addr, x.order, Root, i);
    assert Block(m[p].addr, m[p].order, m[p].state == FREE, p) in BlocksOf(fs, i);
    j :| 0 <= j < |BlocksOf(fs, i)| && BlocksOf(fs, i)[j] == Block(m[p].addr, m[p].order, m[p].state == FREE, p);
  }

  /** A page that is not virtual lies in its inserted block. */
  lemma PageInArea(m: Mem, fs: seq<Area>, p: Page)
    requires Forest(m, fs) && p in m && m[p].state != VIRT
    ensures m[p].root < |fs| && fs[m[p].root].addr <= m[p].addr && m[p].addr + m[p].size <= End(fs[m[p].root])
  {
    var j := BlockAt(m, fs, p);
    TilesApart(BlocksOf(fs, m[p].root), fs[m[p].root].addr, End(fs[m[p].root]));
    assert BlocksOf(fs, m[p].root)[j] in BlocksOf(fs, m[p].root);
  }

  /** Two such pages have no address in common. */
  lemma PagesApart(m: Mem, fs: seq<Area>, p: Page, q: Page)
    requires Forest(m, fs) && AreasApart(fs) && p in m && q in m && p != q
    requires m[p].state != VIRT && m[q].state != VIRT
    ensures m[p].addr + m[p].size <= m[q].addr || m[q].addr + m[q].size <= m[p].addr
  {
    if m[p].root == m[q].root {
      var j := BlockAt(m, fs, p);
      var k := BlockAt(m, fs, q);
      TilesApart(BlocksOf(fs, m[p].root), fs[m[p].root].addr, End(fs[m[p].root]));
    } else {
      PageInArea(m, fs, p);
      PageInArea(m, fs, q);
    }
  }

  lemma SameAddr(m: Mem, fs: seq<Area>, p: Page, q: Page)
    requires Forest(m, fs) && AreasApart(fs) && p in m && q in m && m[p].state != VIRT && m[q].state != VIRT
    requires m[p].addr == m[q].addr
    ensures p == q
  {
    var j := BlockAt(m, fs, p);
    var k := BlockAt(m, fs, q);
    if p != q { PagesApart(m, fs, p, q); }
  }

  /** Every address of the inserted memory is in such a page. */
  lemma PageOf(m: Mem, fs: seq<Area>, a: int) returns (p: Page)
    requires Forest(m, fs) && InMemory(fs, a)
    ensures p in m && m[p].state != VIRT && InPage(m, p, a)
  {
    var i :| 0 <= i < |fs| && fs[i].addr <= a < End(fs[i]);
    var x := fs[i];
    assert AreaOk(m, x, i);
    BlocksArePages(m, x.t, x.addr, x.order, Root, i);
    BlocksTile(m, x.t, x.addr, x.order, Root, i);
    var b := TilesCover(BlocksOf(fs, i), x.addr, End(x), a);
    p := b.p;
  }

  /** The pages that are not virtual partition the inserted memory. */
  lemma Partition(m: Mem, fs: seq<Area>, a: int)
    requires Forest(m, fs) && AreasApart(fs)
    ensures InMemory(fs, a) <==> exists p :: p in m && m[p].state != VIRT && InPage(m, p, a)
    ensures forall p, q :: p in m && q in m && m[p].state != VIRT && m[q].state != VIRT && InPage(m, p, a) && InPage(m, q, a) ==> p == q
  {
    if InMemory(fs, a) {
      var p := PageOf(m, fs, a);
    }
    forall p | p in m && m[p].state != VIRT && InPage(m, p, a) ensures InMemory(fs, a) {
      PageInArea(m, fs, p);
    }
    forall p, q | p in m && q in m && m[p].state != VIRT && m[q].state != VIRT && InPage(m, p, a) && InPage(m, q, a)
      ensures p == q
    {
      if p != q { PagesApart(m, fs, p, q); }
    }
  }

  predicate Outside(fs: seq<Area>, lo: int, hi: int) {
    forall j :: 0 <= j < |fs| ==> End(fs[j]) <= lo || hi <= fs[j].addr
  }

  /** Free blocks that follow each other from lo to hi. */
  predicate AreaTiles(fs: seq<Area>, lo: int, hi: int) {
    if fs == [] then lo == hi
    else
      var x := fs[|fs| - 1];
      FreeLeaf(x.t) && End(x) == hi && AreaTiles(fs[..|fs| - 1], lo, x.addr)
  }

  lemma TilesNone(lo: int)
    ensures AreaTiles([], lo, lo)
  {
  }

  lemma TilesMore(fs: seq<Area>, x: Area, lo: int, hi: int)
    requires AreaTiles(fs, lo, hi) && FreeLeaf(x.t) && x.addr == hi
    ensures AreaTiles(fs + [x], lo, End(x))
  {
    assert (fs + [x])[..|fs|] == fs;
  }

  lemma {:induction false} TilesWithin(fs: seq<Area>, lo: int, hi: int)
    requires AreaTiles(fs, lo, hi)
    ensures lo <= hi && forall j :: 0 <= j < |fs| ==> lo <= fs[j].addr && End(fs[j]) <= hi
    decreases |fs|
  {
    if fs != [] {
      var n := |fs| - 1;
      TilesWithin(fs[..n], lo, fs[n].addr);
      assert forall j :: 0 <= j < n ==> fs[j] == fs[..n][j];
    }
  }

  /** The next block lies outside the old memory and after the blocks already made. */
  lemma BlockOutside(was: seq<Area>, tiles: seq<Area>, lo: int, a: int, order: nat, hi: int)
    requires Outside(was, lo, hi) && AreaTiles(tiles, lo, a) && a + Bytes(order) <= hi
    ensures Outside(was + tiles, a, a + Bytes(order))
  {
    TilesWithin(tiles, lo, a);
  }

  /** The memory after an insertion. */
  lemma {:induction false} InsertedMemory(was: seq<Area>, tiles: seq<Area>, lo: int, hi: int, a: int)
    requires AreaTiles(tiles, lo, hi)
    ensures InMemory(was + tiles, a) <==> InMemory(was, a) || lo <= a < hi
    decreases |tiles|
  {
    if tiles == [] {
      assert was + tiles == was;
    } else {
      var n := |tiles| - 1;
      var x := tiles[n];
      InsertedMemory(was, tiles[..n], lo, x.addr, a);
      TilesWithin(tiles[..n], lo, x.addr);
      var shorter := was + tiles[..n];
      assert was + tiles == shorter + [x];
      MemoryMore(shorter, x, a);
    }
  }

  lemma MemoryMore(fs: seq<Area>, x: Area, a: int)
    ensures InMemory(fs + [x], a) <==> InMemory(fs, a) || x.addr <= a < End(x)
  {
    var all := fs + [x];
    if InMemory(fs, a) {
      var i :| 0 <= i < |fs| && fs[i].addr <= a < End(fs[i]);
      assert all[i] == fs[i];
    }
    if x.addr <= a < End(x) { assert all[|fs|] == x; }
    if InMemory(all, a) {
      var i :| 0 <= i < |all| && all[i].addr <= a < End(all[i]);
      assert i < |fs| ==> all[i] == fs[i];
    }
  }

  // ----- the index of allocated pages -----

  /** alloced_rbt finds every allocated page under its address, and nothing else. */
  ghost predicate Index(m: Mem, alloced: map<nat, Page>) {
    && (forall a :: a in alloced ==> alloced[a] in m && m[alloced[a]].addr == a && m[alloced[a]].state == ALLOCED)
    && (forall p :: p in m && m[p].state == ALLOCED ==> m[p].addr in alloced && alloced[m[p].addr] == p)
  }

  lemma TakenPage(m: Mem, fs: seq<Area>, p: Page)
    requires Forest(m, fs) && p in m
    ensures m[p].root < |fs| && (m[p].state == ALLOCED <==> p in Taken(fs[m[p].root].t))
  {
    var i := m[p].root;
    assert AreaOk(m, fs[i], i);
    TakenRep(m, fs[i].t, fs[i].addr, fs[i].order, Root, i);
  }

  lemma TakenIn(m: Mem, fs: seq<Area>, i: nat, p: Page)
    requires Forest(m, fs) && i < |fs| && p in Taken(fs[i].t)
    ensures p in m && m[p].state == ALLOCED && m[p].root == i
  {
    assert AreaOk(m, fs[i], i);
    TakenRep(m, fs[i].t, fs[i].addr, fs[i].order, Root, i);
    RepNodes(m, fs[i].t, fs[i].addr, fs[i].order, Root, i);
  }

  /** Pages keep their place and address. */
  predicate SamePlace(m: Mem, m': Mem) {
    forall p :: p in m && p in m' ==> m'[p].addr == m[p].addr && m'[p].root == m[p].root
  }

  /** Cutting a free block takes one more page. */
  lemma CarvedIndex(m: Mem, m': Mem, fs: seq<Area>, i: nat, c0: Ctx, g: Page, c: Ctx, p: Page, q: Page)
    requires Forest(m, fs) && Holds(fs, i, c0, Leaf(g, true)) && Carved(c0, g, c, p)
    requires Forest(m', Put(fs, i, Plug(c, Leaf(p, false)))) && m.Keys <= m'.Keys && SamePlace(m, m') && q in m'
    requires p in m ==> p == g
    ensures m'[q].state == ALLOCED <==> q == p || (q in m && m[q].state == ALLOCED)
    ensures p in m ==> m[p].state != ALLOCED
  {
    var fs' := Put(fs, i, Plug(c, Leaf(p, false)));
    CarvedTaken(c0, g, c, p);
    PlugTaken(c0, Leaf(g, true));
    PlugTaken(c, Leaf(p, false));
    assert Taken(fs'[i].t) == Taken(fs[i].t) + {p};
    TakenPage(m', fs', q);
    if q in m { TakenPage(m, fs, q); }
    if q in Taken(fs[m'[q].root].t) { TakenIn(m, fs, m'[q].root, q); }
    if p in m { View(m, fs, i, c0, Leaf(g, true)); }
    TakenIn(m', fs', i, p);
  }

  lemma IndexAdd(m: Mem, m': Mem, fs: seq<Area>, i: nat, c0: Ctx, g: Page, c: Ctx, p: Page, alloced: map<nat, Page>)
    requires Forest(m, fs) && Holds(fs, i, c0, Leaf(g, true)) && Carved(c0, g, c, p) && p in m'
    requires Forest(m', Put(fs, i, Plug(c, Leaf(p, false)))) && m.Keys <= m'.Keys && SamePlace(m, m')
    requires (p in m ==> p == g) && AreasApart(fs) && Index(m, alloced)
    ensures m'[p].addr !in alloced && Index(m', alloced[m'[p].addr := p])
  {
    hide Forest;
    forall q | q in m' ensures m'[q].state == ALLOCED <==> q == p || (q in m && m[q].state == ALLOCED) {
      CarvedIndex(m, m', fs, i, c0, g, c, p, q);
    }
    CarvedIndex(m, m', fs, i, c0, g, c, p, p);
    if m'[p].addr in alloced {
      SameAddr(m', Put(fs, i, Plug(c, Leaf(p, false))), p, alloced[m'[p].addr]);
    }
  }

  /** Freeing a page takes it, and no other allocated page, away. */
  lemma FreedIndex(m: Mem, m': Mem, fs: seq<Area>, i: nat, c: Ctx, p: Page, q: Page)
    requires Forest(m, fs) && Holds(fs, i, c, Leaf(p, false))
    requires Forest(m', Put(fs, i, Freed(c, p))) && m'.Keys <= m.Keys && SamePlace(m, m') && q in m
    ensures q in m' && m'[q].state == ALLOCED <==> q != p && m[q].state == ALLOCED
  {
    var fs' := Put(fs, i, Freed(c, p));
    FreedTaken(c, p);
    PlugTaken(c, Leaf(p, false));
    View(m, fs, i, c, Leaf(p, false));
    CtxTakenNodes(c);
    assert Taken(fs'[i].t) == Taken(fs[i].t) - {p};
    TakenPage(m, fs, q);
    if q in m' { TakenPage(m', fs', q); }
    if q != p && m[q].state == ALLOCED { TakenIn(m', fs', m[q].root, q); }
  }

  lemma {:induction false} TakenNodes(t: Tree)
    ensures Taken(t) <= Nodes(t)
  {
    if t.Split? {
      TakenNodes(t.l);
      TakenNodes(t.r);
    }
  }

  lemma {:induction false} CtxTakenNodes(c: Ctx)
    ensures CtxTaken(c) <= CtxNodes(c)
  {
    if !c.Top? {
      TakenNodes(Sibling(c));
      CtxTakenNodes(c.up);
    }
  }

  lemma IndexDel(m: Mem, m': Mem, fs: seq<Area>, i: nat, c: Ctx, p: Page, alloced: map<nat, Page>)
    requires Forest(m, fs) && Holds(fs, i, c, Leaf(p, false)) && Index(m, alloced) && p in m
    requires Forest(m', Put(fs, i, Freed(c, p))) && m'.Keys <= m.Keys && SamePlace(m, m')
    ensures Index(m', alloced - {m[p].addr})
  {
    hide Forest;
    View(m, fs, i, c, Leaf(p, false));
    forall q | q in m ensures q in m' && m'[q].state == ALLOCED <==> q != p && m[q].state == ALLOCED {
      FreedIndex(m, m', fs, i, c, p, q);
    }
  }

  /** The place of an allocated page, and the tree that freeing it leaves. */
  lemma TakenPlace(m: Mem, fs: seq<Area>, p: Page) returns (c: Ctx)
    requires Forest(m, fs) && p in m && m[p].state == ALLOCED
    ensures Holds(fs, m[p].root, c, Leaf(p, false)) && Release(fs[m[p].root].t, p) == Freed(c, p)
  {
    c := Place(m, fs, p);
    View(m, fs, m[p].root, c, Leaf(p, false));
    PlugApart(c, Leaf(p, false));
    ReleaseIsFreed(c, p);
  }

  /** A new free block takes no page. */
  lemma InsertIndex(m: Mem, m': Mem, fs: seq<Area>, x: Area, alloced: map<nat, Page>)
    requires Forest(m, fs) && Forest(m', fs + [x]) && FreeLeaf(x.t) && Index(m, alloced)
    requires m.Keys <= m'.Keys && SamePlace(m, m')
    ensures Index(m', alloced)
  {
    forall q | q in m' ensures m'[q].state == ALLOCED <==> q in m && m[q].state == ALLOCED {
      InsertTaken(m, m', fs, x, q);
    }
  }

  lemma InsertTaken(m: Mem, m': Mem, fs: seq<Area>, x: Area, q: Page)
    requires Forest(m, fs) && Forest(m', fs + [x]) && FreeLeaf(x.t) && q in m'
    requires m.Keys <= m'.Keys && SamePlace(m, m')
    ensures m'[q].state == ALLOCED <==> q in m && m[q].state == ALLOCED
  {
    TakenPage(m', fs + [x], q);
    if q in m { TakenPage(m, fs, q); }
    if q in Taken((fs + [x])[m'[q].root].t) { TakenIn(m, fs, m'[q].root, q); }
  }

  /** The lists say whether there is a free block of order k or larger. */
  lemma NoFreeBlock(m: Mem, head: seq<seq<Page>>, k: nat)
    requires Lists(m, head) && k <= ORDERS
    ensures FirstFree(head, k) == ORDERS <==> forall p :: p in m && m[p].state == FREE ==> m[p].order < k
  {
    var r := FirstFree(head, k);
    if r < ORDERS { assert Listed(m, head[r][0], r); }
  }

  lemma SamePages(m: Mem, m': Mem, fs: seq<Area>)
    requires Forest(m, fs) && Forest(m', fs)
    ensures m.Keys == m'.Keys
  {
    forall p | p in m ensures p in m' { PageIn(m, m', fs, p); }
    forall p | p in m' ensures p in m { PageIn(m', m, fs, p); }
  }

  lemma PageIn(m: Mem, m': Mem, fs: seq<Area>, p: Page)
    requires Forest(m, fs) && Forest(m', fs) && p in m
    ensures p in m'
  {
    var i := m[p].root;
    assert AreaOk(m', fs[i], i);
    RepNodes(m', fs[i].t, fs[i].addr, fs[i].order, Root, i);
  }

  /** The page cut from a free block, freed again, leaves the tree as it was. */
  lemma Restored(m: Mem, m': Mem, fs: seq<Area>, i: nat, c0: Ctx, g: Page, c: Ctx, p: Page)
    requires Forest(m, fs) && Holds(fs, i, c0, Leaf(g, true)) && Carved(c0, g, c, p)
    requires Forest(m', Put(fs, i, Plug(c, Leaf(p, false))))
    ensures p in m' && m'[p].root == i && m'[p].state == ALLOCED
    ensures Release(Plug(c, Leaf(p, false)), p) == fs[i].t
  {
    View(m', Put(fs, i, Plug(c, Leaf(p, false))), i, c, Leaf(p, false));
    PlugApart(c, Leaf(p, false));
    assert AreaOk(m, fs[i], i);
    RoundTrip(c0, g, c, p);
  }

  lemma SameFree(m: Mem, m': Mem, fs: seq<Area>, p: Page)
    requires Forest(m, fs) && Forest(m', fs) && p in m && p in m' && m[p].root == m'[p].root
    ensures m[p].state == FREE <==> m'[p].state == FREE
  {
    if m[p].state == FREE {
      var c := Place(m, fs, p);
      View(m', fs, m[p].root, c, Leaf(p, true));
    } else if m'[p].state == FREE {
      var c := Place(m', fs, p);
      View(m, fs, m[p].root, c, Leaf(p, true));
    }
  }

  lemma SameBlocks(m: Mem, m': Mem, fs: seq<Area>)
    requires Forest(m, fs) && Forest(m', fs) && SamePlace(m, m')
    ensures m.Keys == m'.Keys && forall p :: p in m ==> (m'[p].state == FREE <==> m[p].state == FREE)
  {
    hide Forest;
    SamePages(m, m', fs);
    forall p | p in m ensures m'[p].state == FREE <==> m[p].state == FREE { SameFree(m, m', fs, p); }
  }

  lemma PutBack(fs: seq<Area>, i: nat, t: Tree)
    requires i < |fs|
    ensures |Put(fs, i, t)| == |fs| && Put(fs, i, t)[i].t == t && Put(Put(fs, i, t), i, fs[i].t) == fs
  {
  }
}
