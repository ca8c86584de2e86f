/** The buddy allocator of physical memory (kernel/memory/pm.c). */
module Buddy {
  import opened BuddyTree
  import opened BuddyForest

  datatype Error = E_OK | E_NOMEM | E_INVAL | E_NOSLOT

  const ADDRESSES: nat := 0x1_0000_0000 // size_t and addr_t have 32 bits

  /** size / PAGE_SIZE after rounding up, with the wrap-around of 32-bit arithmetic. */
  function PagesFor(size: nat): nat { (size + PAGE - 1) % ADDRESSES / PAGE }

  /** The least order from k on whose blocks have n pages or more. */
  function LeastOrder(n: nat, k: nat): (r: nat)
    requires k < ORDERS
    ensures k <= r < ORDERS && (n <= Pow2(ORDERS - 1) ==> n <= Pow2(r)) && forall j :: k <= j < r ==> Pow2(j) < n
    decreases ORDERS - k
  {
    if k == ORDERS - 1 || n <= Pow2(k) then k else LeastOrder(n, k + 1)
  }

  function OrderFor(size: nat): nat { LeastOrder(PagesFor(size), 0) }

  lemma {:induction false} Pow2Grows(j: nat, k: nat)
    requires j <= k
    ensures Pow2(j) <= Pow2(k)
    decreases k
  {
    if j < k { Pow2Grows(j, k - 1); }
  }

  lemma LargestOrder()
    ensures Pow2(ORDERS - 1) == 0x10_0000
  {
    assert Pow2(5) == 32;
    assert Pow2(10) == 1024;
    assert Pow2(15) == 32768;
    assert Pow2(20) == 0x10_0000;
  }

  /** The order asked for is the least sufficient one exactly when rounding the size up does not wrap. */
  lemma OrderForMeaning(size: nat)
    requires 0 < size < ADDRESSES
    ensures size <= 0xFFFF_F000 <==> size <= Bytes(OrderFor(size))
    ensures size <= 0xFFFF_F000 ==> forall j :: 0 <= j < OrderFor(size) ==> Bytes(j) < size
    ensures size > 0xFFFF_F000 ==> OrderFor(size) == 0
  {
    LargestOrder();
    var n := PagesFor(size);
    if size > 0xFFFF_F000 {
      assert n == 0;
    } else {
      assert n == (size + PAGE - 1) / PAGE && n * PAGE >= size > (n - 1) * PAGE;
      forall j | 0 <= j < OrderFor(size) ensures Bytes(j) < size { assert Pow2(j) <= n - 1; }
    }
  }

  /** The loop of pm_alloc: from the largest order downwards. */
  method FindOrder(size: nat) returns (order: nat)
    requires 0 < size < ADDRESSES
    ensures order == OrderFor(size)
  {
    var n := (size + PAGE - 1) % ADDRESSES / PAGE;
    LargestOrder();
    order := ORDERS - 1;
    var i := ORDERS - 1;
    while i > 0 && n <= Pow2(i - 1)
      invariant i == order < ORDERS && n <= Pow2(order)
      decreases i
    {
      i := i - 1;
      order := i;
    }
    LeastOrderIs(n, 0, order);
  }

  lemma {:induction false} LeastOrderIs(n: nat, k: nat, r: nat)
    requires k <= r < ORDERS && n <= Pow2(r) && (r > 0 ==> Pow2(r - 1) < n)
    ensures LeastOrder(n, k) == r
    decreases r - k
  {
    if k < r {
      Pow2Grows(k, r - 1);
      LeastOrderIs(n, k + 1, r);
    }
  }

  // ----- the bits of pm_insert -----

  /** Bit i of n. */
  predicate Bit(n: nat, i: nat) { n / Pow2(i) % 2 == 1 }

  /** The bytes of the blocks for the bits below i. */
  function Low(n: nat, i: nat): nat { n % Pow2(i) * PAGE }

  lemma MulGrows(k: int, w: int)
    requires w >= 0
    ensures (k >= 1 ==> k * w >= w) && (k <= -1 ==> k * w <= -w)
  {
    if k >= 1 { assert (k - 1) * w >= 0; }
    if k <= -1 { assert (k + 1) * w <= 0; }
  }

  lemma ModUnique(n: nat, w: nat, q: nat, r: nat)
    requires n == q * w + r && r < w
    ensures n % w == r
  {
    var k := q - n / w;
    assert n == n / w * w + n % w;
    assert k * w == q * w - n / w * w;
    MulGrows(k, w);
  }

  lemma BitStep(n: nat, i: nat)
    ensures Low(n, i + 1) == Low(n, i) + (if Bit(n, i) then Bytes(i) else 0) <= n * PAGE
    ensures Bytes(i) > 0
  {
    var w := Pow2(i);
    var q, r := n / w, n % w;
    var bit := q % 2;
    HalfUp(q, w);
    assert n == q / 2 * (2 * w) + (bit * w + r);
    assert bit * w == if bit == 1 then w else 0;
    ModUnique(n, 2 * w, q / 2, bit * w + r);
    assert n % (2 * w) <= n;
  }

  lemma HalfUp(q: nat, w: nat)
    ensures q * w == q / 2 * (2 * w) + q % 2 * w
  {
    assert q == 2 * (q / 2) + q % 2;
    assert (2 * (q / 2)) * w == q / 2 * (2 * w);
  }

  lemma BitsAll(n: nat)
    requires n <= 0x10_0000
    ensures Low(n, ORDERS) == n * PAGE && Low(n, 0) == 0
  {
    LargestOrder();
    assert Pow2(ORDERS) == 2 * Pow2(ORDERS - 1);
  }

  /** The blocks ascend in order, and there is one of order k, below i, exactly for each bit k of n. */
  ghost predicate BitBlocks(fs: seq<Area>, n: nat, i: nat) {
    && (forall j, k :: 0 <= j < k < |fs| ==> fs[j].order < fs[k].order)
    && (forall j :: 0 <= j < |fs| ==> fs[j].order < i && Bit(n, fs[j].order))
    && (forall k: nat :: k < i && Bit(n, k) ==> exists j :: 0 <= j < |fs| && fs[j].order == k)
  }

  lemma NoBits(n: nat)
    ensures BitBlocks([], n, 0)
  {
  }

  lemma NextBit(fs: seq<Area>, n: nat, i: nat, x: Area)
    requires BitBlocks(fs, n, i) && Bit(n, i) && x.order == i
    ensures BitBlocks(fs + [x], n, i + 1)
  {
    hide Bit;
    var gs := fs + [x];
    forall k: nat | k < i + 1 && Bit(n, k) ensures exists j :: 0 <= j < |gs| && gs[j].order == k {
      if k < i {
        var j :| 0 <= j < |fs| && fs[j].order == k;
        assert gs[j].order == k;
      } else {
        assert gs[|fs|].order == k;
      }
    }
  }

  lemma SkipBit(fs: seq<Area>, n: nat, i: nat)
    requires BitBlocks(fs, n, i) && !Bit(n, i)
    ensures BitBlocks(fs, n, i + 1)
  {
    hide Bit;
  }

  /** No free page of order k or larger. */
  ghost predicate FreeBelow(ps: set<Page>, k: nat)
    reads ps
  {
    forall p :: p in ps && p.state == FREE ==> p.order < k
  }

  /** x is an address of the block p stands for. */
  ghost predicate HasAddress(p: Page, x: int)
    reads p
  {
    p.state != VIRT && p.addr <= x < p.addr + p.size
  }

  /** struct page_alct_t. head: the lists of free pages. slots: free page descriptors. alloced_rbt is a
      map from addresses to pages here. */
  class PageAlct {
    var head: seq<seq<Page>>
    var slots: nat
    var alloced: map<nat, Page>
    ghost var pages: set<Page>
    ghost var areas: seq<Area>
    ghost var capacity: nat

    ghost predicate Core()
      reads this, pages
    {
      && |head| == ORDERS && Forest(Snap(pages), areas) && Lists(Snap(pages), head)
      && slots + |pages| == capacity
    }

    ghost predicate Valid()
      reads this, pages
    {
      Core() && AreasApart(areas) && Index(Snap(pages), alloced)
    }

    /** The pages that are not virtual partition the inserted memory. */
    lemma PagesPartition(x: int)
      requires Valid()
      ensures InMemory(areas, x) <==> exists p :: p in pages && HasAddress(p, x)
      ensures forall p, q :: p in pages && q in pages && HasAddress(p, x) && HasAddress(q, x) ==> p == q
    {
      hide Forest, Lists, Index, AreasApart, InMemory;
      var m := Snap(pages);
      Partition(m, areas, x);
      if InMemory(areas, x) {
        var p :| p in m && m[p].state != VIRT && InPage(m, p, x);
        assert p in pages && HasAddress(p, x);
      }
      forall p, q | p in pages && q in pages && HasAddress(p, x) && HasAddress(q, x) ensures p == q {
        assert InPage(m, p, x) && InPage(m, q, x);
      }
      forall p | p in pages && HasAddress(p, x) ensures InMemory(areas, x) {
        assert InPage(m, p, x);
      }
    }

    /** A block of order k has 2^k pages; a free one is in the list of its order and its buddy is not free. */
    lemma PageFacts(p: Page)
      requires Valid() && p in pages && p.state != VIRT
      ensures p.order < ORDERS && p.size == Pow2(p.order) * PAGE
      ensures forall k :: 0 <= k < ORDERS ==> (p in head[k] <==> p.state == FREE && k == p.order)
      ensures p.pos != NoBud ==> p.b != null && p.b in pages && p.b.order == p.order && p.b.b == p
      ensures p.pos != NoBud && p.state == FREE ==> p.b.state != FREE
    {
      hide Forest, Index, AreasApart;
      var m := Snap(pages);
      var c := Place(m, areas, p);
      View(m, areas, p.root, c, Leaf(p, p.state == FREE));
      Around(m, areas, p.root, c, Leaf(p, p.state == FREE));
      forall k | 0 <= k < ORDERS && p in head[k] ensures p.state == FREE && k == p.order {
        var j :| 0 <= j < |head[k]| && head[k][j] == p;
        assert Listed(m, head[k][j], k);
      }
    }

    /** pm_init, with room for n page descriptors. */
    constructor (n: nat)
      ensures Valid() && slots == capacity == n && areas == [] && pages == {} && alloced == map[]
    {
      head := seq(ORDERS, _ => []);
      slots, capacity := n, n;
      alloced := map[];
      pages, areas := {}, [];
    }

    /** new_page */
    method NewPage() returns (p: Page?)
      modifies `slots
      ensures if old(slots) == 0 then p == null && slots == 0 else p != null && fresh(p) && slots == old(slots) - 1
    {
      if slots == 0 { return null; }
      slots := slots - 1;
      p := new Page();
    }

    /** buddy_get_ptc: takes a particular page if it is free. */
    method GetPtc(page: Page, ghost i: nat, ghost c: Ctx) returns (ok: bool)
      requires Core() && page in pages && (page.state == FREE ==> Holds(areas, i, c, Leaf(page, true)))
      modifies `head, `areas, page`state
      ensures Core() && ok == (old(page.state) == FREE)
      ensures if ok then page.state == ALLOCED && areas == Put(old(areas), i, Plug(c, Leaf(page, false)))
              else page.state == old(page.state) && areas == old(areas) && head == old(head)
      ensures ok ==> page.order < |old(head)| && head == old(head)[page.order := Drop(old(head)[page.order], page)]
    {
      hide Forest, Lists, Plug;
      if page.state != FREE { return false; }
      ghost var m := Snap(pages);
      LeafChange(m, areas, i, c, page, false);
      ListsTake(m, head, page);
      head := head[page.order := Drop(head[page.order], page)];
      page.state := ALLOCED;
      areas := Put(areas, i, Plug(c, Leaf(page, false)));
      assert Snap(pages) == m[page := m[page].(state := ALLOCED)];
      return true;
    }

    /** merge_page and the two calls of free_page after it. */
    method MergePage(page: Page, b: Page, ghost i: nat, ghost c: Ctx) returns (f: Page)
      requires Core() && page in pages && b in pages
      requires Holds(areas, i, c, Leaf(page, false)) && !c.Top? && Sibling(c) == Leaf(b, false)
      modifies `areas, `pages, `slots, pages`state
      ensures Core() && f == c.p && f in pages && pages == old(pages) - {page, b} && slots == old(slots) + 2
      ensures areas == Put(old(areas), i, Plug(c.up, Leaf(f, false)))
    {
      hide Forest, Lists, Plug;
      ghost var m := Snap(pages);
      Around(m, areas, i, c, Leaf(page, false));
      assert page.b == b && b.b == page && page.f == b.f && page.state == ALLOCED;
      f := page.f;
      assert f.state == VIRT;
      MergeChange(m, areas, i, c, page, b);
      f.state := ALLOCED;
      slots := slots + 2;
      pages := pages - {page, b};
      areas := Put(areas, i, Plug(c.up, Leaf(f, false)));
      assert Snap(pages) == (m - {page, b})[f := m[f].(state := ALLOCED)];
      ListsSame(m, Snap(pages), head);
    }

    lemma GoneFromLists(page: Page, b: Page, i: nat, c: Ctx)
      requires Core() && page in pages && b in pages && Holds(areas, i, c, Leaf(page, false))
      ensures |head| == ORDERS
      ensures b.state == FREE ==> b.order < ORDERS && forall k :: 0 <= k < ORDERS ==>
                head[b.order := Drop(head[b.order], b)][k] == Keep(head[k], pages - {page, b})
    {
      hide Forest, Lists, Plug, Keep, Drop;
      var m := Snap(pages);
      View(m, areas, i, c, Leaf(page, false));
      if b.state == FREE {
        MergeLists(m, head, page, b);
        assert m.Keys == pages;
      }
    }

    /** One turn of buddy_put's loop; null when the buddy is not free. */
    method MergeUp(page: Page, ghost i: nat, ghost c: Ctx) returns (f: Page?)
      requires Core() && page in pages && page.pos != NoBud && Holds(areas, i, c, Leaf(page, false))
      modifies `head, `areas, `pages, `slots, pages`state
      ensures Core() && (f == null <==> !BuddyFree(c))
      ensures f == null ==> areas == old(areas) && pages == old(pages)
      ensures f != null ==> f == c.p && f in pages && pages < old(pages) && slots == old(slots) + 2
      ensures f == null ==> slots == old(slots) && head == old(head)
      ensures f != null ==> areas == Put(old(areas), i, Plug(c.up, Leaf(f, false)))
      ensures f != null ==> KeptLists(old(head), head, pages)
    {
      hide Forest, Lists, Plug, Keep, Drop;
      ghost var ps := pages;
      Around(Snap(pages), areas, i, c, Leaf(page, false));
      var b := page.b;
      GoneFromLists(page, b, i, c);
      FlipSibling(c, Leaf(page, false), Leaf(b, false));
      var ok := GetPtc(b, i, Flip(c, Leaf(page, false)));
      if !ok { return null; }
      ghost var c' := WithSibling(c, Leaf(b, false));
      Around(Snap(pages), areas, i, c', Leaf(page, false));
      f := MergePage(page, b, i, c');
    }

    /** The end of buddy_put. */
    method MakeFree(page: Page, ghost i: nat, ghost c: Ctx)
      requires Core() && page in pages && Holds(areas, i, c, Leaf(page, false)) && !BuddyFree(c)
      modifies `head, `areas, page`state
      ensures Core() && areas == Put(old(areas), i, Plug(c, Leaf(page, true)))
      ensures page.order < |old(head)| && head == old(head)[page.order := old(head)[page.order] + [page]]
    {
      hide Forest, Lists, Plug;
      ghost var m := Snap(pages);
      Around(m, areas, i, c, Leaf(page, false));
      View(m, areas, i, c, Leaf(page, false));
      LeafChange(m, areas, i, c, page, true);
      ListsFree(m, head, page);
      page.state := FREE;
      head := head[page.order := head[page.order] + [page]];
      areas := Put(areas, i, Plug(c, Leaf(page, true)));
      assert Snap(pages) == m[page := m[page].(state := FREE)];
    }

    /** A page without a buddy is the root of its tree. */
    lemma AtTop(page: Page, i: nat, c: Ctx)
      requires Core() && page in pages && Holds(areas, i, c, Leaf(page, false))
      ensures page.pos == NoBud <==> c.Top?
    {
      hide Forest, Lists, Plug;
      Around(Snap(pages), areas, i, c, Leaf(page, false));
    }

    lemma PutSame(fs: seq<Area>, i: nat, c: Ctx, t: Tree)
      requires Holds(fs, i, c, t)
      ensures i < |fs| && Put(fs, i, Plug(c, t)) == fs
    {
    }

    lemma PutTwice(fs: seq<Area>, i: nat, x: Tree, c: Ctx, t: Tree)
      requires i < |fs|
      ensures |Put(fs, i, x)| == |fs| && Put(Put(fs, i, x), i, Plug(c, t)) == Put(fs, i, Plug(c, t))
      ensures Holds(Put(fs, i, Plug(c, t)), i, c, t)
    {
    }

    lemma FreedUp(c: Ctx, page: Page)
      ensures BuddyFree(c) ==> Freed(c, page) == Freed(c.up, c.p) && Merges(c) == 1 + Merges(c.up)
      ensures !BuddyFree(c) ==> Merges(c) == 0
    {
    }

    /** The loop of buddy_put: page is what has been merged. */
    method MergeAll(first: Page, ghost i: nat, ghost c0: Ctx) returns (page: Page, ghost c: Ctx)
      requires Core() && first in pages && Holds(areas, i, c0, Leaf(first, false))
      modifies `head, `areas, `pages, `slots, pages`state
      ensures Core() && page in pages && pages <= old(pages) && slots == old(slots) + 2 * Merges(c0)
      ensures areas == Put(old(areas), i, Plug(c, Leaf(page, false))) && Freed(c, page) == Freed(c0, first)
      ensures Holds(areas, i, c, Leaf(page, false)) && !BuddyFree(c)
      ensures !BuddyFree(c0) ==> c == c0 && pages == old(pages) && page == first
      ensures KeptLists(old(head), head, pages)
    {
      ListsKept();
      PutSame(areas, i, c0, Leaf(first, false));
      hide Core, Forest, Lists, Plug, Snap, KeptLists, Freed, Merges, Put, Holds;
      page, c := first, c0;
      while page.pos != NoBud
        invariant Core() && page in pages && pages <= old(pages) && slots + 2 * Merges(c) == old(slots) + 2 * Merges(c0)
        invariant !BuddyFree(c0) ==> c == c0 && pages == old(pages) && page == first
        invariant areas == Put(old(areas), i, Plug(c, Leaf(page, false))) && Freed(c, page) == Freed(c0, first)
        invariant Holds(areas, i, c, Leaf(page, false))
        invariant KeptLists(old(head), head, pages)
        decreases c
      {
        AtTop(page, i, c);
        FreedUp(c, page);
        ghost var ps, h := pages, head;
        var f := MergeUp(page, i, c);
        if f == null { return; }
        KeptTwice(old(head), h, head, ps, pages);
        PutTwice(old(areas), i, Plug(c, Leaf(page, false)), c.up, Leaf(f, false));
        page := f;
        c := c.up;
      }
      AtTop(page, i, c);
      FreedUp(c, page);
    }

    /** buddy_put: the merged page goes to the end of the list of its order, and the pages merged into it leave theirs. */
    method BuddyPut(first: Page, ghost i: nat, ghost c0: Ctx) returns (ghost last: Page)
      requires Core() && first in pages && Holds(areas, i, c0, Leaf(first, false))
      modifies `head, `areas, `pages, `slots, pages`state
      ensures Core() && pages <= old(pages) && slots == old(slots) + 2 * Merges(c0)
      ensures areas == Put(old(areas), i, Freed(c0, first))
      ensures !BuddyFree(c0) ==> pages == old(pages) && last == first
      ensures last in pages && PutLast(old(head), head, pages, last, last.order)
    {
      hide Core, Forest, Lists, Plug, Snap, KeptLists, PutLast;
      var page: Page;
      ghost var c;
      page, c := MergeAll(first, i, c0);
      ghost var h := head;
      MakeFree(page, i, c);
      last := page;
      KeptThenPut(old(head), h, head, pages, last, last.order);
    }

    lemma ListsKept()
      requires Core()
      ensures KeptLists(head, head, pages)
    {
      var m := Snap(pages);
      forall k | 0 <= k < ORDERS ensures head[k] == Keep(head[k], pages) {
        assert forall j :: 0 <= j < |head[k]| ==> Listed(m, head[k][j], k);
        KeepAll(head[k], pages);
      }
    }

    /** buddy_get: the front of a list. */
    method BuddyGet(order: nat) returns (page: Page?, ghost c: Ctx)
      requires Core() && order < ORDERS
      modifies `head, `areas, pages`state
      ensures Core() && (page == null <==> old(head)[order] == [])
      ensures page == null ==> areas == old(areas) && head == old(head)
      ensures page != null ==> page == old(head)[order][0] && page in pages && page.order == order
      ensures page != null ==> Holds(old(areas), page.root, c, Leaf(page, true))
      ensures page != null ==> areas == Put(old(areas), page.root, Plug(c, Leaf(page, false)))
      ensures page != null ==> |old(head)| == ORDERS && head == old(head)[order := old(head)[order][1..]]
      ensures page == null ==> Snap(pages) == old(Snap(pages))
    {
      hide Forest, Plug;
      if head[order] == [] {
        c := Top;
        return null, c;
      }
      ghost var m := Snap(pages);
      page := head[order][0];
      assert Listed(m, page, order);
      c := Place(m, areas, page);
      LeafChange(m, areas, page.root, c, page, false);
      ListsTake(m, head, page);
      hide Lists;
      head := head[order := head[order][1..]];
      page.state := ALLOCED;
      areas := Put(areas, page.root, Plug(c, Leaf(page, false)));
      assert Snap(pages) == m[page := m[page].(state := ALLOCED)];
    }

    /** Hands two pages from new_page to divide_page and takes the halves into the tree. */
    method Divide(f: Page, l: Page, r: Page, ghost i: nat, ghost c: Ctx)
      requires |head| == ORDERS && Forest(Snap(pages), areas) && Lists(Snap(pages), head) && slots + 2 + |pages| == capacity
      requires f in pages && Holds(areas, i, c, Leaf(f, false)) && l !in pages && r !in pages && l != r && f.order > 0
      modifies `areas, `pages, f`state, l, r
      ensures Core() && pages == old(pages) + {l, r} && l.order == r.order == f.order - 1
      ensures areas == Put(old(areas), i, Plug(c, Split(f, Leaf(l, false), Leaf(r, false))))
    {
      hide Forest, Lists, Plug;
      hide Snap, Halved;
      ghost var m := Snap(pages);
      TwoMore(pages, l, r);
      var err := DividePage(f, l, r, pages, i);
      pages := pages + {l, r};
      ghost var m' := Snap(pages);
      DivideChange(m, m', areas, i, c, f, l, r);
      DivideLists(m, m', head, i, f, l, r);
      areas := Put(areas, i, Plug(c, Split(f, Leaf(l, false), Leaf(r, false))));
    }

    /** The two new pages of buddy_alloc: the left one is returned, the right one put into its list. */
    method Halve(f: Page, ghost i: nat, ghost c: Ctx) returns (l: Page, ghost r: Page)
      requires Core() && f in pages && f.order > 0 && Holds(areas, i, c, Leaf(f, false)) && slots >= 2
      modifies `head, `areas, `pages, `slots, pages`state
      ensures Core() && pages == old(pages) + {l, r} && fresh(l) && fresh(r) && slots == old(slots) - 2
      ensures l.order == f.order - 1
      ensures areas == Put(old(areas), i, Plug(InLeft(f, Leaf(r, true), c), Leaf(l, false)))
      ensures l.order < |old(head)| && head == old(head)[l.order := old(head)[l.order] + [r]]
    {
      hide Forest, Lists, Plug, Snap, PutLast;
      l := NewPage();
      var right := NewPage();
      r := right;
      Divide(f, l, right, i, c);
      PlugHalves(c, f, l, r);
      ghost var last := PutAlone(right, i, InRight(f, Leaf(l, false), c));
    }

    /** buddy_put of a page whose buddy is not free. */
    method PutAlone(page: Page, ghost i: nat, ghost c: Ctx) returns (ghost last: Page)
      requires Core() && page in pages && Holds(areas, i, c, Leaf(page, false)) && !BuddyFree(c)
      modifies `head, `areas, `pages, `slots, pages`state
      ensures Core() && pages == old(pages) && slots == old(slots) && areas == Put(old(areas), i, Freed(c, page))
      ensures page.order < |old(head)| && head == old(head)[page.order := old(head)[page.order] + [page]]
    {
      ghost var m := Snap(pages);
      assert Lists(m, head) && m.Keys == pages;
      hide Core, Forest, Lists, Plug, PutLast, Freed;
      FreedUp(c, page);
      last := BuddyPut(page, i, c);
      PutLastSame(m, old(head), head, pages, last, last.order);
    }

    /** buddy_alloc: null for E_NOMEM. The free block g at place c0 of tree i is cut until its left end,
        page, has the order asked for. */
    method BuddyAlloc(order: nat) returns (page: Page?, ghost i: nat, ghost g: Page?, ghost c0: Ctx, ghost c: Ctx)
      requires Core()
      requires order < ORDERS ==> var k := FirstFree(head, order); k < ORDERS ==> slots >= 2 * (k - order)
      modifies `head, `areas, `pages, `slots, pages`state
      ensures Core() && fresh(pages - old(pages))
      ensures page == null <==> order >= ORDERS || FirstFree(old(head), order) == ORDERS
      ensures page == null ==> areas == old(areas) && pages == old(pages) && head == old(head)
      ensures page == null ==> Snap(pages) == old(Snap(pages))
      ensures page != null ==> page in pages && page.order == order && g == old(head)[FirstFree(old(head), order)][0]
      ensures page != null ==> Holds(old(areas), i, c0, Leaf(g, true)) && Carved(c0, g, c, page)
      ensures page != null ==> areas == Put(old(areas), i, Plug(c, Leaf(page, false)))
      ensures old(pages) <= pages && (page in old(pages) ==> page == g)
      ensures page != null ==> slots + 2 * (FirstFree(old(head), order) - order) == old(slots)
      ensures page != null ==> CutLists(old(head), head, order, FirstFree(old(head), order), old(pages))
      decreases ORDERS - order
    {
      hide Forest, Lists, Plug, Snap, CutLists;
      i, g, c0, c := 0, null, Top, Top;
      if order >= ORDERS { return null, i, g, c0, c; }
      page, c0 := BuddyGet(order);
      if page != null {
        i, g, c := page.root, page, c0;
        CutNone(old(head), order, old(pages));
      } else {
        var f: Page?;
        f, i, g, c0, c := BuddyAlloc(order + 1);
        if f != null {
          ghost var r: Page;
          ghost var h := head;
          page, r := Halve(f, i, c);
          CutMore(old(head), h, head, order, FirstFree(old(head), order), old(pages), r);
          c := InLeft(f, Leaf(r, true), c);
        }
      }
    }

    lemma CutNone(h: seq<seq<Page>>, k: nat, ps: set<Page>)
      requires |h| == ORDERS && k < ORDERS && h[k] != []
      ensures CutLists(h, h[k := h[k][1..]], k, k, ps)
    {
    }

    lemma SameStart(i: nat, c0: Ctx, g: Page, c: Ctx, page: Page)
      requires Core() && page in pages && Holds(areas, i, c, Leaf(page, false)) && Carved(c0, g, c, page)
      ensures g in pages && page.addr == g.addr
    {
      hide Forest, Lists, Plug;
      var m := Snap(pages);
      View(m, areas, i, c, Leaf(page, false));
      CarvedAddr(m, c0, g, c, page, m[page].order, i);
    }

    /** pm_alloc */
    method Alloc(size: nat) returns (err: Error, page: Page?, ghost i: nat, ghost g: Page?, ghost c0: Ctx, ghost c: Ctx)
      requires Valid() && size < ADDRESSES
      requires size > 0 ==> var k := FirstFree(head, OrderFor(size)); k < ORDERS ==> slots >= 2 * (k - OrderFor(size))
      modifies this, pages`state
      ensures Valid() && fresh(pages - old(pages)) && capacity == old(capacity)
      ensures err == if size == 0 then E_INVAL else if FirstFree(old(head), OrderFor(size)) == ORDERS then E_NOMEM else E_OK
      ensures size > 0 ==> (err == E_NOMEM <==> old(FreeBelow(pages, OrderFor(size))))
      ensures err != E_OK ==> areas == old(areas) && pages == old(pages) && head == old(head) && alloced == old(alloced)
      ensures err == E_OK ==> page != null && page in pages && page.order == OrderFor(size)
      ensures err == E_OK ==> page.addr !in old(alloced) && alloced == old(alloced)[page.addr := page]
      ensures err == E_OK ==> g == old(head)[FirstFree(old(head), OrderFor(size))][0] && page.addr == g.addr
      ensures err == E_OK ==> Holds(old(areas), i, c0, Leaf(g, true)) && Carved(c0, g, c, page)
      ensures err == E_OK ==> areas == Put(old(areas), i, Plug(c, Leaf(page, false)))
      ensures err == E_OK ==> CutLists(old(head), head, OrderFor(size), FirstFree(old(head), OrderFor(size)), old(pages))
    {
      hide Forest, Lists, Plug, Index, Carved, OrderFor, AreasApart, CutLists;
      page, i, g, c0, c := null, 0, null, Top, Top;
      if size == 0 { return E_INVAL, page, i, g, c0, c; }
      ghost var m := Snap(pages);
      var order := FindOrder(size);
      NoFreeBlock(m, head, order);
      assert FreeBelow(pages, order) <==> FirstFree(head, order) == ORDERS by {
        assert forall p :: p in pages <==> p in m;
      }
      hide FreeBelow;
      page, i, g, c0, c := BuddyAlloc(order);
      if page == null {
        return E_NOMEM, page, i, g, c0, c;
      }
      SameStart(i, c0, g, c, page);
      PutApart(old(areas), i, Plug(c, Leaf(page, false)));
      IndexAdd(m, Snap(pages), old(areas), i, c0, g, c, page, alloced);
      alloced := alloced[page.addr := page];
      err := E_OK;
    }

    /** pm_free */
    method Free(page: Page) returns (ghost last: Page)
      requires Valid() && page in pages && page.state == ALLOCED && page.root < |areas|
      modifies this, pages`state
      ensures Valid() && pages <= old(pages) && capacity == old(capacity)
      ensures areas == Put(old(areas), page.root, Release(old(areas)[page.root].t, page))
      ensures alloced == old(alloced) - {page.addr}
      ensures last in pages && PutLast(old(head), head, pages, last, last.order)
    {
      hide Forest, Lists, Plug, Index;
      ghost var m := Snap(pages);
      ghost var i := page.root;
      ghost var c := TakenPlace(m, areas, page);
      last := BuddyPut(page, i, c);
      IndexDel(m, Snap(pages), old(areas), i, c, page, alloced);
      alloced := alloced - {page.addr};
    }

    /** A page for a block of new memory. */
    method NewBlock(page: Page, addr: nat, order: nat)
      requires |head| == ORDERS && Forest(Snap(pages), areas) && Lists(Snap(pages), head) && slots + 1 + |pages| == capacity
      requires page !in pages && order < ORDERS
      modifies `areas, `pages, page
      ensures Core() && pages == old(pages) + {page} && areas == old(areas) + [Area(addr, order, Leaf(page, false))]
      ensures page.root == |old(areas)| && page.order == order
    {
      hide Forest, Lists, Plug, Bytes, Snap;
      ghost var m := Snap(pages);
      ghost var x := InitPage(page, addr, order, pages, |areas|);
      NewArea(m, areas, page, addr, order, x);
      pages := pages + {page};
      areas := areas + [Area(addr, order, Leaf(page, false))];
      ListsSame(m, m[page := x], head);
    }

    /** One block of pm_insert, with the page new_page has made. */
    method InsertBlock(page: Page, addr: nat, order: nat)
      requires |head| == ORDERS && Forest(Snap(pages), areas) && Lists(Snap(pages), head) && slots + 1 + |pages| == capacity
      requires AreasApart(areas) && Index(Snap(pages), alloced) && page !in pages && order < ORDERS
      requires Outside(areas, addr, addr + Bytes(order))
      modifies `head, `slots, `areas, `pages, page, pages`state
      ensures Valid() && pages == old(pages) + {page} && slots == old(slots)
      ensures areas == old(areas) + [Area(addr, order, Leaf(page, true))]
      ensures head == old(head)[order := old(head)[order] + [page]]
    {
      hide Forest, Lists, Plug, Index, Bytes;
      ghost var m, n, x := Snap(pages), |areas|, Area(addr, order, Leaf(page, true));
      NewBlock(page, addr, order);
      PlugTop(page);
      ghost var last := PutAlone(page, n, Top);
      assert areas == old(areas) + [x];
      hide Snap;
      InsertIndex(m, Snap(pages), old(areas), x, alloced);
    }

    /** pm_insert; [addr, mid) has been inserted, one block for each bit of the number of pages below bit upto. */
    method Insert(addr: nat, size: nat) returns (err: Error, ghost mid: nat, ghost upto: nat)
      requires Valid() && size % PAGE == 0 && size > 0 && addr % PAGE == 0 && addr + size <= ADDRESSES
      requires Outside(areas, addr, addr + size)
      modifies this, pages`state
      ensures Valid() && fresh(pages - old(pages)) && alloced == old(alloced) && capacity == old(capacity)
      ensures |old(areas)| <= |areas| && areas[..|old(areas)|] == old(areas)
      ensures AreaTiles(areas[|old(areas)|..], addr, mid)
      ensures |head| == |old(head)| && forall k :: 0 <= k < |head| ==> old(head)[k] <= head[k]
      ensures BitBlocks(areas[|old(areas)|..], size / PAGE, upto) && slots + |areas| == old(slots) + |old(areas)|
      ensures if err == E_OK then mid == addr + size && upto == ORDERS
              else err == E_NOSLOT && mid < addr + size && slots == 0 && upto < ORDERS && Bit(size / PAGE, upto)
    {
      hide Forest, Lists, Index, AreasApart, Bytes, AreaTiles, Low, Bit, Outside, Snap, BitBlocks;
      var n := size / PAGE;
      mid := addr;
      var a := addr;
      ghost var was, tiles := areas, [];
      TilesNone(addr);
      BitsAll(n);
      NoBits(n);
      var i := 0;
      while i < ORDERS
        invariant Valid() && fresh(pages - old(pages)) && alloced == old(alloced) && capacity == old(capacity)
        invariant i <= ORDERS && a == mid == addr + Low(n, i) && mid <= addr + size
        invariant areas == was + tiles && AreaTiles(tiles, addr, mid)
        invariant BitBlocks(tiles, n, i) && slots + |tiles| == old(slots)
        invariant |head| == |old(head)| && forall k :: 0 <= k < |head| ==> old(head)[k] <= head[k]
      {
        BitStep(n, i);
        if Bit(n, i) {
          var page := NewPage();
          if page == null {
            return E_NOSLOT, mid, i;
          }
          BlockOutside(was, tiles, addr, a, i, addr + size);
          InsertBlock(page, a, i);
          TilesMore(tiles, Area(a, i, Leaf(page, true)), addr, a);
          NextBit(tiles, n, i, Area(a, i, Leaf(page, true)));
          tiles := tiles + [Area(a, i, Leaf(page, true))];
          a := a + Bytes(i);
          mid := a;
        } else {
          SkipBit(tiles, n, i);
        }
        i := i + 1;
      }
      return E_OK, mid, i;
    }
  }

  /** The fields pm_insert gives a new page. */
  method InitPage(page: Page, addr: nat, order: nat, ghost ps: set<Page>, ghost i: nat) returns (ghost x: Cell)
    requires page !in ps
    modifies page
    ensures Snap(ps + {page}) == old(Snap(ps))[page := x] && page !in old(Snap(ps)) && page.root == i && page.order == order
    ensures x.addr == addr && x.size == Bytes(order) && x.order == order && x.pos == NoBud && x.state == ALLOCED && x.root == i
  {
    page.addr := addr;
    page.size := Bytes(order);
    page.order := order;
    page.pos := NoBud;
    page.state := ALLOCED;
    page.root := i;
    x := Cell(addr, Bytes(order), order, page.f, page.b, NoBud, ALLOCED, i);
  }

  /** divide_page */
  method DividePage(f: Page, l: Page, r: Page, ghost ps: set<Page>, ghost i: nat) returns (err: Error)
    requires f in ps && l !in ps && r !in ps && l != r
    modifies f`state, l, r
    ensures err == if old(f.order) == 0 then E_NOMEM else E_OK
    ensures err == E_NOMEM ==> unchanged(f, l, r)
    ensures err == E_OK ==> Halved(old(Snap(ps)), Snap(ps + {l, r}), i, f, l, r)
    ensures err == E_OK ==> l.order == r.order == f.order - 1
  {
    if f.order == 0 { return E_NOMEM; }
    l.addr := f.addr;
    l.order := f.order - 1;
    l.size := f.size / 2;
    r.addr := l.addr + l.size;
    r.order := l.order;
    r.size := l.size;
    l.f, r.f := f, f;
    l.b := r;
    r.b := l;
    l.pos := AtLeft;
    r.pos := AtRight;
    l.state := ALLOCED;
    r.state := ALLOCED;
    f.state := VIRT;
    l.root, r.root := i, i;
    return E_OK;
  }

  /** The two calls; the areas and the index are as before. */
  method TakeAndGive(a: PageAlct, size: nat) returns (err: Error)
    requires a.Valid() && size < ADDRESSES
    requires size > 0 ==> var k := FirstFree(a.head, OrderFor(size)); k < ORDERS ==> a.slots >= 2 * (k - OrderFor(size))
    modifies a, a.pages`state
    ensures a.Valid() && a.areas == old(a.areas) && a.alloced == old(a.alloced) && a.capacity == old(a.capacity)
    ensures fresh(a.pages - old(a.pages))
  {
    hide Forest, Lists, Plug, Index, Carved, OrderFor, AreasApart, FirstFree, FreeBelow, Release, Put;
    ghost var m, fs := Snap(a.pages), a.areas;
    var page: Page?;
    ghost var i, g, c0, c;
    err, page, i, g, c0, c := a.Alloc(size);
    if err == E_OK {
      Restored(m, Snap(a.pages), fs, i, c0, g, c, page);
      PutBack(fs, i, Plug(c, Leaf(page, false)));
      ghost var last := a.Free(page);
    }
  }

  /** What pm_alloc takes, pm_free gives back: the same blocks are free, at the same addresses. */
  method AllocThenFree(a: PageAlct, size: nat) returns (err: Error)
    requires a.Valid() && size < ADDRESSES
    requires size > 0 ==> var k := FirstFree(a.head, OrderFor(size)); k < ORDERS ==> a.slots >= 2 * (k - OrderFor(size))
    modifies a, a.pages`state
    ensures a.Valid() && a.areas == old(a.areas) && a.alloced == old(a.alloced)
    ensures a.pages == old(a.pages) && a.slots == old(a.slots)
    ensures forall p :: p in a.pages ==> (p.state == FREE <==> old(p.state) == FREE)
  {
    hide Forest, Lists, Index, FirstFree, OrderFor;
    ghost var m, fs := Snap(a.pages), a.areas;
    err := TakeAndGive(a, size);
    ghost var m' := Snap(a.pages);
    SameBlocks(m, m', fs);
    assert a.pages == m'.Keys && old(a.pages) == m.Keys;
  }
}
