/** A run after which two free ranges lie side by side unmerged (kernel/memory/vm.c, vm_merge). */
module VmUnmerged {
  import opened RbtTree
  import opened RbtBalance
  import opened RbtAugment
  import opened RbtHeap
  import opened VmRanges
  import opened Vm

  const P := PAGE_SIZE

  /** A record that has no adjacent successor stays as it is, if another record follows or it has no adjacent
      predecessor either. */
  lemma MergedStays(f: seq<Item>, x: Item, f': seq<Item>, k: nat)
    requires Merged(f, x, f') && SortedKeys(InsertItem(f, x)) && k < |InsertItem(f, x)| && InsertItem(f, x)[k] == x
    requires var s := InsertItem(f, x); !Adjacent(s, k) && (k + 1 < |s| || !Adjacent(s, k - 1))
    ensures f' == InsertItem(f, x)
  {
    var s := InsertItem(f, x);
    var i: nat :| i < |s| && s[i] == x && f' == Merge(s, i);
    assert i == k;
  }

  /** The one range of f, at key. */
  predicate One(f: seq<Item>, key: int, size: int) { |f| == 1 && f[0].key == key && f[0].data == size }

  lemma CutOne(f: seq<Item>, lo: int, hi: int, key: int, f': seq<Item>)
    requires One(f, lo, hi - lo) && CutFrom(f, key, P, f') && lo + P < hi
    ensures key == lo && One(f', lo + P, hi - lo - P)
  {
  }

  /** Only record k of an allocator's allocated ranges is needed to know its node. */
  lemma RecordAt(vm: VpageAlct, k: nat)
    requires vm.Valid() && k < |Items(vm.alloced.tree)|
    ensures var x := Items(vm.alloced.tree)[k];
            x.n in vm.alloced.nodes && x == RecOf(x.n) && x.n in Nodes(vm.alloced.tree) && Idx(vm.alloced.tree, x.n) == k
  {
    vm.alloced.NodeAtFields(k);
  }

  lemma AppendLast(t: seq<Item>, x: Item)
    requires KeysBelow(t, x.key)
    ensures InsertItem(t, x) == t + [x]
  {
    InsertItemSplit(t, x, []);
    assert t + [] == t && t + [x] + [] == t + [x];
  }

  /** One page from the front of the only free range. */
  method FirstPage(vm: VpageAlct, lo: int) returns (vp: Node)
    requires vm.Valid() && One(Items(vm.free.tree), lo, 4 * P - lo) && lo + P < 4 * P
    requires KeysBelow(Items(vm.alloced.tree), lo)
    modifies vm.free, vm.free.nodes, vm.alloced, vm.alloced.nodes
    ensures vm.Valid() && One(Items(vm.free.tree), lo + P, 3 * P - lo)
    ensures fresh(vp) && Items(vm.alloced.tree) == old(Items(vm.alloced.tree)) + [Item(vp, lo, P)]
    ensures vm.free.nodes <= old(vm.free.nodes) && vm.alloced.nodes == old(vm.alloced.nodes) + {vp}
  {
    hide VpageAlct.Valid, VpageAlct.Trees, Rbt.Valid, Items, In, Holds, InsertItem;
    ghost var f := Items(vm.free.tree);
    assert Fits(f, P) by { assert f[0].data >= P; }
    assert RoundUp(P) == P;
    var err, q := vm.Alloc(P, E_OK);
    vp := q;
    CutOne(f, lo, 4 * P, vp.key, Items(vm.free.tree));
    AppendLast(old(Items(vm.alloced.tree)), RecOf(vp));
  }

  lemma EmptyItems()
    ensures Items(Nil) == []
  {
  }

  /** A range of four pages, all free. */
  method FourPages() returns (vm: VpageAlct)
    ensures fresh(vm) && fresh(vm.free) && fresh(vm.alloced) && fresh(vm.free.nodes) && vm.alloced.nodes == {}
    ensures vm.Valid() && One(Items(vm.free.tree), 0, 4 * P) && Items(vm.alloced.tree) == []
  {
    hide VpageAlct.Valid, VpageAlct.Trees, Rbt.Valid, Items, In, Merge;
    vm := new VpageAlct();
    EmptyItems();
    var err := vm.InsertNew(0, 4 * P, E_OK);
    ghost var n: Node :| Merged([], Item(n, 0, 4 * P), Items(vm.free.tree));
    MergedStays([], Item(n, 0, 4 * P), Items(vm.free.tree), 0);
  }

  /** Three pages are allocated from the front of a range of four. */
  method ThreePages() returns (vm: VpageAlct, a: Node, b: Node, ghost c: Node)
    ensures fresh(vm) && fresh(vm.free) && fresh(vm.alloced) && fresh(vm.free.nodes) && fresh(vm.alloced.nodes)
    ensures vm.Valid() && One(Items(vm.free.tree), 3 * P, P)
    ensures Items(vm.alloced.tree) == [Item(a, 0, P), Item(b, P, P), Item(c, 2 * P, P)]
  {
    hide VpageAlct.Valid, Rbt.Valid, Items;
    vm := FourPages();
    a := FirstPage(vm, 0);
    b := FirstPage(vm, P);
    var third := FirstPage(vm, 2 * P);
    c := third;
  }

  /** Freeing the first page and then the second leaves them side by side: the third is in use, so the free
      fourth page stops vm_merge before it looks at the first. */
  method NeighboursUnmerged() returns (vm: VpageAlct)
    ensures vm.Valid() && |Items(vm.free.tree)| == 3 && Adjacent(Items(vm.free.tree), 0)
  {
    hide VpageAlct.Valid, VpageAlct.Trees, Rbt.Valid, Items, In, Holds, Merged, Merge;
    var a, b;
    ghost var c;
    vm, a, b, c := ThreePages();
    ghost var f, x, y := Items(vm.free.tree), Item(a, 0, P), Item(b, P, P);
    RecordAt(vm, 0);
    var err := vm.Free(a);
    MergedStays(f, x, Items(vm.free.tree), 0);
    assert Items(vm.free.tree) == [x] + f;
    assert Items(vm.alloced.tree)[0] == y;
    RecordAt(vm, 0);
    err := vm.Free(b);
    InsertSecond(x, y, f);
    MergedStays([x] + f, y, Items(vm.free.tree), 1);
  }

  lemma InsertSecond(x: Item, y: Item, f: seq<Item>)
    requires |f| == 1 && x.key < y.key < f[0].key
    ensures InsertItem([x] + f, y) == [x, y] + f
  {
    InsertItemSplit([x], y, f);
    assert [x] + [y] + f == [x, y] + f;
  }
}
