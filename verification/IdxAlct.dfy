/** The allocator of smallest free ids (lib/idx_alct.c). */
module IdxAlct {
  import opened RbtTree
  import opened RbtBalance
  import opened RbtAugment
  import opened RbtHeap

  datatype Err = E_OK | E_NOMEM | E_NOTFOUND

  // ----- subtree sizes -----

  /** update as intended: one more than the children's counts together. */
  function CountUpd(data: int, l: int, r: int): int { 1 + l + r }

  const CNT: Rule := Rule(CountUpd, null)

  lemma {:induction false} CountAug(t: Tree)
    requires Good(CNT, t)
    ensures AugOf(t) == |Items(t)|
  {
    if t.T? {
      CountAug(t.l);
      CountAug(t.r);
    }
  }

  /** update as written: where there is a right child, the left child's count is added once more
      (with no left child, that is a read through a null pointer; 0 stands in for it). */
  function WrittenUpd(data: int, l: int, r: int): int { 1 + l + if r > 0 then l else 0 }

  /** At a node whose children have the right counts, the written form is right exactly when there
      is no right child or both subtrees are of the same size. */
  lemma WrittenCount(t: Tree)
    requires t.T? && AugOf(t.l) == |Items(t.l)| && AugOf(t.r) == |Items(t.r)|
    ensures WrittenUpd(t.e.data, AugOf(t.l), AugOf(t.r)) == |Items(t)|
            <==> t.r.Nil? || |Items(t.l)| == |Items(t.r)|
  {
    if t.r.T? { assert |Items(t.r)| > 0; }
  }

  lemma NoSlot(c: Ctx)
    requires Plug(c, Nil) == Nil
    ensures c == Top
  {
    PlugItems(c, Nil);
  }

  /** A record below key does not come from a part above it. */
  lemma KeyInTail(a: seq<Item>, b: seq<Item>, key: int)
    requires |a + b| > 0 && (a + b)[|a + b| - 1].key <= key && KeysAbove(key, b)
    ensures b == []
  {
  }

  /** In a tree of one record, a larger key belongs to its right. */
  lemma OneSlot(c: Ctx, e: Entry, key: int)
    requires Plug(c, Nil) == T(Nil, e, Nil) && e.key < key && KeysAbove(key, After(c))
    ensures c == InR(Nil, e, Top)
  {
    PlugItems(c, Nil);
    var s := Before(c) + Items(Nil) + After(c);
    assert s == [ItemOf(e)];
    KeyInTail(Before(c) + Items(Nil), After(c), key);
    assert c.InR?;
    assert |Before(c.up)| == |Items(c.l)| == 0;
    assert c.up.Top? && c.l.Nil?;
  }

  lemma SecondShape(e: Entry, e': Entry)
    requires e.color == Black
    ensures RedsNested(InR(Nil, e, Top))
    ensures InsertFix(InR(Nil, e, Top), LeafTree(e')) == T(Nil, e, LeafTree(e'))
  {
    var c := InR(Nil, e, Top);
    assert Plug(c, LeafTree(e')) == Plug(Top, T(Nil, e, LeafTree(e')));
  }

  /** A record with the largest key, entered into a tree of none or one. */
  method Enter(rbt: Rbt, key: int, data: int) returns (n: Node)
    requires rbt.Valid() && (rbt.tree.Nil? || (rbt.tree.l.Nil? && rbt.tree.r.Nil? && rbt.tree.e.key < key))
    requires rbt.tree.T? ==> rbt.tree.e.color == Black
    modifies rbt, rbt.nodes`color, rbt.nodes`f, rbt.nodes`l, rbt.nodes`r
    ensures rbt.Valid() && fresh(n) && rbt.nodes == old(rbt.nodes) + {n} && rbt.tree.T? && rbt.tree.l.Nil?
    ensures old(rbt.tree).Nil? ==>
              rbt.tree.r.Nil? && rbt.tree.e.color == Black && rbt.tree.e.key == key && rbt.tree.e.data == data
    ensures old(rbt.tree).T? ==>
              && rbt.tree.e == old(rbt.tree).e
              && rbt.tree.r.T? && rbt.tree.r.l.Nil? && rbt.tree.r.r.Nil? && rbt.tree.r.e.key == key && rbt.tree.r.e.data == data
  {
    n := new Node(key, data);
    ghost var e, t := Entry(n, n.color, key, data, n.aug), rbt.tree;
    assert n !in rbt.nodes;
    var found, parent, left;
    ghost var c;
    found, parent, left, c := rbt.FindSlot(key);
    if t.T? {
      OneSlot(c, t.e, key);
      SecondShape(t.e, e);
    } else {
      NoSlot(c);
    }
    rbt.InsertAt(n, parent, left, c, e);
  }

  /** The input for which the written form is wrong: ids 0 and 1, entered as idx_alct_new enters them. Id 0 is at
      the root, with a right child only, and is counted 1. */
  method TwoIds(a: int, b: int) returns (rbt: Rbt)
    ensures rbt.Valid() && rbt.tree.T? && rbt.tree.l.Nil? && rbt.tree.r.T?
    ensures rbt.tree.e.key == 0 && rbt.tree.e.data == a && rbt.tree.r.e.key == 1 && rbt.tree.r.e.data == b
    ensures WrittenUpd(rbt.tree.e.data, |Items(rbt.tree.l)|, |Items(rbt.tree.r)|) == 1 < |Items(rbt.tree)| == 2
  {
    rbt := new Rbt();
    var n := Enter(rbt, 0, a);
    n := Enter(rbt, 1, b);
  }

  // ----- the least missing id -----

  /** Ids are non-negative and ascending. */
  predicate Ids(s: seq<Item>) { SortedKeys(s) && forall i :: 0 <= i < |s| ==> s[i].key >= 0 }

  /** s holds exactly the ids below n. */
  predicate Filled(s: seq<Item>, n: int) { |s| == n && forall i :: 0 <= i < |s| ==> s[i].key == i }

  /** Ascending ids leave no less room than their number. */
  lemma {:induction false} IdsSpread(s: seq<Item>, lo: int, i: nat)
    requires SortedKeys(s) && i < |s| && s[0].key >= lo
    ensures s[i].key >= lo + i
    decreases i
  {
    if i > 0 { IdsSpread(s, lo, i - 1); }
  }

  lemma {:induction false} IdsPacked(s: seq<Item>, lo: int, hi: int, i: nat)
    requires SortedKeys(s) && i < |s| && s[0].key >= lo && s[|s| - 1].key < hi && lo + |s| == hi
    ensures s[i].key == lo + i
    decreases |s| - i
  {
    IdsSpread(s, lo, i);
    if i == |s| - 1 {
    } else {
      IdsPacked(s, lo, hi, i + 1);
    }
  }

  ghost predicate LeastFree(s: seq<Item>, k: int) {
    k >= 0 && !HasKey(s, k) && forall j :: 0 <= j < k ==> HasKey(s, j)
  }

  lemma LeastFreeSplit(p: seq<Item>, q: seq<Item>, k: int)
    requires Filled(p, k) && KeysAbove(k, q)
    ensures LeastFree(p + q, k)
  {
    forall j | 0 <= j < k ensures HasKey(p + q, j) {
      assert (p + q)[j] == p[j];
    }
  }

  /** Where the descent stands: the ids before the position are all taken, and those at and after
      it leave a gap. */
  predicate Gap(c: Ctx, t: Tree, base: int) {
    && Filled(Before(c), base)
    && (After(c) != [] ==> base + |Items(t)| < After(c)[0].key)
  }

  /** The ids at a position in a tree of ids. */
  lemma PosIds(c: Ctx, t: Tree, base: int)
    requires t.T? && Ids(Items(Plug(c, t))) && Filled(Before(c), base)
    ensures Items(t) == Items(t.l) + [ItemOf(t.e)] + Items(t.r)
    ensures SortedKeys(Items(t.l)) && KeysBelow(Items(t.l), t.e.key) && t.e.key >= base + |Items(t.l)|
    ensures KeysFrom(Items(t.l), base)
    ensures KeysAbove(t.e.key, Items(t.r) + After(c)) && SortedKeys(After(c))
  {
    PlugItems(c, t);
    SeqIds(Before(c), Items(t.l), ItemOf(t.e), Items(t.r), After(c), Items(Plug(c, t)), base);
  }

  predicate KeysFrom(s: seq<Item>, lo: int) { forall i :: 0 <= i < |s| ==> s[i].key >= lo }

  lemma SeqIds(p: seq<Item>, a: seq<Item>, x: Item, b: seq<Item>, q: seq<Item>, w: seq<Item>, base: int)
    requires w == p + (a + [x] + b) + q && Ids(w) && Filled(p, base)
    ensures SortedKeys(a) && KeysBelow(a, x.key) && x.key >= base + |a| && KeysFrom(a, base)
    ensures KeysAbove(x.key, b + q) && SortedKeys(q)
  {
    Middle(p, a, x, b, q, w);
    var i := |p| + |a|;
    SortedTail(w, i);
    assert a == w[|p|..i];
    SortedSlice(w, |p|, i);
    assert q == w[|w| - |q|..];
    SortedSlice(w, |w| - |q|, |w|);
    assert p == w[..|p|];
    FromBase(w, |p|, base);
    forall k | 0 <= k < |a| ensures a[k].key < x.key && a[k].key >= base {
      assert a[k] == w[|p| + k];
    }
    var ax := w[|p|..i + 1];
    SortedSlice(w, |p|, i + 1);
    assert ax[0] == w[|p|] && ax[|a|] == w[i];
    IdsSpread(ax, base, |a|);
  }

  lemma SortedSlice(w: seq<Item>, i: nat, j: nat)
    requires SortedKeys(w) && i <= j <= |w|
    ensures SortedKeys(w[i..j])
  {
  }

  lemma SortedTail(w: seq<Item>, i: nat)
    requires SortedKeys(w) && i < |w|
    ensures KeysAbove(w[i].key, w[i + 1..])
  {
  }

  lemma FromBase(w: seq<Item>, i: nat, base: int)
    requires Ids(w) && i <= |w| && Filled(w[..i], base)
    ensures forall j :: i <= j < |w| ==> w[j].key >= base
  {
    if i > 0 {
      assert w[i - 1] == w[..i][i - 1];
    }
  }

  /** The left subtree has as many ids as fit before the node's: none is missing there. */
  lemma LeftFull(c: Ctx, t: Tree, base: int)
    requires t.T? && Ids(Items(Plug(c, t))) && Filled(Before(c), base) && base + |Items(t.l)| == t.e.key
    ensures Filled(Before(InR(t.l, t.e, c)), t.e.key + 1)
  {
    PosIds(c, t, base);
    var p, a := Before(c), Items(t.l);
    var s := p + a + [ItemOf(t.e)];
    assert Before(InR(t.l, t.e, c)) == s;
    forall i | 0 <= i < |s| ensures s[i].key == i {
      if |p| <= i < |p| + |a| {
        IdsPacked(a, base, t.e.key, i - |p|);
        assert s[i] == a[i - |p|];
      }
    }
  }

  /** The answer at a node without a left child, before its own id. */
  lemma AnswerBase(c: Ctx, t: Tree, base: int)
    requires t.T? && Ids(Items(Plug(c, t))) && Gap(c, t, base) && t.l.Nil? && base < t.e.key
    ensures LeastFree(Items(Plug(c, t)), base)
  {
    PosIds(c, t, base);
    PlugItems(c, t);
    assert Items(t.l) == [];
    hide Items, Plug, Before, After, LeastFree, SortedKeys, Ids;
    var x, b, q := ItemOf(t.e), Items(t.r), After(c);
    NoneBefore(Before(c), x, b, q);
    AboveFirst(x, b + q, base);
    LeastFreeSplit(Before(c), [x] + (b + q), base);
  }

  lemma NoneBefore(p: seq<Item>, x: Item, b: seq<Item>, q: seq<Item>)
    ensures p + ([] + [x] + b) + q == p + ([x] + (b + q))
  {
  }

  lemma AboveFirst(x: Item, q: seq<Item>, base: int)
    requires KeysAbove(x.key, q) && base < x.key
    ensures KeysAbove(base, [x] + q)
  {
  }

  /** The answer at a node without a right child, after its own id. */
  lemma AnswerAfter(c: Ctx, t: Tree, base: int)
    requires t.T? && Ids(Items(Plug(c, t))) && Gap(c, t, base) && t.r.Nil? && base + |Items(t.l)| == t.e.key
    ensures LeastFree(Items(Plug(c, t)), t.e.key + 1)
  {
    PosIds(c, t, base);
    LeftFull(c, t, base);
    PlugItems(InR(t.l, t.e, c), t.r);
    var p, q := Before(InR(t.l, t.e, c)), After(c);
    assert Items(Plug(c, t)) == p + [] + q == p + q;
    if q != [] {
      assert forall i :: 0 <= i < |q| ==> q[i].key >= q[0].key;
    }
    LeastFreeSplit(p, q, t.e.key + 1);
  }

  /** What the descent reads at one node. */
  lemma CountView(rbt: Rbt, c: Ctx, s: Tree)
    requires Focus(Snap(rbt.nodes), rbt.root, c, s) && s.T? && Good(CNT, s)
    ensures var n := s.e.n;
            && n in rbt.nodes && n.l == Root(s.l) && n.r == Root(s.r) && n.key == s.e.key && n.data == s.e.data
            && (s.l.T? ==> s.l.e.n in rbt.nodes && s.l.e.n.aug == |Items(s.l)|)
  {
    var m := Snap(rbt.nodes);
    assert Rep(m, s.l, s.e.n) && Rep(m, s.r, s.e.n);
    CountAug(s.l);
  }

  /** rbt_find_free_id: with true counts, the least id not in the tree. Its assertion that the left
      count fits below the node's id always holds, and it never runs off the tree. */
  method FindFreeId(rbt: Rbt) returns (id: int)
    requires rbt.Valid() && Good(CNT, rbt.tree) && Ids(Items(rbt.tree))
    ensures LeastFree(Items(rbt.tree), id)
  {
    var n := rbt.root;
    if n == null {
      return 0;
    }
    var base := 0;
    ghost var c, s := Top, rbt.tree;
    while true
      invariant Focus(Snap(rbt.nodes), rbt.root, c, s) && Plug(c, s) == rbt.tree && s.T? && n == s.e.n
      invariant Good(CNT, s) && Gap(c, s, base)
      decreases s
    {
      CountView(rbt, c, s);
      PosIds(c, s, base);
      if n.l != null {
        assert n.l.aug + base <= n.key;
        if n.l.aug + base < n.key {
          Refocus(Snap(rbt.nodes), rbt.root, c, s, InL(s.e, s.r, c), s.l);
          n := n.l;
          c, s := InL(s.e, s.r, c), s.l;
          continue;
        }
      } else if base < n.key {
        AnswerBase(c, s, base);
        return base;
      }
      if n.r != null {
        LeftFull(c, s, base);
        Refocus(Snap(rbt.nodes), rbt.root, c, s, InR(s.l, s.e, c), s.r);
        base := n.key + 1;
        n := n.r;
        c, s := InR(s.l, s.e, c), s.r;
      } else {
        AnswerAfter(c, s, base);
        return n.key + 1;
      }
    }
  }

  // ----- the table -----

  /** The finite map that a sequence of records stands for. */
  function MapOf(s: seq<Item>): map<int, int>
    requires SortedKeys(s)
  {
    map i | 0 <= i < |s| :: s[i].key := s[i].data
  }

  lemma MapKeys(s: seq<Item>, k: int)
    requires SortedKeys(s)
    ensures k in MapOf(s) <==> HasKey(s, k)
  {
  }

  lemma MapAt(s: seq<Item>, i: nat)
    requires SortedKeys(s) && i < |s|
    ensures s[i].key in MapOf(s) && MapOf(s)[s[i].key] == s[i].data
  {
  }

  /** One record more or less is one key more or less. */
  lemma MapMiddle(p: seq<Item>, x: Item, q: seq<Item>)
    requires SortedKeys(p + [x] + q) && SortedKeys(p + q)
    ensures MapOf(p + [x] + q) == MapOf(p + q)[x.key := x.data]
    ensures MapOf(p + q) == MapOf(p + [x] + q) - {x.key}
  {
    hide MapOf;
    var t, s := p + [x] + q, p + q;
    assert t[|p|] == x;
    MapAt(t, |p|);
    forall i | 0 <= i < |s| ensures s[i].key in MapOf(t) && MapOf(t)[s[i].key] == s[i].data && s[i].key != x.key {
      var j := if i < |p| then i else i + 1;
      assert t[j] == s[i];
      MapAt(t, j);
    }
    forall k | k in MapOf(t) && k != x.key ensures k in MapOf(s) && MapOf(s)[k] == MapOf(t)[k] {
      MapKeys(t, k);
      var j :| 0 <= j < |t| && t[j].key == k;
      var i := if j < |p| then j else j - 1;
      assert s[i] == t[j];
      MapAt(s, i);
      MapAt(t, j);
    }
    forall k | k in MapOf(s) ensures k in MapOf(t) && k != x.key && MapOf(t)[k] == MapOf(s)[k] {
      MapKeys(s, k);
      var i :| 0 <= i < |s| && s[i].key == k;
      MapAt(s, i);
    }
    assert MapOf(t).Keys == MapOf(s).Keys + {x.key};
    assert MapOf(t) == MapOf(s)[x.key := x.data];
  }

  lemma MapInsert(s: seq<Item>, x: Item)
    requires SortedKeys(s) && !HasKey(s, x.key)
    ensures SortedKeys(InsertItem(s, x)) && MapOf(InsertItem(s, x)) == MapOf(s)[x.key := x.data]
  {
    var k := 0;
    while k < |s| && s[k].key < x.key
      invariant k <= |s| && forall i :: 0 <= i < k ==> s[i].key < x.key
    {
      k := k + 1;
    }
    var p, q := s[..k], s[k..];
    assert s == p + q;
    assert forall i :: k <= i < |s| ==> s[k].key <= s[i].key && s[i].key != x.key;
    InsertItemSplit(p, x, q);
    SortedGap(p, x, q);
    MapMiddle(p, x, q);
  }

  lemma MapRemove(s: seq<Item>, i: nat)
    requires SortedKeys(s) && i < |s|
    ensures SortedKeys(RemoveAt(s, i)) && MapOf(RemoveAt(s, i)) == MapOf(s) - {s[i].key}
  {
    var t := RemoveAt(s, i);
    forall j, k | 0 <= j < k < |t| ensures t[j].key < t[k].key {
      assert t[j] == s[if j < i then j else j + 1] && t[k] == s[if k < i then k else k + 1];
    }
    assert s == s[..i] + [s[i]] + s[i + 1..];
    MapMiddle(s[..i], s[i], s[i + 1..]);
  }

  /** struct idx_alct_t. mem tells whether kmalloc has room for a new record. */
  class Allocator {
    const rbt: Rbt

    ghost predicate Valid()
      reads this, rbt, rbt.nodes
    {
      rbt.Valid() && Good(CNT, rbt.tree) && Ids(Items(rbt.tree))
    }

    ghost function View(): map<int, int>
      requires Valid()
      reads this, rbt, rbt.nodes
    {
      MapOf(Items(rbt.tree))
    }

    /** idx_aclt_init */
    constructor ()
      ensures Valid() && View() == map[]
    {
      rbt := new Rbt();
    }

    /** rbt_find */
    method FindNode(id: int) returns (res: Node?)
      requires Valid()
      ensures res == null <==> id !in View()
      ensures res != null ==> res in rbt.nodes && res.key == id && id in View() && res.data == View()[id]
    {
      var n := rbt.root;
      ghost var c, s := Top, rbt.tree;
      hide Items, SortedKeys, HasKey, MapOf, Focus, Good, Plug;
      while n != null
        invariant OnPath(rbt, c, s, id) && n == Root(s)
        decreases s
      {
        OneDown(rbt, c, s, id);
        if id < n.key {
          n := n.l;
          c, s := InL(s.e, s.r, c), s.l;
        } else if id > n.key {
          n := n.r;
          c, s := InR(s.l, s.e, c), s.r;
        } else {
          NodeView(n);
          return n;
        }
      }
      NotThere(rbt, c, id);
      return null;
    }

    lemma NodeView(n: Node)
      requires Valid() && n in rbt.nodes
      ensures n.key in View() && View()[n.key] == n.data
    {
      rbt.ItemFields(n);
      MapAt(Items(rbt.tree), Idx(rbt.tree, n));
    }

    /** idx_alct_new: the least id not in use gets the address. */
    method New(addr: int, mem: bool) returns (err: Err, id: int)
      requires Valid()
      modifies rbt, rbt.nodes
      ensures Valid() && err == (if mem then E_OK else E_NOMEM)
      ensures id >= 0 && id !in old(View()) && forall k :: 0 <= k < id ==> k in old(View())
      ensures View() == if mem then old(View())[id := addr] else old(View())
    {
      id := FindFreeId(rbt);
      forall k ensures k in View() <==> HasKey(Items(rbt.tree), k) { MapKeys(Items(rbt.tree), k); }
      if !mem {
        return E_NOMEM, id;
      }
      var idx := new Node(id, addr);
      MapInsert(Items(rbt.tree), Item(idx, id, addr));
      ghost var s := Items(rbt.tree);
      var ok := rbt.InsertAndUpdate(idx, CountUpd, null);
      InsertIds(s, Item(idx, id, addr));
      err := E_OK;
    }

    /** idx_alct_find */
    method Find(id: int) returns (err: Err, addr: int)
      requires Valid()
      ensures err == if id in View() then E_OK else E_NOTFOUND
      ensures err == E_OK ==> addr == View()[id]
    {
      var n := FindNode(id);
      if n == null {
        return E_NOTFOUND, 0;
      }
      return E_OK, n.data;
    }

    /** idx_alct_delete */
    method Delete(id: int) returns (err: Err)
      requires Valid()
      modifies rbt, rbt.nodes
      ensures Valid() && err == if id in old(View()) then E_OK else E_NOTFOUND
      ensures View() == old(View()) - {id}
    {
      var n := FindNode(id);
      if n == null {
        return E_NOTFOUND;
      }
      rbt.ItemFields(n);
      ghost var s, i := Items(rbt.tree), Idx(rbt.tree, n);
      RemoveIds(s, i);
      hide Items, MapOf, Ids, RemoveAt, Good, Rbt.Valid;
      rbt.DeleteAndUpdate(n, CountUpd, null);
      err := E_OK;
    }
  }

  lemma RemoveIds(s: seq<Item>, i: nat)
    requires Ids(s) && i < |s|
    ensures Ids(RemoveAt(s, i)) && MapOf(RemoveAt(s, i)) == MapOf(s) - {s[i].key}
  {
    MapRemove(s, i);
    var t := RemoveAt(s, i);
    forall j | 0 <= j < |t| ensures t[j].key >= 0 { assert t[j] == s[if j < i then j else j + 1]; }
  }

  lemma InsertIds(s: seq<Item>, x: Item)
    requires Ids(s) && !HasKey(s, x.key) && x.key >= 0
    ensures Ids(InsertItem(s, x))
    decreases |s|
  {
    MapInsert(s, x);
    var t := InsertItem(s, x);
    forall i | 0 <= i < |t| ensures t[i].key >= 0 {
      assert t[i].key in MapOf(t) by { MapKeys(t, t[i].key); }
      assert t[i].key == x.key || t[i].key in MapOf(s);
      MapKeys(s, t[i].key);
    }
  }

  /** A key is on the side of a node where the order puts it. */
  /** The search for id has come to subtree s. */
  ghost predicate OnPath(rbt: Rbt, c: Ctx, s: Tree, id: int)
    reads rbt, rbt.nodes
  {
    && Focus(Snap(rbt.nodes), rbt.root, c, s) && Plug(c, s) == rbt.tree
    && Good(CNT, s) && SortedKeys(Items(s)) && (HasKey(Items(rbt.tree), id) <==> HasKey(Items(s), id))
  }

  lemma NotThere(rbt: Rbt, c: Ctx, id: int)
    requires OnPath(rbt, c, Nil, id) && SortedKeys(Items(rbt.tree))
    ensures id !in MapOf(Items(rbt.tree))
  {
    MapKeys(Items(rbt.tree), id);
  }

  lemma OneDown(rbt: Rbt, c: Ctx, s: Tree, id: int)
    requires OnPath(rbt, c, s, id) && s.T?
    ensures var n := s.e.n;
            && n in rbt.nodes && n.l == Root(s.l) && n.r == Root(s.r) && n.key == s.e.key && n.data == s.e.data
    ensures id < s.e.key ==> OnPath(rbt, InL(s.e, s.r, c), s.l, id)
    ensures id > s.e.key ==> OnPath(rbt, InR(s.l, s.e, c), s.r, id)
  {
    CountView(rbt, c, s);
    KeySide(s, id);
    Refocus(Snap(rbt.nodes), rbt.root, c, s, InL(s.e, s.r, c), s.l);
    Refocus(Snap(rbt.nodes), rbt.root, c, s, InR(s.l, s.e, c), s.r);
  }

  lemma KeySide(s: Tree, k: int)
    requires s.T? && SortedKeys(Items(s))
    ensures SortedKeys(Items(s.l)) && SortedKeys(Items(s.r))
    ensures k < s.e.key ==> (HasKey(Items(s), k) <==> HasKey(Items(s.l), k))
    ensures k > s.e.key ==> (HasKey(Items(s), k) <==> HasKey(Items(s.r), k))
  {
    NodeItems(s);
    hide Items, SortedKeys, HasKey;
    SortedParts(Items(s.l), ItemOf(s.e), Items(s.r));
    SeqKeySide(Items(s.l), ItemOf(s.e), Items(s.r), k);
  }

  lemma SeqKeySide(a: seq<Item>, x: Item, b: seq<Item>, k: int)
    requires KeysBelow(a, x.key) && KeysAbove(x.key, b)
    ensures k < x.key ==> (HasKey(a + [x] + b, k) <==> HasKey(a, k))
    ensures k > x.key ==> (HasKey(a + [x] + b, k) <==> HasKey(b, k))
  {
    var w := a + [x] + b;
    if HasKey(w, k) {
      var i :| 0 <= i < |w| && w[i].key == k;
      assert w[i] == if i < |a| then a[i] else if i == |a| then x else b[i - |a| - 1];
    }
    if HasKey(a, k) {
      var i :| 0 <= i < |a| && a[i].key == k;
      assert w[i] == a[i];
    }
    if HasKey(b, k) {
      var i :| 0 <= i < |b| && b[i].key == k;
      assert w[|a| + 1 + i] == b[i];
    }
  }
}
