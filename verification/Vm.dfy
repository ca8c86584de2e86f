/** The virtual range allocator (kernel/memory/vm.c). */
module Vm {
  import opened RbtTree
  import opened RbtBalance
  import opened RbtAugment
  import opened RbtHeap
  import opened VmRanges

  /** include/error.h */
  datatype Err =
    | E_OK | E_NOMEM | E_FAULT | E_NOSLOT | E_NOCACHE | E_INVAL | E_AGAIN | E_NOTFOUND | E_EXIST | E_FAILE
    | E_NOMSG | E_BLOCK | E_TOOLONG | E_TOOBIG

  // ----- the largest free range below a node -----

  function Max(a: int, b: int): int { if a > b then a else b }

  /** update: mx_size from the node's size and its children's mx_size. */
  function MaxUpd(size: int, l: int, r: int): int { Max(Max(Max(0, l), r), size) }

  const MX: Rule := Rule(MaxUpd, null)

  /** Where every mx_size follows update, it is the largest size in the subtree. */
  lemma {:induction false} MaxAug(t: Tree)
    requires Good(MX, t)
    ensures AugOf(t) >= 0 && forall i :: 0 <= i < |Items(t)| ==> Items(t)[i].data <= AugOf(t)
    ensures AugOf(t) > 0 ==> exists i :: 0 <= i < |Items(t)| && Items(t)[i].data == AugOf(t)
  {
    if t.T? {
      MaxAug(t.l);
      MaxAug(t.r);
      var s, a := Items(t), Items(t.l);
      assert s[|a|] == ItemOf(t.e);
      forall i | 0 <= i < |s| ensures s[i].data <= AugOf(t) {
        if i < |a| { assert s[i] == a[i]; } else if i > |a| { assert s[i] == Items(t.r)[i - |a| - 1]; }
      }
      if AugOf(t) > 0 && AugOf(t) != t.e.data {
        if AugOf(t) == AugOf(t.l) {
          var i :| 0 <= i < |a| && a[i].data == AugOf(t);
          assert s[i] == a[i];
        } else {
          var i :| 0 <= i < |Items(t.r)| && Items(t.r)[i].data == AugOf(t);
          assert s[|a| + 1 + i] == Items(t.r)[i];
        }
      }
    }
  }

  lemma FitsAug(t: Tree, size: int)
    requires Good(MX, t) && size > 0
    ensures Fits(Items(t), size) <==> AugOf(t) >= size
  {
    MaxAug(t);
  }

  lemma FitsPlug(c: Ctx, t: Tree, size: int)
    requires t.T? && t.e.data >= size
    ensures Fits(Items(Plug(c, t)), size)
  {
    PlugItems(c, t);
    var i := |Before(c)| + |Items(t.l)|;
    assert Items(t)[|Items(t.l)|] == ItemOf(t.e);
    assert Items(Plug(c, t))[i] == ItemOf(t.e);
  }

  /** The choice of rbt_search_size at one node. */
  lemma SearchChoice(t: Tree, size: int)
    requires t.T? && Good(MX, t) && size > 0
    ensures AugOf(t) >= size <==> AugOf(t.l) >= size || AugOf(t.r) >= size || t.e.data >= size
  {
    MaxAug(t.l);
    MaxAug(t.r);
  }

  const SIZE_MAX: int := 0xFFFF_FFFF

  /** What the descent reads at one node. */
  lemma ChildrenView(rbt: Rbt, c: Ctx, s: Tree)
    requires Focus(Snap(rbt.nodes), rbt.root, c, s) && s.T?
    ensures var n := s.e.n;
            && n in rbt.nodes && n.l == Root(s.l) && n.r == Root(s.r) && n.key == s.e.key && n.data == s.e.data
            && (s.l.T? ==> s.l.e.n in rbt.nodes && s.l.e.n.aug == AugOf(s.l))
            && (s.r.T? ==> s.r.e.n in rbt.nodes && s.r.e.n.aug == AugOf(s.r))
            && (s.l.T? && s.r.T? ==> s.l.e.n != s.r.e.n)
  {
    var m := Snap(rbt.nodes);
    assert Rep(m, s.l, s.e.n) && Rep(m, s.r, s.e.n) && Distinct(s);
  }

  lemma RootPositive(s: Tree)
    requires s.T? && Good(MX, s) && Ranges(Items(s))
    ensures 0 < s.e.data <= AugOf(s)
  {
    assert Items(s)[|Items(s.l)|] == ItemOf(s.e);
    assert RangeOk(Items(s)[|Items(s.l)|]);
  }

  /** Every range is large enough for size 0. */
  lemma FitsZero(s: seq<Item>)
    requires Ranges(s)
    ensures Fits(s, 0) <==> Fits(s, 1)
  {
    if s != [] { assert RangeOk(s[0]); }
  }

  /** No size comes near the largest machine word. */
  lemma AugBound(c: Ctx, s: Tree)
    requires s.T? && Good(MX, s) && Ranges(Items(Plug(c, s)))
    ensures AugOf(s.l) <= AugOf(s) < SIZE_MAX && AugOf(s.r) <= AugOf(s) && 0 < s.e.data <= AugOf(s)
    ensures (s.l.T? ==> AugOf(s.l) > 0) && (s.r.T? ==> AugOf(s.r) > 0)
  {
    MaxAug(s);
    SubRanges(c, s);
    RootPositive(s);
    if s.l.T? {
      SubRanges(InL(s.e, s.r, c), s.l);
      RootPositive(s.l);
    }
    if s.r.T? {
      SubRanges(InR(s.l, s.e, c), s.r);
      RootPositive(s.r);
    }
    if AugOf(s) > 0 {
      var i :| 0 <= i < |Items(s)| && Items(s)[i].data == AugOf(s);
      assert RangeOk(Items(s)[i]);
    }
  }

  /** A subtree with a range large enough, whose largest range is the smaller of the two. */
  predicate Smaller(t: Tree, u: Tree, size: int) { t.T? && AugOf(t) >= size && (u.T? && AugOf(u) >= size ==> AugOf(t) <= AugOf(u)) }

  /** The record at the root is large enough, and smaller than the largest of each subtree that has one large enough. */
  predicate RootBest(t: Tree, size: int)
    requires t.T?
  {
    && t.e.data >= size
    && (t.l.T? && AugOf(t.l) >= size ==> t.e.data < AugOf(t.l))
    && (t.r.T? && AugOf(t.r) >= size ==> t.e.data < AugOf(t.r))
  }

  /** What rbt_search_size takes: the record at the root, or one of the subtree whose largest is the smaller one. */
  ghost predicate Picked(t: Tree, size: int, n: Node) {
    t.T? &&
    if RootBest(t, size) then n == t.e.n
    else if Smaller(t.l, t.r, size) then Picked(t.l, size, n)
    else Picked(t.r, size, n)
  }

  /** The record found is no larger than the root's, and than the largest of either subtree, if that is large enough. */
  lemma {:induction false} PickedSmall(t: Tree, size: int, n: Node)
    requires Good(MX, t) && Picked(t, size, n) && size > 0
    ensures exists i :: 0 <= i < |Items(t)| && Items(t)[i].n == n && size <= Items(t)[i].data <= AugOf(t)
                        && (t.e.data >= size ==> Items(t)[i].data <= t.e.data)
                        && (AugOf(t.l) >= size ==> Items(t)[i].data <= AugOf(t.l))
                        && (AugOf(t.r) >= size ==> Items(t)[i].data <= AugOf(t.r))
  {
    MaxAug(t);
    MaxAug(t.l);
    MaxAug(t.r);
    var k := |Items(t.l)|;
    assert Items(t)[k] == ItemOf(t.e);
    if RootBest(t, size) {
      assert Items(t)[k].n == n;
    } else if Smaller(t.l, t.r, size) {
      PickedSmall(t.l, size, n);
      var i :| 0 <= i < |Items(t.l)| && Items(t.l)[i].n == n && size <= Items(t.l)[i].data <= AugOf(t.l);
      assert Items(t)[i] == Items(t.l)[i];
    } else {
      PickedSmall(t.r, size, n);
      var i :| 0 <= i < |Items(t.r)| && Items(t.r)[i].n == n && size <= Items(t.r)[i].data <= AugOf(t.r);
      assert Items(t)[k + 1 + i] == Items(t.r)[i];
    }
  }

  /** rbt_search_size: the guided descent finds a range exactly when a scan of all ranges would. */
  method SearchSize(rbt: Rbt, size: int) returns (err: Err, res: Node?)
    requires rbt.Valid() && Good(MX, rbt.tree) && Ranges(Items(rbt.tree)) && size >= 0
    ensures err == E_OK <==> Fits(Items(rbt.tree), size)
    ensures err == E_OK ==> res != null && res in rbt.nodes && res.data >= size
    ensures err == E_OK || (err == E_NOMEM && res == null)
    ensures err == E_OK ==> Picked(rbt.tree, size, res)
  {
    var n := rbt.root;
    ghost var c, s := Top, rbt.tree;
    // any range will do for size 0
    ghost var need := if size == 0 then 1 else size;
    FitsZero(Items(s));
    FitsAug(s, need);
    while n != null
      invariant n == null ==> !Fits(Items(rbt.tree), size)
      invariant n != null ==>
                  && Focus(Snap(rbt.nodes), rbt.root, c, s) && Plug(c, s) == rbt.tree && n == Root(s)
                  && Good(MX, s) && (Fits(Items(rbt.tree), size) <==> AugOf(s) >= need)
                  && (forall m: Node :: Picked(s, size, m) ==> Picked(rbt.tree, size, m))
      decreases s, n != null
    {
      var mx, next := SIZE_MAX, null;
      ChildrenView(rbt, c, s);
      SearchChoice(s, need);
      AugBound(c, s);
      if n.l != null {
        if n.l.aug >= size && n.l.aug < mx {
          mx, next := n.l.aug, n.l;
        }
      }
      if n.r != null {
        if n.r.aug >= size && n.r.aug < mx {
          mx, next := n.r.aug, n.r;
        }
      }
      if n.data >= size && n.data < mx {
        FitsPlug(c, s, size);
        return E_OK, n;
      }
      if next != null {
        ghost var d := if next == n.l then InL(s.e, s.r, c) else InR(s.l, s.e, c);
        ghost var t := if next == n.l then s.l else s.r;
        Refocus(Snap(rbt.nodes), rbt.root, c, s, d, t);
        c, s := d, t;
      }
      n := next;
    }
    return E_NOMEM, null;
  }

  /** The record whose range contains the address, if there is one. */
  ghost predicate Found(s: seq<Item>, a: int, res: Node?) {
    if res == null then !In(s, a) else exists i :: 0 <= i < |s| && s[i].n == res && Holds(s[i], a)
  }

  /** vm_search_addr: the descent by address agrees with a scan of all allocated ranges. */
  method SearchAddr(rbt: Rbt, addr: int) returns (err: Err, res: Node?)
    requires rbt.Valid() && Ranges(Items(rbt.tree))
    ensures Found(Items(rbt.tree), addr, res) && err == if res == null then E_NOTFOUND else E_OK
  {
    var n := rbt.root;
    ghost var c, s := Top, rbt.tree;
    while n != null
      invariant Focus(Snap(rbt.nodes), rbt.root, c, s) && Plug(c, s) == rbt.tree && n == Root(s)
      invariant In(Items(rbt.tree), addr) <==> In(Items(s), addr)
      decreases s
    {
      ChildrenView(rbt, c, s);
      SubRanges(c, s);
      AddrSide(s, addr);
      if addr < n.key {
        Refocus(Snap(rbt.nodes), rbt.root, c, s, InL(s.e, s.r, c), s.l);
        c, s := InL(s.e, s.r, c), s.l;
        n := n.l;
      } else if addr >= n.key + n.data {
        Refocus(Snap(rbt.nodes), rbt.root, c, s, InR(s.l, s.e, c), s.r);
        c, s := InR(s.l, s.e, c), s.r;
        n := n.r;
      } else {
        FoundHere(c, s, addr);
        return E_OK, n;
      }
    }
    return E_NOTFOUND, null;
  }

  lemma SubRanges(c: Ctx, s: Tree)
    requires Ranges(Items(Plug(c, s)))
    ensures Ranges(Items(s))
  {
    PlugItems(c, s);
    RangesSub(Before(c), Items(s), After(c));
  }

  /** An address is on the side of a node where its order puts it. */
  lemma AddrSide(s: Tree, a: int)
    requires s.T? && Ranges(Items(s))
    ensures a < s.e.key ==> (In(Items(s), a) <==> In(Items(s.l), a))
    ensures a >= s.e.key + s.e.data ==> (In(Items(s), a) <==> In(Items(s.r), a))
  {
    RangesParts(Items(s.l), ItemOf(s.e), Items(s.r));
    InParts(Items(s.l), ItemOf(s.e), Items(s.r), a);
  }

  lemma FoundHere(c: Ctx, s: Tree, a: int)
    requires s.T? && Holds(ItemOf(s.e), a)
    ensures Found(Items(Plug(c, s)), a, s.e.n)
  {
    PlugItems(c, s);
    var i := |Before(c)| + |Items(s.l)|;
    assert Items(s)[|Items(s.l)|] == ItemOf(s.e);
    assert Items(Plug(c, s))[i] == ItemOf(s.e);
  }

  // ----- merging free ranges -----

  /** One round of vm_merge: record now takes in its neighbour tmp and gets a new start and size;
      tmp leaves the tree, and the sizes above both are brought up to date. */
  method Absorb(rbt: Rbt, now: Node, tmp: Node, key: int, data: int, ghost i: nat, ghost j: nat)
    requires rbt.Valid() && Good(MX, rbt.tree) && now in rbt.nodes && tmp in rbt.nodes && now != tmp
    requires i == Idx(rbt.tree, now) && j == Idx(rbt.tree, tmp) && i < |Items(rbt.tree)| && j < |Items(rbt.tree)|
    modifies rbt, rbt.nodes
    ensures rbt.Valid() && Good(MX, rbt.tree)
    ensures rbt.nodes == old(rbt.nodes) - {tmp}
    ensures Items(rbt.tree) == RemoveAt(old(Items(rbt.tree))[i := Item(now, key, data)], j)
    ensures i != j
    ensures var k := if j < i then i - 1 else i; Idx(rbt.tree, now) == k < |Items(rbt.tree)| && Items(rbt.tree)[k].n == now
  {
    rbt.ItemFields(now);
    rbt.ItemFields(tmp);
    rbt.SetPayload(now, key, data);
    IdxUnique(rbt.tree, tmp, j);
    rbt.DeleteAndUpdate(tmp, MaxUpd, now);
    rbt.UpdateChanged(now, MaxUpd);
    IdxUnique(rbt.tree, now, if j < i then i - 1 else i);
  }

  /** What both loops of vm_merge keep. */
  ghost predicate Merging(rbt: Rbt, vp: Node, i: int)
    reads rbt, rbt.nodes
  {
    && rbt.Valid() && Good(MX, rbt.tree) && vp in rbt.nodes
    && 0 <= i < |Items(rbt.tree)| && Idx(rbt.tree, vp) == i && Items(rbt.tree)[i].n == vp
  }

  /** One round of the first loop; done when there is no next record or it is not adjacent. */
  method AbsorbNext(rbt: Rbt, vp: Node, ghost i: nat) returns (done: bool, stopped: bool)
    requires Merging(rbt, vp, i)
    modifies rbt, rbt.nodes
    ensures Merging(rbt, vp, i) && rbt.nodes <= old(rbt.nodes)
    ensures done ==> !Adjacent(Items(rbt.tree), i) && Items(rbt.tree) == old(Items(rbt.tree))
    ensures done ==> (stopped <==> i + 1 < |Items(rbt.tree)|)
    ensures !done ==> old(Adjacent(Items(rbt.tree), i)) && Items(rbt.tree) == Fuse(old(Items(rbt.tree)), i, vp)
  {
    var tmp := rbt.Next(vp);
    if tmp == null {
      return true, false;
    }
    rbt.ItemFields(vp);
    rbt.NodeAtFields(i + 1);
    if vp.key + vp.data != tmp.key {
      return true, true;
    }
    FuseRight(Items(rbt.tree), i);
    Absorb(rbt, vp, tmp, vp.key, vp.data + tmp.data, i, i + 1);
    return false, false;
  }

  /** One round of the second loop. */
  method AbsorbPrev(rbt: Rbt, vp: Node, ghost i: nat) returns (done: bool)
    requires Merging(rbt, vp, i)
    modifies rbt, rbt.nodes
    ensures Merging(rbt, vp, if done then i else i - 1) && rbt.nodes <= old(rbt.nodes)
    ensures done ==> !Adjacent(Items(rbt.tree), i - 1) && Items(rbt.tree) == old(Items(rbt.tree))
    ensures !done ==> old(Adjacent(Items(rbt.tree), i - 1)) && Items(rbt.tree) == Fuse(old(Items(rbt.tree)), i - 1, vp)
  {
    var tmp := rbt.Prev(vp);
    if tmp == null {
      return true;
    }
    rbt.ItemFields(vp);
    rbt.NodeAtFields(i - 1);
    if tmp.key + tmp.data != vp.key {
      return true;
    }
    FuseLeft(Items(rbt.tree), i);
    Absorb(rbt, vp, tmp, tmp.key, vp.data + tmp.data, i, i - 1);
    done := false;
  }

  /** The first loop of vm_merge; stopped tells that it returned at a record that is not adjacent. */
  method MergeForward(rbt: Rbt, vp: Node, ghost i: nat) returns (stopped: bool)
    requires Merging(rbt, vp, i)
    modifies rbt, rbt.nodes
    ensures Merging(rbt, vp, i) && rbt.nodes <= old(rbt.nodes)
    ensures Items(rbt.tree) == MergeRight(old(Items(rbt.tree)), i)
    ensures stopped == (i + 1 < |Items(rbt.tree)|)
  {
    hide Rbt.Valid, Items, Good, Idx;
    ghost var s := Items(rbt.tree);
    var done := false;
    stopped := false;
    while !done
      invariant Merging(rbt, vp, i) && rbt.nodes <= old(rbt.nodes)
      invariant MergeRight(Items(rbt.tree), i) == MergeRight(s, i)
      invariant done ==> !Adjacent(Items(rbt.tree), i) && (stopped <==> i + 1 < |Items(rbt.tree)|)
      decreases |Items(rbt.tree)|, !done
    {
      done, stopped := AbsorbNext(rbt, vp, i);
    }
  }

  /** The second loop of vm_merge. */
  method MergeBackward(rbt: Rbt, vp: Node, ghost i: nat)
    requires Merging(rbt, vp, i)
    modifies rbt, rbt.nodes
    ensures rbt.Valid() && Good(MX, rbt.tree) && vp in rbt.nodes && rbt.nodes <= old(rbt.nodes)
    ensures Items(rbt.tree) == MergeLeft(old(Items(rbt.tree)), i)
  {
    hide Rbt.Valid, Items, Good, Idx, Fuse;
    ghost var s, k: int := Items(rbt.tree), i;
    var done := false;
    while !done
      invariant 0 <= k && Merging(rbt, vp, k) && rbt.nodes <= old(rbt.nodes)
      invariant MergeLeft(Items(rbt.tree), k) == MergeLeft(s, i)
      invariant done ==> !Adjacent(Items(rbt.tree), k - 1)
      decreases k, !done
    {
      done := AbsorbPrev(rbt, vp, k);
      if !done {
        k := k - 1;
      }
    }
  }

  /** vm_merge */
  method MergeFree(rbt: Rbt, vp: Node)
    requires rbt.Valid() && Good(MX, rbt.tree) && vp in rbt.nodes
    modifies rbt, rbt.nodes
    ensures rbt.Valid() && Good(MX, rbt.tree) && vp in rbt.nodes && rbt.nodes <= old(rbt.nodes)
    ensures old(Idx(rbt.tree, vp) < |Items(rbt.tree)|)
    ensures Items(rbt.tree) == Merge(old(Items(rbt.tree)), old(Idx(rbt.tree, vp)))
  {
    ghost var i := Idx(rbt.tree, vp);
    rbt.ItemFields(vp);
    var stopped := MergeForward(rbt, vp, i);
    if !stopped {
      MergeBackward(rbt, vp, i);
    }
  }

  lemma FuseRight(s: seq<Item>, i: nat)
    requires Adjacent(s, i)
    ensures Fuse(s, i, s[i].n) == RemoveAt(s[i := Item(s[i].n, s[i].key, s[i].data + s[i + 1].data)], i + 1)
  {
  }

  lemma FuseLeft(s: seq<Item>, i: nat)
    requires Adjacent(s, i - 1)
    ensures Fuse(s, i - 1, s[i].n) == RemoveAt(s[i := Item(s[i].n, s[i - 1].key, s[i].data + s[i - 1].data)], i - 1)
  {
  }

  // ----- the allocator -----

  const WORD: int := 0x1_0000_0000

  /** ROUND_UP to pages, in 32 bits. */
  function RoundUp(size: int): int { (size + PAGE_SIZE - 1) % WORD / PAGE_SIZE * PAGE_SIZE }

  /** Rounding up gives the least number of whole pages that holds the size, exactly when it does not wrap;
      where it wraps the result is 0. */
  lemma RoundUpExactly(size: int)
    requires 0 <= size < WORD
    ensures RoundUp(size) >= size <==> size <= 0xFFFF_F000
    ensures if size <= 0xFFFF_F000 then size <= RoundUp(size) < size + PAGE_SIZE else RoundUp(size) == 0
    ensures RoundUp(size) >= 0 && RoundUp(size) % PAGE_SIZE == 0 && (RoundUp(size) == 0 <==> size == 0 || size > 0xFFFF_F000)
  {
  }

  function RecOf(n: Node): Item
    reads n
  {
    Item(n, n.key, n.data)
  }

  /** f' is f with record x in its place and merged with its neighbours. */
  ghost predicate Merged(f: seq<Item>, x: Item, f': seq<Item>) {
    exists i: nat :: i < |InsertItem(f, x)| && InsertItem(f, x)[i] == x && f' == Merge(InsertItem(f, x), i)
  }

  /** The front of some range of f, size bytes from key on, has been cut off. */
  ghost predicate CutFrom(f: seq<Item>, key: int, size: int, f': seq<Item>) {
    exists i: nat :: i < |f| && f[i].key == key && f[i].data >= size && f' == FrontCut(f, i, size)
  }

  /** struct vpage_alct_t. What the record allocator mm_ops.alloc answers is a parameter of the operations that
      call it; they hand its code on. */
  class VpageAlct {
    const free: Rbt
    const alloced: Rbt

    ghost predicate Trees()
      reads this, free, alloced, free.nodes, alloced.nodes
    {
      free != alloced && free.Valid() && alloced.Valid() && free.nodes !! alloced.nodes && Good(MX, free.tree)
    }

    ghost predicate Valid()
      reads this, free, alloced, free.nodes, alloced.nodes
    {
      Trees() && Divided(Items(free.tree), Items(alloced.tree))
    }

    /** The address belongs to a free or an allocated range. */
    ghost predicate Owns(a: int)
      reads this, free, alloced
    {
      In(Items(free.tree), a) || In(Items(alloced.tree), a)
    }

    /** vm_init */
    constructor ()
      ensures Valid() && fresh(free) && fresh(alloced)
      ensures free.tree == Nil && alloced.tree == Nil && free.nodes == {} && alloced.nodes == {}
      ensures forall a :: !Owns(a)
    {
      free := new Rbt();
      alloced := new Rbt();
    }

    /** vm_insert_free */
    method InsertFree(vp: Node) returns (err: Err)
      requires free.Valid() && Good(MX, free.tree) && Ranges(Items(free.tree))
      requires vp !in free.nodes && RangeOk(RecOf(vp)) && Clear(Items(free.tree), RecOf(vp))
      modifies free, free.nodes, vp
      ensures err == E_OK
      ensures free.Valid() && Good(MX, free.tree) && Ranges(Items(free.tree)) && free.nodes <= old(free.nodes) + {vp}
      ensures Merged(old(Items(free.tree)), old(RecOf(vp)), Items(free.tree))
      ensures forall a :: In(Items(free.tree), a) <==> old(In(Items(free.tree), a)) || old(Holds(RecOf(vp), a))
      ensures Fits(Items(free.tree), old(vp.data))
    {
      ghost var x := RecOf(vp);
      ghost var s := InsertItem(Items(free.tree), x);
      InsertRange(Items(free.tree), x);
      RangesSorted(Items(free.tree));
      var ok := free.InsertAndUpdate(vp, MaxUpd, null);
      free.ItemFields(vp);
      ghost var i := Idx(free.tree, vp);
      MergeFree(free, vp);
      MergeKeeps(s, i);
      MergeGrows(s, i);
      err := E_OK;
    }

    /** vm_insert; rec is the answer of the record allocator. */
    method InsertNew(addr: int, size: int, rec: Err) returns (err: Err)
      requires Valid() && RangeIsNew(addr, size)
      modifies free, free.nodes
      ensures Valid() && alloced.tree == old(alloced.tree) && alloced.nodes == old(alloced.nodes)
      ensures fresh(free.nodes - old(free.nodes))
      ensures err == rec
      ensures forall a :: Owns(a) <==> old(Owns(a)) || (rec == E_OK && addr <= a < addr + size)
      ensures forall a :: In(Items(free.tree), a) <==> old(In(Items(free.tree), a)) || (rec == E_OK && addr <= a < addr + size)
      ensures rec == E_OK ==> Fits(Items(free.tree), size)
      ensures rec == E_OK ==> exists n: Node :: Merged(old(Items(free.tree)), Item(n, addr, size), Items(free.tree))
    {
      if rec != E_OK {
        return rec;
      }
      ghost var f, t := Items(free.tree), Items(alloced.tree);
      ghost var x;
      err, x := InsertRecord(addr, size);
      hide Rbt.Valid, Items, Good, Merged, Fits, In, Divided;
      StillDivided(f, Items(free.tree), t, x);
    }

    /** The record for a new range among the free ones. */
    method InsertRecord(addr: int, size: int) returns (err: Err, ghost x: Item)
      requires Valid() && RangeIsNew(addr, size)
      modifies free, free.nodes
      ensures err == E_OK && x.key == addr && x.data == size && forall a :: Holds(x, a) ==> !In(Items(alloced.tree), a)
      ensures free.Valid() && Good(MX, free.tree) && Ranges(Items(free.tree)) && fresh(free.nodes - old(free.nodes))
      ensures Merged(old(Items(free.tree)), x, Items(free.tree)) && Fits(Items(free.tree), size)
      ensures forall a :: In(Items(free.tree), a) <==> old(In(Items(free.tree), a)) || Holds(x, a)
    {
      var vp := new Node(addr, size);
      x := RecOf(vp);
      NewIsClear(x);
      assert Ranges(Items(free.tree));
      hide Rbt.Valid, Items, Good, Merged, Fits, Clear, In, Ranges;
      err := InsertFree(vp);
    }

    lemma StillDivided(f: seq<Item>, f': seq<Item>, t: seq<Item>, x: Item)
      requires Divided(f, t) && Ranges(f') && forall a :: In(f', a) <==> In(f, a) || Holds(x, a)
      requires forall a :: Holds(x, a) ==> !In(t, a)
      ensures Divided(f', t)
    {
      SeparateGrow(f, f', t, x);
    }

    lemma NewIsClear(x: Item)
      requires Valid() && RangeIsNew(x.key, x.data)
      ensures RangeOk(x) && Clear(Items(free.tree), x)
      ensures forall a :: Holds(x, a) ==> !In(Items(alloced.tree), a)
    {
      forall a | Holds(x, a) ensures !In(Items(free.tree), a) && !In(Items(alloced.tree), a) {
        assert !Owns(a);
      }
      ClearIn(Items(free.tree), x);
    }

    /** A page-aligned range inside the address space that the allocator does not own yet. */
    ghost predicate RangeIsNew(addr: int, size: int)
      reads this, free, alloced
    {
      && size > 0 && addr >= 0 && addr + size <= ADDR_LIMIT && addr % PAGE_SIZE == 0 && size % PAGE_SIZE == 0
      && forall a :: addr <= a < addr + size ==> !Owns(a)
    }

    /** vm_free: the range goes back to the free ranges. */
    method Free(vp: Node) returns (err: Err)
      requires Valid() && vp in alloced.nodes
      modifies free, free.nodes, alloced, alloced.nodes
      ensures Valid() && err == E_OK
      ensures alloced.nodes == old(alloced.nodes) - {vp} && free.nodes <= old(free.nodes) + {vp}
      ensures forall a :: Owns(a) <==> old(Owns(a))
      ensures old(Idx(alloced.tree, vp) < |Items(alloced.tree)|)
      ensures Items(alloced.tree) == RemoveAt(old(Items(alloced.tree)), old(Idx(alloced.tree, vp)))
      ensures Merged(old(Items(free.tree)), old(RecOf(vp)), Items(free.tree))
      ensures forall a :: In(Items(alloced.tree), a) <==> old(In(Items(alloced.tree), a)) && !old(Holds(RecOf(vp), a))
      ensures forall a :: In(Items(free.tree), a) <==> old(In(Items(free.tree), a)) || old(Holds(RecOf(vp), a))
    {
      ghost var f, x := Items(free.tree), RecOf(vp);
      LeavingAlloced(vp);
      alloced.Remove(vp);
      err := InsertFree(vp);
      SeparateGrow(f, Items(free.tree), Items(alloced.tree), x);
    }

    /** What the allocated ranges are without one of them. */
    lemma LeavingAlloced(vp: Node)
      requires Valid() && vp in alloced.nodes
      ensures Idx(alloced.tree, vp) < |Items(alloced.tree)|
      ensures RangeOk(RecOf(vp)) && Clear(Items(free.tree), RecOf(vp)) && In(Items(alloced.tree), vp.key)
      ensures var t := RemoveAt(Items(alloced.tree), Idx(alloced.tree, vp));
              && Ranges(t) && Separate(Items(free.tree), t) && Clear(t, RecOf(vp))
              && (forall a :: In(t, a) <==> In(Items(alloced.tree), a) && !Holds(RecOf(vp), a))
              && (forall a :: Holds(RecOf(vp), a) ==> !In(t, a) && In(Items(alloced.tree), a))
    {
      var f, t := Items(free.tree), Items(alloced.tree);
      alloced.ItemFields(vp);
      var i := Idx(alloced.tree, vp);
      RemoveRange(t, i);
      SeparateMember(f, t, i);
      assert RangeOk(t[i]);
      assert Holds(t[i], vp.key);
    }

    /** The front of a free range is taken: the record shrinks, or goes when nothing is left. */
    method TakeFront(res: Node, size: int)
      requires free.Valid() && Good(MX, free.tree) && res in free.nodes
      modifies free, free.nodes
      ensures free.Valid() && Good(MX, free.tree) && free.nodes <= old(free.nodes)
      ensures old(Idx(free.tree, res) < |Items(free.tree)|)
      ensures Items(free.tree) == FrontCut(old(Items(free.tree)), old(Idx(free.tree, res)), size)
    {
      free.ItemFields(res);
      if res.data == size {
        free.DeleteAndUpdate(res, MaxUpd, null);
      } else {
        free.SetPayload(res, res.key + size, res.data - size);
        free.UpdateChanged(res, MaxUpd);
      }
    }

    /** The addresses a front cut moves, and that they are clear of the allocated ranges. */
    lemma FrontMoves(res: Node, size: int, x: Item)
      requires Valid() && res in free.nodes && 0 < size <= res.data && size % PAGE_SIZE == 0
      requires x.key == res.key && x.data == size
      ensures Idx(free.tree, res) < |Items(free.tree)|
      ensures var f' := FrontCut(Items(free.tree), Idx(free.tree, res), size);
              var t := InsertItem(Items(alloced.tree), x);
              && Divided(f', t) && !HasKey(Items(alloced.tree), x.key)
              && SortedKeys(Items(alloced.tree))
              && (forall a :: Holds(x, a) ==> In(Items(free.tree), a) && !In(Items(alloced.tree), a))
              && (forall a :: In(f', a) <==> In(Items(free.tree), a) && !Holds(x, a))
              && (forall a :: In(t, a) <==> In(Items(alloced.tree), a) || Holds(x, a))
    {
      free.ItemFields(res);
      var f, i := Items(free.tree), Idx(free.tree, res);
      CutFront(f, i, size);
      var y := Item(f[i].n, f[i].key, size);
      assert RangeOk(x) && forall a :: Holds(x, a) <==> Holds(y, a);
      RangesSorted(Items(alloced.tree));
      SeparateIn(f, Items(alloced.tree));
      SeparateMove(f, FrontCut(f, i, size), Items(alloced.tree), x);
    }

    /** The front of a free range goes to the record vp, which joins the allocated ones. */
    method Carve(res: Node, vp: Node)
      requires Trees() && res in free.nodes && vp !in free.nodes + alloced.nodes
      requires SortedKeys(Items(alloced.tree)) && !HasKey(Items(alloced.tree), vp.key)
      modifies free, free.nodes, alloced, alloced.nodes, vp
      ensures Trees() && vp.key == old(vp.key) && vp.data == old(vp.data)
      ensures free.nodes <= old(free.nodes) && alloced.nodes == old(alloced.nodes) + {vp}
      ensures old(Idx(free.tree, res) < |Items(free.tree)|)
      ensures Items(free.tree) == FrontCut(old(Items(free.tree)), old(Idx(free.tree, res)), vp.data)
      ensures Items(alloced.tree) == InsertItem(old(Items(alloced.tree)), RecOf(vp))
    {
      TakeFront(res, vp.data);
      var ok := alloced.Add(vp);
    }

    /** A record of size 0 at the start of a free range: its key is new to the allocated ones, it adds no
        address, and a record of size 0 is no range. */
    lemma NoFront(res: Node, x: Item)
      requires Valid() && res in free.nodes && x.key == res.key && x.data == 0
      ensures Idx(free.tree, res) < |Items(free.tree)|
      ensures FrontCut(Items(free.tree), Idx(free.tree, res), 0) == Items(free.tree)
      ensures !HasKey(Items(alloced.tree), x.key) && SortedKeys(Items(alloced.tree))
      ensures var t := InsertItem(Items(alloced.tree), x);
              !Ranges(t) && forall a :: In(t, a) <==> In(Items(alloced.tree), a)
    {
      free.ItemFields(res);
      var f, t, i := Items(free.tree), Items(alloced.tree), Idx(free.tree, res);
      assert RangeOk(f[i]) && Clear(t, f[i]);
      forall j | 0 <= j < |t| ensures t[j].key != x.key { assert RangeOk(t[j]) && !Overlap(t[j], f[i]); }
      RangesSorted(t);
      ZeroInserted(t, x);
    }

    /** vm_alloc: a range of the rounded size, cut from the front of a free one. It fails for lack of space
        exactly when no free range is large enough. The ranges stay ranges exactly when the rounded size
        is not 0; a size whose rounding wraps gets a record of size 0. */
    method Alloc(size: int, rec: Err) returns (err: Err, vp: Node?)
      requires Valid() && 0 <= size < WORD
      modifies free, free.nodes, alloced, alloced.nodes
      ensures Trees() && (Valid() <==> err != E_OK || RoundUp(size) > 0)
      ensures err == if !old(Fits(Items(free.tree), RoundUp(size))) then E_NOMEM else rec
      ensures err != E_OK ==>
                && free.tree == old(free.tree) && alloced.tree == old(alloced.tree)
                && free.nodes == old(free.nodes) && alloced.nodes == old(alloced.nodes)
      ensures err == E_OK ==>
                && vp != null && fresh(vp) && vp in alloced.nodes && vp.data == RoundUp(size)
                && free.nodes <= old(free.nodes) && alloced.nodes == old(alloced.nodes) + {vp}
                && Items(alloced.tree) == InsertItem(old(Items(alloced.tree)), RecOf(vp))
                && CutFrom(old(Items(free.tree)), vp.key, vp.data, Items(free.tree))
                && (exists n :: n in old(free.nodes) && old(Picked(free.tree, RoundUp(size), n)) && old(n.key) == vp.key)
                && (forall a :: In(Items(free.tree), a) <==> old(In(Items(free.tree), a)) && !Holds(RecOf(vp), a))
                && (forall a :: Holds(RecOf(vp), a) ==> old(In(Items(free.tree), a) && !In(Items(alloced.tree), a)))
      ensures forall a :: Owns(a) <==> old(Owns(a))
    {
      var sz := RoundUp(size);
      RoundUpExactly(size);
      var res;
      err, res := SearchSize(free, sz);
      vp := null;
      if err == E_OK {
        if rec == E_OK {
          vp := new Node(res.key, sz);
          free.ItemFields(res);
          if sz > 0 { FrontMoves(res, sz, RecOf(vp)); } else { NoFront(res, RecOf(vp)); }
          Carve(res, vp);
        } else {
          err := rec;
        }
      }
    }

    // ----- slicing an allocated range -----

    /** _vm_slice: an allocated range is split at bound. When no record can be had for the right
        half, the range is lost: it was taken out of the tree first. All other records stay. */
    method SliceAt(vpo: Node, bound: int, rec: Err) returns (err: Err, vpr: Node?)
      requires Valid() && vpo in alloced.nodes
      requires vpo.key < bound < vpo.key + vpo.data - 1 && bound % PAGE_SIZE == 0
      modifies alloced, alloced.nodes
      ensures Valid() && free.tree == old(free.tree) && free.nodes == old(free.nodes)
      ensures err == rec
      ensures old(Idx(alloced.tree, vpo) < |Items(alloced.tree)|)
      ensures rec != E_OK ==>
                && alloced.nodes == old(alloced.nodes) - {vpo} && vpr == null
                && Items(alloced.tree) == RemoveAt(old(Items(alloced.tree)), old(Idx(alloced.tree, vpo)))
      ensures rec == E_OK ==>
                && vpr != null && fresh(vpr) && alloced.nodes == old(alloced.nodes) + {vpr}
                && vpo.key == old(vpo.key) && vpo.data == bound - vpo.key
                && vpr.key == bound && vpr.data == old(vpo.key + vpo.data) - bound
                && Items(alloced.tree) == Splice(old(Items(alloced.tree)), old(Idx(alloced.tree, vpo)), [RecOf(vpo), RecOf(vpr)])
      ensures forall a :: In(Items(alloced.tree), a) <==>
                old(In(Items(alloced.tree), a)) && (rec == E_OK || !old(Holds(RecOf(vpo), a)))
    {
      hide Rbt.Valid, Items, RemoveAt, Splice, Divided, In, Good;
      err, vpr := SliceTree(alloced, vpo, bound, rec, Items(free.tree));
    }

    /** vm_slice: exactly the range asked for becomes a record of its own, its record gives way to the pieces
        and every other record stays. Where a record is missing the piece that was being split is lost.
        rec1 and rec2 are the answers of the record allocator. */
    method Slice(vpage: Node, addr: int, size: int, rec1: Err, rec2: Err) returns (err: Err, res: Node?, ghost right: Node)
      requires Valid() && vpage in alloced.nodes && size > 0 && addr % PAGE_SIZE == 0 && size % PAGE_SIZE == 0
      requires vpage.key <= addr && addr + size <= vpage.key + vpage.data
      modifies alloced, alloced.nodes
      ensures Valid() && free.tree == old(free.tree)
      ensures old(Idx(alloced.tree, vpage) < |Items(alloced.tree)|)
      ensures var lostL, lostR := addr > old(vpage.key) && rec1 != E_OK, addr + size < old(vpage.key + vpage.data) && rec2 != E_OK;
              var s, i, w := old(Items(alloced.tree)), old(Idx(alloced.tree, vpage)), old(RecOf(vpage));
              && err == (if lostL then rec1 else if lostR then rec2 else E_OK)
              && (lostL ==> Items(alloced.tree) == Splice(s, i, []))
              && (!lostL && lostR ==> Items(alloced.tree) == Splice(s, i, LeftPiece(w, addr)))
              && (err == E_OK ==>
                    && res != null && res in alloced.nodes && res.key == addr && res.data == size
                    && Items(alloced.tree) == Splice(s, i, Pieces(w, addr, size, res, right)))
              && (forall a :: In(Items(alloced.tree), a) <==> In(s, a) && !Lost(w, addr, lostL, lostR, a))
    {
      hide Rbt.Valid, Items, RemoveAt, Splice, Divided, In, Good, LeftPiece, Pieces, Lost;
      err, res, right := SliceRange(alloced, vpage, addr, size, rec1, rec2, Items(free.tree));
    }
  }

  /** What vm_slice makes of range w: the part asked for, and what is left on its sides. */
  function Pieces(w: Item, addr: int, size: int, res: Node, right: Node): seq<Item> {
    LeftPiece(w, addr) + [Item(res, addr, size)] + RightPiece(w, addr + size, right)
  }

  /** An address that goes with the piece that was being split when a record was missing. */
  predicate Lost(w: Item, addr: int, lostL: bool, lostR: bool, a: int) {
    if lostL then Holds(w, a) else lostR && addr <= a < w.key + w.data
  }

  /** The allocated ranges s when range i becomes x and y, and without it. */
  lemma SliceMoves(f: seq<Item>, s: seq<Item>, i: nat, x: Item, y: Item)
    requires Divided(f, s) && i < |s| && x.key == s[i].key && x.key < y.key < s[i].key + s[i].data && y.key % PAGE_SIZE == 0
    requires x.data == y.key - x.key && y.data == s[i].key + s[i].data - y.key
    ensures var t := RemoveAt(s, i);
            && SortedKeys(t) && !HasKey(t, x.key) && SortedKeys(InsertItem(t, x)) && !HasKey(InsertItem(t, x), y.key)
            && InsertItem(InsertItem(t, x), y) == Splice(s, i, [x, y])
            && Divided(f, t) && (forall a :: In(t, a) <==> In(s, a) && !Holds(s[i], a))
    ensures Divided(f, Splice(s, i, [x, y])) && forall a :: In(Splice(s, i, [x, y]), a) <==> In(s, a)
  {
    RemoveRange(s, i);
    SeparateMember(f, s, i);
    assert RangeOk(s[i]);
    HalvesOk(s[i], x, y);
    SplitRange(f, RemoveAt(s, i), s[i], x, y);
    HalvesSplice(s, i, x, y);
  }

  lemma SpliceSelf(s: seq<Item>, i: nat)
    requires i < |s|
    ensures Splice(s, i, [] + [s[i]] + []) == s && Splice(s, i, []) == RemoveAt(s, i)
  {
  }

  lemma SpliceAt(s: seq<Item>, i: nat, p: seq<Item>, x: Item)
    requires i < |s|
    ensures i + |p| < |Splice(s, i, p + [x])| && Splice(s, i, p + [x])[i + |p|] == x
  {
  }

  /** The last of the records that took the place of record i gives way in its turn. */
  lemma SpliceTwice(s: seq<Item>, i: nat, p: seq<Item>, x: Item, q: seq<Item>)
    requires i < |s|
    ensures i + |p| < |Splice(s, i, p + [x])| && Splice(Splice(s, i, p + [x]), i + |p|, q) == Splice(s, i, p + q)
  {
    var t := Splice(s, i, p + [x]);
    assert t[..i + |p|] == s[..i] + p && t[i + |p| + 1..] == s[i + 1..];
  }

  /** The pieces of range w before and after the part that vm_slice cuts out. */
  function LeftPiece(w: Item, addr: int): seq<Item> {
    if addr > w.key then [Item(w.n, w.key, addr - w.key)] else []
  }

  function RightPiece(w: Item, end: int, n: Node): seq<Item> {
    if end < w.key + w.data then [Item(n, end, w.key + w.data - end)] else []
  }

  /** _vm_slice on the tree of allocated ranges; f are the free ones. */
  method SliceTree(rbt: Rbt, vpo: Node, bound: int, rec: Err, ghost f: seq<Item>) returns (err: Err, vpr: Node?)
    requires rbt.Valid() && Divided(f, Items(rbt.tree)) && vpo in rbt.nodes
    requires vpo.key < bound < vpo.key + vpo.data - 1 && bound % PAGE_SIZE == 0
    modifies rbt, rbt.nodes
    ensures rbt.Valid() && Divided(f, Items(rbt.tree)) && err == rec
    ensures old(Idx(rbt.tree, vpo) < |Items(rbt.tree)| && Items(rbt.tree)[Idx(rbt.tree, vpo)] == RecOf(vpo))
    ensures rec != E_OK ==>
              && rbt.nodes == old(rbt.nodes) - {vpo} && vpr == null
              && Items(rbt.tree) == RemoveAt(old(Items(rbt.tree)), old(Idx(rbt.tree, vpo)))
    ensures rec == E_OK ==>
              && vpr != null && fresh(vpr) && rbt.nodes == old(rbt.nodes) + {vpr}
              && vpo.key == old(vpo.key) && vpo.data == bound - vpo.key
              && vpr.key == bound && vpr.data == old(vpo.key + vpo.data) - bound
              && Items(rbt.tree) == Splice(old(Items(rbt.tree)), old(Idx(rbt.tree, vpo)), [RecOf(vpo), RecOf(vpr)])
    ensures forall a :: In(Items(rbt.tree), a) <==> old(In(Items(rbt.tree), a)) && (rec == E_OK || !old(Holds(RecOf(vpo), a)))
  {
    rbt.ItemFields(vpo);
    ghost var s, i := Items(rbt.tree), Idx(rbt.tree, vpo);
    ghost var x, y := Item(vpo, vpo.key, bound - vpo.key), Item(vpo, bound, vpo.key + vpo.data - bound);
    hide Rbt.Valid, InsertItem, Items, RemoveAt, Splice, Divided, In, SortedKeys, HasKey;
    SliceMoves(f, s, i, x, y);
    err, vpr := SliceRecord(rbt, vpo, bound, rec);
    if rec == E_OK {
      SliceMoves(f, s, i, x, RecOf(vpr));
    }
  }

  /** vm_slice on the tree of allocated ranges. */
  method SliceRange(rbt: Rbt, vpage: Node, addr: int, size: int, rec1: Err, rec2: Err, ghost f: seq<Item>)
    returns (err: Err, res: Node?, ghost right: Node)
    requires rbt.Valid() && Divided(f, Items(rbt.tree)) && vpage in rbt.nodes
    requires size > 0 && addr % PAGE_SIZE == 0 && size % PAGE_SIZE == 0
    requires vpage.key <= addr && addr + size <= vpage.key + vpage.data
    modifies rbt, rbt.nodes
    ensures rbt.Valid() && Divided(f, Items(rbt.tree)) && fresh(rbt.nodes - old(rbt.nodes))
    ensures old(Idx(rbt.tree, vpage) < |Items(rbt.tree)|)
    ensures var lostL, lostR := addr > old(vpage.key) && rec1 != E_OK, addr + size < old(vpage.key + vpage.data) && rec2 != E_OK;
            var s, i, w := old(Items(rbt.tree)), old(Idx(rbt.tree, vpage)), old(RecOf(vpage));
            && err == (if lostL then rec1 else if lostR then rec2 else E_OK)
            && (lostL ==> Items(rbt.tree) == Splice(s, i, []))
            && (!lostL && lostR ==> Items(rbt.tree) == Splice(s, i, LeftPiece(w, addr)))
            && (err == E_OK ==>
                  && res != null && res in rbt.nodes && res.key == addr && res.data == size
                  && Items(rbt.tree) == Splice(s, i, Pieces(w, addr, size, res, right)))
            && (forall a :: In(Items(rbt.tree), a) <==> In(s, a) && !Lost(w, addr, lostL, lostR, a))
  {
    ghost var s, i, w := Items(rbt.tree), Idx(rbt.tree, vpage), RecOf(vpage);
    hide Rbt.Valid, Items, Divided, In, Splice, LeftPiece, RightPiece, Pieces, Lost, Idx, Nodes, Holds;
    right := vpage;
    res := SliceFront(rbt, vpage, addr, rec1, f);
    if res == null {
      LostAll(w, addr, addr + size < w.key + w.data && rec2 != E_OK);
      return rec1, null, right;
    }
    err, right := SliceRest(rbt, res, addr, size, rec2, f, s, i, w);
    if err != E_OK {
      res := null;
    }
  }

  /** The second cut, told from before the first: record i of s was w and is now its left piece and res. */
  method SliceRest(rbt: Rbt, res: Node, addr: int, size: int, rec: Err, ghost f: seq<Item>,
                   ghost s: seq<Item>, ghost i: nat, ghost w: Item)
    returns (err: Err, ghost right: Node)
    requires rbt.Valid() && Divided(f, Items(rbt.tree)) && res in rbt.nodes && res in Nodes(rbt.tree)
    requires i < |s| && Items(rbt.tree) == Splice(s, i, LeftPiece(w, addr) + [RecOf(res)])
    requires Idx(rbt.tree, res) == i + |LeftPiece(w, addr)| && res.key == addr && res.data == w.key + w.data - addr
    requires (addr + size) % PAGE_SIZE == 0 && size > 0 && addr + size <= w.key + w.data
    modifies rbt, rbt.nodes
    ensures rbt.Valid() && Divided(f, Items(rbt.tree)) && fresh(rbt.nodes - old(rbt.nodes))
    ensures err == if addr + size < w.key + w.data && rec != E_OK then rec else E_OK
    ensures err != E_OK ==> Items(rbt.tree) == Splice(s, i, LeftPiece(w, addr))
    ensures err == E_OK ==>
              && res in rbt.nodes && res.key == addr && res.data == size
              && Items(rbt.tree) == Splice(s, i, Pieces(w, addr, size, res, right))
    ensures forall a :: In(Items(rbt.tree), a) <==> old(In(Items(rbt.tree), a)) && !Lost(w, addr, false, err != E_OK, a)
  {
    hide Rbt.Valid, Items, Divided, In, Splice, LeftPiece, RightPiece, Pieces, Lost, Idx, Nodes, Holds;
    ghost var mid := RecOf(res);
    var ok;
    ok, right := SliceBack(rbt, res, addr + size, rec, f);
    CutPieces(s, i, w, addr, size, mid, right);
    LostMid(w, mid, addr);
    err := if ok then E_OK else rec;
  }

  lemma LostMid(w: Item, mid: Item, addr: int)
    requires mid.key == addr && mid.data == w.key + w.data - addr
    ensures forall a :: Lost(w, addr, false, true, a) <==> Holds(mid, a)
    ensures forall a :: !Lost(w, addr, false, false, a)
  {
  }

  lemma LostAll(w: Item, addr: int, lostR: bool)
    ensures forall a :: Lost(w, addr, true, lostR, a) <==> Holds(w, a)
  {
  }

  /** Cutting the end of the middle piece off, and losing that piece. */
  lemma CutPieces(s: seq<Item>, i: nat, w: Item, addr: int, size: int, mid: Item, right: Node)
    requires i < |s| && mid.key == addr && mid.data == w.key + w.data - addr && addr + size <= w.key + w.data
    ensures var p := LeftPiece(w, addr);
            var t := Splice(s, i, p + [mid]);
            && i + |p| < |t|
            && Splice(t, i + |p|, [Item(mid.n, addr, size)] + RightPiece(mid, addr + size, right)) ==
               Splice(s, i, Pieces(w, addr, size, mid.n, right))
            && Splice(t, i + |p|, []) == Splice(s, i, p)
  {
    var p, q := LeftPiece(w, addr), [Item(mid.n, addr, size)] + RightPiece(mid, addr + size, right);
    SpliceTwice(s, i, p, mid, q);
    SpliceTwice(s, i, p, mid, []);
    assert p + q == Pieces(w, addr, size, mid.n, right) && p + [] == p;
  }

  lemma NoLeftPiece(w: Item, addr: int)
    requires addr == w.key
    ensures LeftPiece(w, addr) == [] && [] + [w] == [] + [w] + []
  {
  }

  /** The first cut: res begins at addr; null when the record is lost. */
  method SliceFront(rbt: Rbt, vpage: Node, addr: int, rec: Err, ghost f: seq<Item>) returns (res: Node?)
    requires rbt.Valid() && Divided(f, Items(rbt.tree)) && vpage in rbt.nodes
    requires addr % PAGE_SIZE == 0 && vpage.key <= addr < vpage.key + vpage.data - 1
    modifies rbt, rbt.nodes
    ensures rbt.Valid() && Divided(f, Items(rbt.tree)) && fresh(rbt.nodes - old(rbt.nodes))
    ensures old(Idx(rbt.tree, vpage) < |Items(rbt.tree)|) && (res == null <==> addr > old(vpage.key) && rec != E_OK)
    ensures var s, i, w := old(Items(rbt.tree)), old(Idx(rbt.tree, vpage)), old(RecOf(vpage));
            && (res == null ==> Items(rbt.tree) == Splice(s, i, []))
            && (res != null ==>
                  && res in rbt.nodes && res.key == addr && res.data == w.key + w.data - addr
                  && Items(rbt.tree) == Splice(s, i, LeftPiece(w, addr) + [RecOf(res)])
                  && res in Nodes(rbt.tree) && Idx(rbt.tree, res) == i + |LeftPiece(w, addr)|)
            && (forall a :: In(Items(rbt.tree), a) <==> In(s, a) && !(res == null && Holds(w, a)))
  {
    if addr > vpage.key {
      res := SplitFront(rbt, vpage, addr, rec, f);
    } else {
      res := vpage;
      rbt.ItemFields(vpage);
      ghost var s, i, w := Items(rbt.tree), Idx(rbt.tree, vpage), RecOf(vpage);
      SpliceSelf(s, i);
      NoLeftPiece(w, addr);
      rbt.NodeAtFields(i);
    }
  }

  method SplitFront(rbt: Rbt, vpage: Node, addr: int, rec: Err, ghost f: seq<Item>) returns (res: Node?)
    requires rbt.Valid() && Divided(f, Items(rbt.tree)) && vpage in rbt.nodes
    requires addr % PAGE_SIZE == 0 && vpage.key < addr < vpage.key + vpage.data - 1
    modifies rbt, rbt.nodes
    ensures rbt.Valid() && Divided(f, Items(rbt.tree)) && fresh(rbt.nodes - old(rbt.nodes))
    ensures old(Idx(rbt.tree, vpage) < |Items(rbt.tree)|) && (res == null <==> addr > old(vpage.key) && rec != E_OK)
    ensures var s, i, w := old(Items(rbt.tree)), old(Idx(rbt.tree, vpage)), old(RecOf(vpage));
            && (res == null ==> Items(rbt.tree) == Splice(s, i, []))
            && (res != null ==>
                  && res in rbt.nodes && res.key == addr && res.data == w.key + w.data - addr
                  && Items(rbt.tree) == Splice(s, i, LeftPiece(w, addr) + [RecOf(res)])
                  && res in Nodes(rbt.tree) && Idx(rbt.tree, res) == i + |LeftPiece(w, addr)|)
            && (forall a :: In(Items(rbt.tree), a) <==> In(s, a) && !(res == null && Holds(w, a)))
  {
    rbt.ItemFields(vpage);
    ghost var s, i, w := Items(rbt.tree), Idx(rbt.tree, vpage), RecOf(vpage);
    SpliceSelf(s, i);
    hide Rbt.Valid, Items, Divided, In, Splice, LeftPiece, Idx, Nodes, Holds, RemoveAt;
    var err;
    err, res := SliceTree(rbt, vpage, addr, rec, f);
    if err != E_OK {
      return null;
    }
    TwoPieces(w, addr, RecOf(vpage), RecOf(res));
    SpliceAt(s, i, LeftPiece(w, addr), RecOf(res));
    rbt.NodeAtFields(i + 1);
  }

  lemma TwoPieces(w: Item, addr: int, x: Item, y: Item)
    requires addr > w.key && x == Item(w.n, w.key, addr - w.key)
    ensures LeftPiece(w, addr) + [y] == [x, y] && |LeftPiece(w, addr)| == 1
  {
  }

  /** The second cut: res ends at end. */
  method SliceBack(rbt: Rbt, res: Node, end: int, rec: Err, ghost f: seq<Item>) returns (ok: bool, ghost right: Node)
    requires rbt.Valid() && Divided(f, Items(rbt.tree)) && res in rbt.nodes
    requires end % PAGE_SIZE == 0 && res.key < end <= res.key + res.data
    modifies rbt, rbt.nodes
    ensures rbt.Valid() && Divided(f, Items(rbt.tree)) && fresh(rbt.nodes - old(rbt.nodes))
    ensures old(Idx(rbt.tree, res) < |Items(rbt.tree)|) && (ok <==> end == old(res.key + res.data) || rec == E_OK)
    ensures var s, i, w := old(Items(rbt.tree)), old(Idx(rbt.tree, res)), old(RecOf(res));
            && (!ok ==> Items(rbt.tree) == Splice(s, i, []))
            && (ok ==>
                  && res in rbt.nodes && res.key == w.key && res.data == end - w.key
                  && Items(rbt.tree) == Splice(s, i, [Item(res, w.key, end - w.key)] + RightPiece(w, end, right)))
            && (forall a :: In(Items(rbt.tree), a) <==> In(s, a) && !(!ok && Holds(w, a)))
  {
    rbt.ItemFields(res);
    ghost var s, i, w := Items(rbt.tree), Idx(rbt.tree, res), RecOf(res);
    SpliceSelf(s, i);
    hide Rbt.Valid, Items, Divided, In, Splice, RightPiece, Holds, RemoveAt, Idx, Nodes;
    right := res;
    ok := true;
    if end < res.key + res.data {
      var err, vpr := SliceTree(rbt, res, end, rec, f);
      if err != E_OK {
        return false, right;
      }
      right := vpr;
    }
    BackPieces(w, end, right);
  }

  lemma BackPieces(w: Item, end: int, right: Node)
    ensures end == w.key + w.data ==> [w] + RightPiece(w, end, right) == [] + [w] + []
    ensures end < w.key + w.data ==>
              [Item(w.n, w.key, end - w.key)] + RightPiece(w, end, right)
              == [Item(w.n, w.key, end - w.key), Item(right, end, w.key + w.data - end)]
  {
  }

  /** A record is taken out of a tree and, if there is another one, comes back as two. */
  method SliceRecord(rbt: Rbt, vpo: Node, bound: int, rec: Err) returns (err: Err, vpr: Node?)
    requires rbt.Valid() && vpo in rbt.nodes && Idx(rbt.tree, vpo) < |Items(rbt.tree)|
    requires var t := RemoveAt(Items(rbt.tree), Idx(rbt.tree, vpo));
             var t1 := InsertItem(t, Item(vpo, vpo.key, bound - vpo.key));
             SortedKeys(t) && !HasKey(t, vpo.key) && SortedKeys(t1) && !HasKey(t1, bound)
    modifies rbt, rbt.nodes
    ensures rbt.Valid() && err == rec
    ensures var t := RemoveAt(old(Items(rbt.tree)), old(Idx(rbt.tree, vpo)));
            && (rec != E_OK ==> vpr == null && rbt.nodes == old(rbt.nodes) - {vpo} && Items(rbt.tree) == t)
            && (rec == E_OK ==>
                  && vpr != null && fresh(vpr) && rbt.nodes == old(rbt.nodes) + {vpr}
                  && RecOf(vpo) == Item(vpo, old(vpo.key), bound - old(vpo.key))
                  && RecOf(vpr) == Item(vpr, bound, old(vpo.key + vpo.data) - bound)
                  && Items(rbt.tree) == InsertItem(InsertItem(t, RecOf(vpo)), RecOf(vpr)))
  {
    hide Rbt.Valid, InsertItem, Items;
    rbt.Remove(vpo);
    vpr := null;
    if rec != E_OK {
      return rec, vpr;
    }
    vpr := new Node(bound, vpo.key + vpo.data - bound);
    vpo.data := bound - vpo.key;
    var ok := rbt.Add(vpo);
    ok := rbt.Add(vpr);
    err := E_OK;
  }

  /** Where a record goes. */
  lemma {:induction false} InsertPlace(s: seq<Item>, x: Item) returns (k: nat)
    ensures k <= |s| && InsertItem(s, x) == s[..k] + [x] + s[k..]
  {
    if s == [] || x.key < s[0].key {
      k := 0;
    } else {
      k := InsertPlace(s[1..], x);
      k := k + 1;
      assert s[..k] == [s[0]] + s[1..][..k - 1] && s[k..] == s[1..][k - 1..];
    }
  }

  lemma ZeroInserted(t: seq<Item>, x: Item)
    requires x.data == 0
    ensures !Ranges(InsertItem(t, x)) && forall a :: In(InsertItem(t, x), a) <==> In(t, a)
  {
    var k := InsertPlace(t, x);
    var p, q := t[..k], t[k..];
    assert t == p + q && InsertItem(t, x)[k] == x && !RangeOk(x);
    forall a ensures In(InsertItem(t, x), a) <==> In(t, a) {
      InParts(p, x, q, a);
      InConcat(p, q, a);
    }
  }

  lemma HalvesOk(w: Item, x: Item, y: Item)
    requires RangeOk(w) && x.key == w.key && w.key < y.key < w.key + w.data && y.key % PAGE_SIZE == 0
    requires x.data == y.key - x.key && y.data == w.key + w.data - y.key
    ensures RangeOk(x) && RangeOk(y)
  {
  }
}
