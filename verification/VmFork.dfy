/** vm_fork: an allocator with copies of another one's ranges (kernel/memory/vm.c). */
module VmFork {
  import opened RbtTree
  import opened RbtBalance
  import opened RbtAugment
  import opened RbtHeap
  import opened VmRanges
  import opened Vm

  /** t holds copies of the first k records of s, in nodes of its own. */
  predicate Copies(s: seq<Item>, t: seq<Item>, k: nat) {
    |t| == k <= |s| && forall i :: 0 <= i < k ==> t[i].key == s[i].key && t[i].data == s[i].data
  }

  lemma CopyAppends(s: seq<Item>, t: seq<Item>, k: nat, x: Item)
    requires Copies(s, t, k) && k < |s| && SortedKeys(s) && x.key == s[k].key && x.data == s[k].data
    ensures SortedKeys(t) && !HasKey(t, x.key) && InsertItem(t, x) == t + [x] && Copies(s, t + [x], k + 1)
  {
    assert KeysBelow(t, x.key);
    InsertItemSplit(t, x, []);
    assert t + [] == t && t + [x] + [] == t + [x];
  }

  /** The first loop: the allocated ranges, in order. recs is how many records can be allocated. */
  method CopyAlloced(src: Rbt, dst: Rbt, recs: nat) returns (left: nat, ok: bool)
    requires src != dst && src.Valid() && dst.Valid() && src.nodes !! dst.nodes && Items(dst.tree) == []
    requires SortedKeys(Items(src.tree))
    modifies dst, dst.nodes
    ensures dst.Valid() && fresh(dst.nodes - old(dst.nodes))
    ensures ok == (recs >= |Items(src.tree)|) && (ok ==> left == recs - |Items(src.tree)|)
    ensures Copies(Items(src.tree), Items(dst.tree), if ok then |Items(src.tree)| else recs)
  {
    hide Rbt.Valid, Items;
    left := recs;
    ghost var k := 0;
    var p := src.First();
    while p != null
      invariant dst.Valid() && fresh(dst.nodes - old(dst.nodes))
      invariant k <= |Items(src.tree)| && p == NodeAt(Items(src.tree), k) && left + k == recs
      invariant Copies(Items(src.tree), Items(dst.tree), k)
      decreases |Items(src.tree)| - k
    {
      if left == 0 {
        return left, false;
      }
      src.NodeAtFields(k);
      var vp := new Node(p.key, p.data);
      CopyAppends(Items(src.tree), Items(dst.tree), k, Item(vp, vp.key, vp.data));
      var added := dst.Add(vp);
      left := left - 1;
      p := src.Next(p);
      k := k + 1;
    }
    ok := true;
  }

  /** t covers the addresses of the first k ranges of s with ranges of which none begins where another ends. */
  ghost predicate Covers(s: seq<Item>, t: seq<Item>, k: nat) {
    k <= |s| && Ranges(t) && NoneAdjacent(t) && forall a :: In(t, a) <==> In(s[..k], a)
  }

  predicate NoneAdjacent(t: seq<Item>) { forall j :: 0 <= j < |t| ==> !Adjacent(t, j) }

  /** A range behind all others takes in the ones it is adjacent to. */
  lemma MergeLast(t: seq<Item>, x: Item, f': seq<Item>)
    requires KeysBelow(t, x.key) && NoneAdjacent(t) && Merged(t, x, f')
    ensures NoneAdjacent(f')
  {
    hide InsertItem, Merge, NoneAdjacent, Adjacent, GapAfter;
    MergedLast(t, x, f');
    var s := t + [x];
    var lo, hi := MergeExactly(s, |t|);
    JoinedLast(t, x, lo, hi);
    FrontApart(t, lo, f');
  }

  lemma MergedLast(t: seq<Item>, x: Item, f': seq<Item>)
    requires KeysBelow(t, x.key) && Merged(t, x, f')
    ensures f' == Merge(t + [x], |t|)
  {
    hide InsertItem, Merge;
    InsertItemSplit(t, x, []);
    assert t + [] == t && t + [x] + [] == t + [x];
    var i: nat :| i < |t + [x]| && (t + [x])[i] == x && f' == Merge(t + [x], i);
    assert i == |t|;
  }

  lemma JoinedLast(t: seq<Item>, x: Item, lo: nat, hi: nat)
    requires MaximalRun(t + [x], lo, |t|, hi)
    ensures hi == |t| && var f := Joined(t + [x], lo, hi, x.n); |f| == lo + 1 && f == t[..lo] + [f[lo]]
  {
  }

  lemma FrontApart(t: seq<Item>, lo: nat, f': seq<Item>)
    requires NoneAdjacent(t) && lo <= |t| && |f'| == lo + 1 && f' == t[..lo] + [f'[lo]] && !Adjacent(f', lo - 1)
    ensures NoneAdjacent(f')
  {
    forall j | 0 <= j < |f'| ensures !Adjacent(f', j) {
      if j < lo - 1 { assert f'[j] == t[j] && f'[j + 1] == t[j + 1] && !Adjacent(t, j); }
    }
  }

  lemma KeysBehind(s: seq<Item>, t: seq<Item>, k: nat)
    requires Ranges(s) && Covers(s, t, k) && k < |s|
    ensures KeysBelow(t, s[k].key)
  {
    forall j | 0 <= j < |t| ensures t[j].key < s[k].key {
      assert RangeOk(t[j]) && Holds(t[j], t[j].key);
      assert In(s[..k], t[j].key);
      var i :| 0 <= i < k && Holds(s[..k][i], t[j].key);
      assert s[i].key + s[i].data <= s[k].key;
    }
  }

  /** Such ranges are determined by the addresses they cover. */
  lemma {:induction false} SameRanges(s: seq<Item>, t: seq<Item>)
    requires Ranges(s) && Ranges(t) && NoneAdjacent(s) && NoneAdjacent(t) && forall a :: In(s, a) <==> In(t, a)
    ensures Copies(s, t, |s|)
    decreases |s|
  {
    if s == [] || t == [] {
      if s != [] { FirstAddress(s); }
      if t != [] { FirstAddress(t); }
    } else {
      FirstRange(s, t);
      FirstRange(t, s);
      RestCovers(s);
      RestCovers(t);
      var s', t' := s[1..], t[1..];
      assert forall j :: 0 <= j < |s'| ==> (Adjacent(s', j) <==> Adjacent(s, j + 1));
      assert forall j :: 0 <= j < |t'| ==> (Adjacent(t', j) <==> Adjacent(t, j + 1));
      SameRanges(s', t');
    }
  }

  /** The first range of s begins no later, and ends no later, than that of t. */
  lemma FirstRange(s: seq<Item>, t: seq<Item>)
    requires Ranges(s) && Ranges(t) && NoneAdjacent(t) && s != [] && t != [] && forall a :: In(s, a) <==> In(t, a)
    ensures s[0].key <= t[0].key
    ensures s[0].key == t[0].key ==> s[0].data <= t[0].data
  {
    FirstAddress(t);
    FirstEnd(t);
    var i :| 0 <= i < |s| && Holds(s[i], t[0].key);
    assert s[0].key == t[0].key && s[0].data > t[0].data ==> Holds(s[0], t[0].key + t[0].data);
  }

  lemma FirstAddress(s: seq<Item>)
    requires Ranges(s) && s != []
    ensures In(s, s[0].key)
  {
    assert RangeOk(s[0]) && Holds(s[0], s[0].key);
  }

  lemma FirstEnd(t: seq<Item>)
    requires Ranges(t) && NoneAdjacent(t) && t != []
    ensures RangeOk(t[0]) && !In(t, t[0].key + t[0].data)
  {
    assert !Adjacent(t, 0);
  }

  lemma RestCovers(s: seq<Item>)
    requires Ranges(s) && s != []
    ensures Ranges(s[1..]) && forall a :: In(s[1..], a) <==> In(s, a) && !Holds(s[0], a)
  {
    assert s == [] + [s[0]] + s[1..];
    forall a ensures In(s[1..], a) <==> In(s, a) && !Holds(s[0], a) {
      InParts([], s[0], s[1..], a);
      if In(s[1..], a) {
        var i :| 0 <= i < |s[1..]| && Holds(s[1..][i], a);
        assert s[0].key + s[0].data <= s[i + 1].key;
      }
    }
    forall i | 0 <= i < |s[1..]| ensures RangeOk(s[1..][i]) { assert RangeOk(s[i + 1]); }
  }

  lemma NotBefore(s: seq<Item>, k: nat, a: int)
    requires Ranges(s) && k < |s| && Holds(s[k], a)
    ensures !In(s[..k], a)
  {
    assert forall i :: 0 <= i < k ==> s[..k][i] == s[i];
  }

  lemma NextIsClear(s: seq<Item>, t: seq<Item>, k: nat, x: Item)
    requires Ranges(s) && Covers(s, t, k) && k < |s| && x.key == s[k].key && x.data == s[k].data
    ensures RangeOk(x) && Clear(t, x)
  {
    assert RangeOk(s[k]);
    forall a | Holds(x, a) ensures !In(t, a) { NotBefore(s, k, a); }
    ClearIn(t, x);
  }

  lemma NothingCovered(s: seq<Item>, t: seq<Item>)
    requires t == []
    ensures Covers(s, t, 0)
  {
  }

  lemma CoversMore(s: seq<Item>, t: seq<Item>, t': seq<Item>, k: nat, x: Item)
    requires Covers(s, t, k) && k < |s| && x.key == s[k].key && x.data == s[k].data && Ranges(t') && NoneAdjacent(t')
    requires forall a :: In(t', a) <==> In(t, a) || Holds(x, a)
    ensures Covers(s, t', k + 1)
  {
    forall a ensures In(t', a) <==> In(s[..k + 1], a) {
      assert s[..k + 1] == s[..k] + [s[k]] + [];
      InParts(s[..k], s[k], [], a);
    }
  }

  /** One turn of the second loop: a copy of record k joins the free ranges. */
  method CopyRange(ghost s: seq<Item>, ghost k: nat, key: int, data: int, dst: VpageAlct)
    requires Ranges(s) && k < |s| && s[k].key == key && s[k].data == data
    requires dst.free.Valid() && Good(MX, dst.free.tree) && Covers(s, Items(dst.free.tree), k)
    modifies dst.free, dst.free.nodes
    ensures dst.free.Valid() && Good(MX, dst.free.tree) && Covers(s, Items(dst.free.tree), k + 1)
    ensures fresh(dst.free.nodes - old(dst.free.nodes))
  {
    hide Rbt.Valid, Items, Good, Merge, InsertItem, Fits, NoneAdjacent;
    var vp := new Node(key, data);
    ghost var t, x := Items(dst.free.tree), RecOf(vp);
    NextIsClear(s, t, k, x);
    KeysBehind(s, t, k);
    var err := dst.InsertFree(vp);
    MergeLast(t, x, Items(dst.free.tree));
    CoversMore(s, t, Items(dst.free.tree), k, x);
  }

  /** The second loop: the free ranges. They may be merged on the way, but cover the same addresses. */
  method CopyFree(src: Rbt, dst: VpageAlct, recs: nat) returns (ok: bool)
    requires src.Valid() && Ranges(Items(src.tree)) && src != dst.free && src.nodes !! dst.free.nodes
    requires dst.free.Valid() && Good(MX, dst.free.tree) && Items(dst.free.tree) == []
    modifies dst.free, dst.free.nodes
    ensures dst.free.Valid() && Good(MX, dst.free.tree) && fresh(dst.free.nodes - old(dst.free.nodes))
    ensures ok == (recs >= |Items(src.tree)|)
    ensures Covers(Items(src.tree), Items(dst.free.tree), if ok then |Items(src.tree)| else recs)
  {
    NothingCovered(Items(src.tree), Items(dst.free.tree));
    hide Rbt.Valid, Items, Good, Covers, Ranges;
    var left: nat := recs;
    ghost var k := 0;
    var p := src.First();
    while p != null
      invariant dst.free.Valid() && Good(MX, dst.free.tree) && fresh(dst.free.nodes - old(dst.free.nodes))
      invariant k <= |Items(src.tree)| && p == NodeAt(Items(src.tree), k) && left + k == recs
      invariant Covers(Items(src.tree), Items(dst.free.tree), k)
      decreases |Items(src.tree)| - k
    {
      if left == 0 {
        return false;
      }
      left := left - 1;
      p := CopyNext(src, dst, p, k);
      k := k + 1;
    }
    ok := true;
  }

  /** The record at place k is copied and the next one looked up. */
  method CopyNext(src: Rbt, dst: VpageAlct, p: Node, ghost k: nat) returns (next: Node?)
    requires src.Valid() && Ranges(Items(src.tree)) && src != dst.free && src.nodes !! dst.free.nodes
    requires dst.free.Valid() && Good(MX, dst.free.tree) && Covers(Items(src.tree), Items(dst.free.tree), k)
    requires k < |Items(src.tree)| && p == Items(src.tree)[k].n
    modifies dst.free, dst.free.nodes
    ensures dst.free.Valid() && Good(MX, dst.free.tree) && Covers(Items(src.tree), Items(dst.free.tree), k + 1)
    ensures fresh(dst.free.nodes - old(dst.free.nodes)) && next == NodeAt(Items(src.tree), k + 1)
  {
    hide Rbt.Valid, Items, Good, Covers, Ranges;
    src.NodeAtFields(k);
    CopyRange(Items(src.tree), k, p.key, p.data, dst);
    next := src.Next(p);
  }

  lemma CopiesRanges(s: seq<Item>, t: seq<Item>)
    requires Ranges(s) && Copies(s, t, |s|)
    ensures Ranges(t) && forall a :: In(t, a) <==> In(s, a)
  {
    forall i | 0 <= i < |t| ensures RangeOk(t[i]) { assert RangeOk(s[i]); }
    forall a ensures In(t, a) <==> In(s, a) {
      if In(s, a) {
        var i :| 0 <= i < |s| && Holds(s[i], a);
        assert Holds(t[i], a);
      }
      if In(t, a) {
        var i :| 0 <= i < |t| && Holds(t[i], a);
        assert Holds(s[i], a);
      }
    }
  }

  lemma ForkDivided(f: seq<Item>, t: seq<Item>, f': seq<Item>, t': seq<Item>)
    requires Divided(f, t) && Covers(f, f', |f|) && Copies(t, t', |t|)
    ensures Divided(f', t') && (forall a :: In(f', a) <==> In(f, a)) && forall a :: In(t', a) <==> In(t, a)
  {
    CopiesRanges(t, t');
    assert f[..|f|] == f;
    SeparateIn(f, t);
    SeparateIn(f', t');
  }

  /** Both loops, into an allocator without ranges. */
  method CopyRanges(from: VpageAlct, to: VpageAlct, recs: nat, code: Err) returns (err: Err)
    requires code != E_OK && from.Valid() && to.Trees() && Items(to.free.tree) == [] && Items(to.alloced.tree) == []
    requires {from.free, from.alloced} !! {to.free, to.alloced} && to.free.nodes == {} && to.alloced.nodes == {}
    modifies to.free, to.alloced
    ensures err == if recs >= |Items(from.alloced.tree)| + |Items(from.free.tree)| then E_OK else code
    ensures to.free.Valid() && to.alloced.Valid() && Good(MX, to.free.tree)
    ensures fresh(to.free.nodes) && fresh(to.alloced.nodes) && to.free.nodes !! to.alloced.nodes
    ensures err == E_OK ==> Copies(Items(from.alloced.tree), Items(to.alloced.tree), |Items(from.alloced.tree)|)
    ensures err == E_OK ==> Covers(Items(from.free.tree), Items(to.free.tree), |Items(from.free.tree)|)
  {
    RangesSorted(Items(from.alloced.tree));
    assert Ranges(Items(from.free.tree));
    hide Rbt.Valid, Items, Good, Divided, Ranges, Copies, Covers, SortedKeys;
    var left, ok := CopyAlloced(from.alloced, to.alloced, recs);
    if !ok {
      return code;
    }
    ok := CopyFree(from.free, to, left);
    err := if ok then E_OK else code;
  }

  /** vm_fork: the copy has the same allocated ranges and the same free addresses, and the original is
      as before. It fails exactly when the records do not suffice, with the code of the record allocator. */
  method Fork(from: VpageAlct, recs: nat, code: Err) returns (err: Err, to: VpageAlct)
    requires from.Valid() && code != E_OK
    ensures err == if recs >= |Items(from.alloced.tree)| + |Items(from.free.tree)| then E_OK else code
    ensures err == E_OK ==> to.Valid()
    ensures err == E_OK ==> Copies(Items(from.alloced.tree), Items(to.alloced.tree), |Items(from.alloced.tree)|)
    ensures err == E_OK ==> forall a :: In(Items(to.free.tree), a) <==> In(Items(from.free.tree), a)
    ensures err == E_OK ==> NoneAdjacent(Items(to.free.tree))
    ensures err == E_OK ==> forall a :: to.Owns(a) <==> from.Owns(a)
  {
    to := new VpageAlct();
    assert Items(to.free.tree) == [] && Items(to.alloced.tree) == [];
    hide Rbt.Valid, Items, Good, Divided, Copies, Covers, In;
    err := CopyRanges(from, to, recs, code);
    if err == E_OK {
      ForkDivided(Items(from.free.tree), Items(from.alloced.tree), Items(to.free.tree), Items(to.alloced.tree));
    }
  }
}
