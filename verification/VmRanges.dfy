/** Address ranges as the allocator keeps them: sequences of records ordered by address, and the
    merging of neighbours (kernel/memory/vm.c: vm_merge). */
module VmRanges {
  import opened RbtTree
  import opened RbtBalance
  import opened RbtAugment

  const PAGE_SIZE: int := 4096

  /** Ranges stay below the last page of the address space, so no end or size wraps. */
  const ADDR_LIMIT: int := 0xFFFF_F000

  /** The record's key is the start address and its payload the size. */
  predicate Holds(x: Item, a: int) { x.key <= a < x.key + x.data }

  predicate RangeOk(x: Item) {
    && x.data > 0 && x.key >= 0 && x.key + x.data <= ADDR_LIMIT
    && x.key % PAGE_SIZE == 0 && x.data % PAGE_SIZE == 0
  }

  /** Some record of s contains address a. */
  ghost predicate In(s: seq<Item>, a: int) { exists i :: 0 <= i < |s| && Holds(s[i], a) }

  /** Page-aligned, non-empty ranges in ascending order that do not overlap. */
  predicate Ranges(s: seq<Item>) {
    && (forall i :: 0 <= i < |s| ==> RangeOk(s[i]))
    && (forall i, j :: 0 <= i < j < |s| ==> s[i].key + s[i].data <= s[j].key)
  }

  lemma RangesSorted(s: seq<Item>)
    requires Ranges(s)
    ensures SortedKeys(s)
  {
  }

  lemma InConcat(s: seq<Item>, t: seq<Item>, a: int)
    ensures In(s + t, a) <==> In(s, a) || In(t, a)
  {
    if In(s, a) {
      var i :| 0 <= i < |s| && Holds(s[i], a);
      assert (s + t)[i] == s[i];
    }
    if In(t, a) {
      var i :| 0 <= i < |t| && Holds(t[i], a);
      assert (s + t)[|s| + i] == t[i];
    }
  }

  lemma InParts(p: seq<Item>, x: Item, q: seq<Item>, a: int)
    ensures In(p + [x] + q, a) <==> In(p, a) || Holds(x, a) || In(q, a)
  {
    InConcat(p + [x], q, a);
    InConcat(p, [x], a);
    if Holds(x, a) { assert Holds([x][0], a); }
  }

  lemma RangesParts(p: seq<Item>, x: Item, q: seq<Item>)
    ensures Ranges(p + [x] + q) <==>
              && Ranges(p) && Ranges(q) && RangeOk(x)
              && (forall i :: 0 <= i < |p| ==> p[i].key + p[i].data <= x.key)
              && (forall j :: 0 <= j < |q| ==> x.key + x.data <= q[j].key)
              && (forall i, j :: 0 <= i < |p| && 0 <= j < |q| ==> p[i].key + p[i].data <= q[j].key)
  {
    var s := p + [x] + q;
    assert forall i :: 0 <= i < |p| ==> s[i] == p[i];
    assert s[|p|] == x;
    assert forall j :: 0 <= j < |q| ==> s[|p| + 1 + j] == q[j];
    if Ranges(s) {
      forall i, j | 0 <= i < j < |q| ensures q[i].key + q[i].data <= q[j].key {
        assert s[|p| + 1 + i].key + s[|p| + 1 + i].data <= s[|p| + 1 + j].key;
      }
      forall i | 0 <= i < |q| ensures RangeOk(q[i]) && x.key + x.data <= q[i].key {
        assert RangeOk(s[|p| + 1 + i]);
        assert s[|p|].key + s[|p|].data <= s[|p| + 1 + i].key;
      }
      assert RangeOk(s[|p|]);
    }
  }

  lemma RangesSub(p: seq<Item>, s: seq<Item>, q: seq<Item>)
    requires Ranges(p + s + q)
    ensures Ranges(s)
  {
    var w := p + s + q;
    forall i | 0 <= i < |s| ensures RangeOk(s[i]) {
      assert s[i] == w[|p| + i];
    }
    forall i, j | 0 <= i < j < |s| ensures s[i].key + s[i].data <= s[j].key {
      assert s[i] == w[|p| + i] && s[j] == w[|p| + j];
    }
  }

  // ----- joining neighbours -----

  predicate Adjacent(s: seq<Item>, i: int) {
    0 <= i && i + 1 < |s| && s[i].key + s[i].data == s[i + 1].key
  }

  /** Records i and i + 1 become one, kept by node n. */
  function Fuse(s: seq<Item>, i: nat, n: Node): seq<Item>
    requires i + 1 < |s|
  {
    s[..i] + [Item(n, s[i].key, s[i].data + s[i + 1].data)] + s[i + 2..]
  }

  /** The records around a pair of neighbours. */
  lemma PairParts(s: seq<Item>, i: nat)
    requires i + 1 < |s|
    ensures s == s[..i] + [s[i]] + ([s[i + 1]] + s[i + 2..])
    ensures [s[i + 1]] + s[i + 2..] == [] + [s[i + 1]] + s[i + 2..]
  {
  }

  lemma FuseRanges(s: seq<Item>, i: nat, n: Node)
    requires Ranges(s) && Adjacent(s, i)
    ensures Ranges(Fuse(s, i, n))
  {
    var f := Fuse(s, i, n);
    forall k | 0 <= k < |f| ensures RangeOk(f[k]) {
      assert k != i ==> f[k] == s[if k < i then k else k + 1];
      assert RangeOk(s[i]) && RangeOk(s[i + 1]);
    }
    forall k, j | 0 <= k < j < |f| ensures f[k].key + f[k].data <= f[j].key {
      var k' := if k < i then k else k + 1;
      var j' := if j <= i then j else j + 1;
      assert f[k].key + f[k].data == s[k'].key + s[k'].data && f[j].key == s[j'].key;
    }
  }

  /** Joining two neighbours moves no address in or out. */
  lemma FuseKeeps(s: seq<Item>, i: nat, n: Node)
    requires Ranges(s) && Adjacent(s, i)
    ensures Ranges(Fuse(s, i, n))
    ensures forall a :: In(Fuse(s, i, n), a) <==> In(s, a)
  {
    FuseRanges(s, i, n);
    var p, x, y, q := s[..i], s[i], s[i + 1], s[i + 2..];
    var z := Item(n, x.key, x.data + y.data);
    assert RangeOk(x) && RangeOk(y);
    PairParts(s, i);
    forall a ensures In(Fuse(s, i, n), a) <==> In(s, a) {
      InParts(p, x, [y] + q, a);
      InParts([], y, q, a);
      InParts(p, z, q, a);
      assert Holds(z, a) <==> Holds(x, a) || Holds(y, a);
    }
  }

  /** The first loop of vm_merge: take in the following records while they are adjacent. */
  function MergeRight(s: seq<Item>, i: nat): (r: seq<Item>)
    requires i < |s|
    ensures i < |r| <= |s| && r[..i] == s[..i] && r[i].n == s[i].n && r[i].key == s[i].key
    ensures !Adjacent(r, i)
    decreases |s|
  {
    if Adjacent(s, i) then MergeRight(Fuse(s, i, s[i].n), i) else s
  }

  /** The second loop: take in the preceding records while they are adjacent. */
  function MergeLeft(s: seq<Item>, i: nat): (r: seq<Item>)
    requires i < |s|
    decreases |s|
  {
    if Adjacent(s, i - 1) then MergeLeft(Fuse(s, i - 1, s[i].n), i - 1) else s
  }

  /** vm_merge of record i: the second loop is reached only when the first ran out of records. */
  function Merge(s: seq<Item>, i: nat): seq<Item>
    requires i < |s|
  {
    var r := MergeRight(s, i);
    if i + 1 == |r| then MergeLeft(r, i) else r
  }

  lemma {:induction false} MergeRightKeeps(s: seq<Item>, i: nat)
    requires Ranges(s) && i < |s|
    ensures Ranges(MergeRight(s, i))
    ensures forall a :: In(MergeRight(s, i), a) <==> In(s, a)
    decreases |s|
  {
    if Adjacent(s, i) {
      FuseKeeps(s, i, s[i].n);
      MergeRightKeeps(Fuse(s, i, s[i].n), i);
    }
  }

  lemma {:induction false} MergeLeftKeeps(s: seq<Item>, i: nat)
    requires Ranges(s) && i < |s|
    ensures Ranges(MergeLeft(s, i))
    ensures forall a :: In(MergeLeft(s, i), a) <==> In(s, a)
    decreases |s|
  {
    if Adjacent(s, i - 1) {
      FuseKeeps(s, i - 1, s[i].n);
      MergeLeftKeeps(Fuse(s, i - 1, s[i].n), i - 1);
    }
  }

  /** Merging keeps the ranges apart and the addresses covered. */
  lemma MergeKeeps(s: seq<Item>, i: nat)
    requires Ranges(s) && i < |s|
    ensures Ranges(Merge(s, i))
    ensures forall a :: In(Merge(s, i), a) <==> In(s, a)
  {
    MergeRightKeeps(s, i);
    if i + 1 == |MergeRight(s, i)| { MergeLeftKeeps(MergeRight(s, i), i); }
  }

  /** Some record from i on is not adjacent to the one after it. */
  predicate GapAfter(s: seq<Item>, i: nat) { exists j :: i <= j && j + 1 < |s| && !Adjacent(s, j) }

  /** Fusing a pair keeps which later neighbours are adjacent. */
  lemma FuseGap(s: seq<Item>, i: nat)
    requires Adjacent(s, i)
    ensures GapAfter(Fuse(s, i, s[i].n), i) <==> GapAfter(s, i)
  {
    var f := Fuse(s, i, s[i].n);
    assert forall j :: i <= j && j + 1 < |f| ==> (Adjacent(f, j) <==> Adjacent(s, j + 1));
    if GapAfter(s, i) {
      var j :| i <= j && j + 1 < |s| && !Adjacent(s, j);
      assert !Adjacent(f, j - 1);
    }
    if GapAfter(f, i) {
      var j :| i <= j && j + 1 < |f| && !Adjacent(f, j);
      assert !Adjacent(s, j + 1);
    }
  }

  /** The first loop runs out of records exactly when all of them are adjacent. */
  lemma {:induction false} MergeRightStops(s: seq<Item>, i: nat)
    requires i < |s|
    ensures i + 1 < |MergeRight(s, i)| <==> GapAfter(s, i)
    decreases |s|
  {
    if Adjacent(s, i) {
      FuseGap(s, i);
      MergeRightStops(Fuse(s, i, s[i].n), i);
    } else if i + 1 < |s| {
      assert !Adjacent(s, i);
    }
  }

  /** Records lo to hi are the longest run of neighbours, each beginning where the one before it ends, around i. */
  predicate MaximalRun(s: seq<Item>, lo: int, i: int, hi: int) {
    && 0 <= lo <= i <= hi < |s| && (forall k :: lo <= k < hi ==> Adjacent(s, k))
    && !Adjacent(s, lo - 1) && !Adjacent(s, hi)
  }

  /** One record from the start of record a to the end of record b in place of them and those between. */
  function Joined(s: seq<Item>, a: int, b: int, n: Node): seq<Item>
    requires 0 <= a <= b < |s|
  {
    s[..a] + [Item(n, s[a].key, s[b].key + s[b].data - s[a].key)] + s[b + 1..]
  }

  lemma {:induction false} MergeRightRun(s: seq<Item>, i: nat, hi: nat)
    requires i <= hi < |s| && (forall k :: i <= k < hi ==> Adjacent(s, k)) && !Adjacent(s, hi)
    ensures MergeRight(s, i) == Joined(s, i, hi, s[i].n)
    decreases hi - i
  {
    if i < hi {
      var f := Fuse(s, i, s[i].n);
      assert Adjacent(s, i);
      forall k | i <= k < hi ensures Adjacent(f, k) <==> Adjacent(s, k + 1) {
        assert k > i ==> f[k] == s[k + 1];
        assert k + 1 < |f| ==> f[k + 1] == s[k + 2];
      }
      MergeRightRun(f, i, hi - 1);
      assert Joined(f, i, hi - 1, s[i].n) == Joined(s, i, hi, s[i].n);
    } else {
      assert s == Joined(s, i, i, s[i].n);
    }
  }

  lemma {:induction false} MergeLeftRun(s: seq<Item>, i: nat, lo: nat)
    requires lo <= i < |s| && (forall k :: lo <= k < i ==> Adjacent(s, k)) && !Adjacent(s, lo - 1)
    ensures MergeLeft(s, i) == Joined(s, lo, i, s[i].n)
    decreases i - lo
  {
    if lo < i {
      var f := Fuse(s, i - 1, s[i].n);
      assert Adjacent(s, i - 1);
      forall k | 0 <= k < i - 1 ensures Adjacent(f, k) <==> Adjacent(s, k) {
        assert f[k] == s[k] && f[k + 1].key == s[k + 1].key;
      }
      MergeLeftRun(f, i - 1, lo);
      assert Joined(f, lo, i - 1, s[i].n) == Joined(s, lo, i, s[i].n);
    } else {
      assert s == Joined(s, i, i, s[i].n);
    }
  }

  lemma {:induction false} RunUp(s: seq<Item>, i: nat) returns (hi: nat)
    requires i < |s|
    ensures i <= hi < |s| && (forall k :: i <= k < hi ==> Adjacent(s, k)) && !Adjacent(s, hi)
    decreases |s| - i
  {
    hi := i;
    if Adjacent(s, i) { hi := RunUp(s, i + 1); }
  }

  lemma {:induction false} RunDown(s: seq<Item>, i: nat) returns (lo: nat)
    requires i < |s|
    ensures lo <= i && (forall k :: lo <= k < i ==> Adjacent(s, k)) && !Adjacent(s, lo - 1)
  {
    lo := i;
    if Adjacent(s, i - 1) { lo := RunDown(s, i - 1); }
  }

  /** What vm_merge does, for every list: where the run of neighbours around i reaches the last record, all of it
      becomes one record with no adjacent neighbour; otherwise its part from i on does. The other records stay. */
  lemma MergeExactly(s: seq<Item>, i: nat) returns (lo: nat, hi: nat)
    requires i < |s|
    ensures MaximalRun(s, lo, i, hi) && (hi + 1 == |s| <==> !GapAfter(s, i))
    ensures Merge(s, i) == Joined(s, if hi + 1 == |s| then lo else i, hi, s[i].n)
    ensures hi + 1 == |s| ==> !Adjacent(Merge(s, i), lo - 1) && !Adjacent(Merge(s, i), lo)
  {
    hi := RunUp(s, i);
    lo := RunDown(s, i);
    MergeRightRun(s, i, hi);
    MergeRightStops(s, i);
    var r := MergeRight(s, i);
    if i + 1 == |r| {
      forall k | 0 <= k < i ensures Adjacent(r, k) <==> Adjacent(s, k) {
        assert r[k] == s[k] && r[k + 1].key == s[k + 1].key;
      }
      MergeLeftRun(r, i, lo);
      assert Joined(r, lo, i, s[i].n) == Joined(s, lo, hi, s[i].n);
    }
  }

  /** Exactly when vm_merge leaves an adjacent earlier range unmerged: when some later range does not
      begin where the one before it ends. */
  lemma MergeLeavesLeft(s: seq<Item>, i: nat)
    requires Ranges(s) && i < |s| && Adjacent(s, i - 1)
    ensures Adjacent(Merge(s, i), i - 1) && Merge(s, i)[i - 1] == s[i - 1] <==> GapAfter(s, i)
  {
    var r := MergeRight(s, i);
    MergeRightStops(s, i);
    assert r[i - 1] == r[..i][i - 1] == s[..i][i - 1] == s[i - 1];
    if i + 1 == |r| {
      assert Adjacent(r, i - 1);
      MergeLeftShrinks(r, i);
    }
  }

  lemma {:induction false} MergeLeftShrinks(s: seq<Item>, i: nat)
    requires i < |s| && Adjacent(s, i - 1)
    ensures |MergeLeft(s, i)| < |s|
    decreases |s|
  {
    var f := Fuse(s, i - 1, s[i].n);
    if Adjacent(f, i - 2) { MergeLeftShrinks(f, i - 1); }
  }

  // ----- one range more, one range fewer -----

  predicate Overlap(x: Item, y: Item) { x.key < y.key + y.data && y.key < x.key + x.data }

  /** x overlaps no record of s. */
  predicate Clear(s: seq<Item>, x: Item) { forall i :: 0 <= i < |s| ==> !Overlap(s[i], x) }

  /** No record of s overlaps one of t. */
  predicate Separate(s: seq<Item>, t: seq<Item>) { forall i :: 0 <= i < |s| ==> Clear(t, s[i]) }

  /** Two lists of ranges, each in order and apart from the other. */
  predicate Divided(s: seq<Item>, t: seq<Item>) { Ranges(s) && Ranges(t) && Separate(s, t) }

  predicate AllOk(s: seq<Item>) { forall i :: 0 <= i < |s| ==> RangeOk(s[i]) }

  /** Not overlapping is having no address in common. */
  lemma ClearIn(s: seq<Item>, x: Item)
    requires AllOk(s) && RangeOk(x)
    ensures Clear(s, x) <==> forall a :: Holds(x, a) ==> !In(s, a)
  {
    if forall a :: Holds(x, a) ==> !In(s, a) {
      forall i | 0 <= i < |s| ensures !Overlap(s[i], x) {
        if Overlap(s[i], x) {
          var a := if s[i].key >= x.key then s[i].key else x.key;
          assert Holds(x, a) && Holds(s[i], a);
          assert In(s, a);
        }
      }
    }
  }

  lemma SeparateIn(s: seq<Item>, t: seq<Item>)
    requires AllOk(s) && AllOk(t)
    ensures Separate(s, t) <==> forall a :: In(s, a) ==> !In(t, a)
  {
    forall i | 0 <= i < |s| ensures Clear(t, s[i]) <==> forall a :: Holds(s[i], a) ==> !In(t, a) {
      assert RangeOk(s[i]);
      ClearIn(t, s[i]);
    }
    if Separate(s, t) {
      forall a | In(s, a) ensures !In(t, a) {
        var i :| 0 <= i < |s| && Holds(s[i], a);
        assert Clear(t, s[i]);
      }
    }
    if forall a :: In(s, a) ==> !In(t, a) {
      forall i | 0 <= i < |s| ensures Clear(t, s[i]) {
        forall a | Holds(s[i], a) ensures !In(t, a) { assert In(s, a); }
      }
    }
  }

  /** The place of a new start address. */
  lemma {:induction false} Gap(s: seq<Item>, x: Item) returns (k: nat)
    requires Ranges(s) && RangeOk(x) && Clear(s, x)
    ensures k <= |s|
    ensures forall i :: 0 <= i < k ==> s[i].key < x.key && s[i].key + s[i].data <= x.key
    ensures forall i :: k <= i < |s| ==> x.key < s[i].key && x.key + x.data <= s[i].key
  {
    k := 0;
    while k < |s| && s[k].key < x.key
      invariant k <= |s|
      invariant forall i :: 0 <= i < k ==> s[i].key < x.key
    {
      k := k + 1;
    }
    forall i | 0 <= i < |s| ensures if i < k then s[i].key + s[i].data <= x.key else x.key < s[i].key && x.key + x.data <= s[i].key {
      assert RangeOk(s[i]) && !Overlap(s[i], x);
      if i >= k { assert s[k].key <= s[i].key && RangeOk(s[k]) && !Overlap(s[k], x); }
    }
  }

  /** A range clear of the others has a new start address and finds its place among them. */
  lemma InsertRange(s: seq<Item>, x: Item)
    requires Ranges(s) && RangeOk(x) && Clear(s, x)
    ensures !HasKey(s, x.key) && Ranges(InsertItem(s, x))
    ensures forall a :: In(InsertItem(s, x), a) <==> In(s, a) || Holds(x, a)
  {
    var k := Gap(s, x);
    var p, q := s[..k], s[k..];
    assert s == p + q;
    InsertItemSplit(p, x, q);
    GapRanges(s, k, x);
    forall a ensures In(InsertItem(s, x), a) <==> In(s, a) || Holds(x, a) {
      InParts(p, x, q, a);
      InConcat(p, q, a);
    }
  }

  lemma GapRanges(s: seq<Item>, k: nat, x: Item)
    requires Ranges(s) && RangeOk(x) && k <= |s|
    requires forall i :: 0 <= i < k ==> s[i].key + s[i].data <= x.key
    requires forall i :: k <= i < |s| ==> x.key + x.data <= s[i].key
    ensures Ranges(s[..k] + [x] + s[k..])
  {
    var t := s[..k] + [x] + s[k..];
    forall i | 0 <= i < |t| ensures RangeOk(t[i]) {
      assert i != k ==> t[i] == s[if i < k then i else i - 1];
    }
    forall i, j | 0 <= i < j < |t| ensures t[i].key + t[i].data <= t[j].key {
      assert i != k ==> t[i] == s[if i < k then i else i - 1];
      assert j != k ==> t[j] == s[if j < k then j else j - 1];
    }
  }

  /** Taking a record out takes out its addresses. */
  lemma RemoveRange(s: seq<Item>, i: nat)
    requires Ranges(s) && i < |s|
    ensures Ranges(RemoveAt(s, i)) && Clear(RemoveAt(s, i), s[i])
    ensures forall a :: In(RemoveAt(s, i), a) <==> In(s, a) && !Holds(s[i], a)
  {
    RemoveApart(s, i);
    var p, x, q := s[..i], s[i], s[i + 1..];
    assert s == p + [x] + q;
    ClearIn(RemoveAt(s, i), x);
    forall a ensures In(RemoveAt(s, i), a) <==> In(s, a) && !Holds(x, a) {
      InParts(p, x, q, a);
      InConcat(p, q, a);
    }
  }

  lemma RemoveApart(s: seq<Item>, i: nat)
    requires Ranges(s) && i < |s|
    ensures Ranges(RemoveAt(s, i)) && Clear(RemoveAt(s, i), s[i])
  {
    var r := RemoveAt(s, i);
    forall k, j | 0 <= k < j < |r| ensures r[k].key + r[k].data <= r[j].key {
      var k' := if k < i then k else k + 1;
      var j' := if j < i then j else j + 1;
      assert r[k] == s[k'] && r[j] == s[j'];
    }
    forall k | 0 <= k < |r| ensures RangeOk(r[k]) && !Overlap(r[k], s[i]) {
      var k' := if k < i then k else k + 1;
      assert r[k] == s[k'] && RangeOk(s[k']);
    }
  }

  /** Shortening a record in place. */
  lemma ShrinkRange(s: seq<Item>, i: nat, x: Item)
    requires Ranges(s) && i < |s| && RangeOk(x) && s[i].key <= x.key && x.key + x.data <= s[i].key + s[i].data
    ensures Ranges(s[i := x])
    ensures forall a :: In(s[i := x], a) <==> (In(s, a) && !Holds(s[i], a)) || Holds(x, a)
  {
    var p, q, t := s[..i], s[i + 1..], s[i := x];
    assert s == p + [s[i]] + q && t == p + [x] + q;
    RangesParts(p, s[i], q);
    RangesParts(p, x, q);
    RemoveRange(s, i);
    forall a ensures In(t, a) <==> (In(s, a) && !Holds(s[i], a)) || Holds(x, a) {
      InParts(p, x, q, a);
      InConcat(p, q, a);
    }
  }

  /** Growing one side by a range the other side does not have. */
  lemma SeparateGrow(f: seq<Item>, f': seq<Item>, t: seq<Item>, x: Item)
    requires Ranges(f) && Ranges(f') && Ranges(t) && Separate(f, t)
    requires forall a :: In(f', a) <==> In(f, a) || Holds(x, a)
    requires forall a :: Holds(x, a) ==> !In(t, a)
    ensures Separate(f', t)
  {
    SeparateIn(f, t);
    SeparateIn(f', t);
  }

  /** A record of one side is clear of the other, and stays so without it. */
  lemma SeparateMember(f: seq<Item>, t: seq<Item>, i: nat)
    requires Ranges(f) && Ranges(t) && Separate(f, t) && i < |t|
    ensures Clear(f, t[i]) && Separate(f, RemoveAt(t, i))
    ensures forall a :: Holds(t[i], a) ==> !In(RemoveAt(t, i), a) && In(t, a)
  {
    RemoveRange(t, i);
    SeparateIn(f, t);
    SeparateIn(f, RemoveAt(t, i));
    assert RangeOk(t[i]);
    forall a | Holds(t[i], a) ensures In(t, a) {}
    ClearIn(f, t[i]);
  }

  /** Moving a range from one side to the other. */
  lemma SeparateMove(f: seq<Item>, f': seq<Item>, t: seq<Item>, x: Item)
    requires Ranges(f) && Ranges(f') && Ranges(t) && Separate(f, t) && RangeOk(x)
    requires forall a :: Holds(x, a) ==> In(f, a)
    requires forall a :: In(f', a) <==> In(f, a) && !Holds(x, a)
    ensures Clear(t, x) && Ranges(InsertItem(t, x)) && !HasKey(t, x.key)
    ensures Separate(f', InsertItem(t, x))
    ensures forall a :: In(InsertItem(t, x), a) <==> In(t, a) || Holds(x, a)
  {
    SeparateIn(f, t);
    ClearIn(t, x);
    InsertRange(t, x);
    SeparateIn(f', InsertItem(t, x));
  }

  /** The front of a record, cut off: the rest stays behind, unless nothing is left. */
  function FrontCut(s: seq<Item>, i: nat, size: int): seq<Item>
    requires i < |s|
  {
    if size == s[i].data then RemoveAt(s, i) else s[i := Item(s[i].n, s[i].key + size, s[i].data - size)]
  }

  lemma CutFront(s: seq<Item>, i: nat, size: int)
    requires Ranges(s) && i < |s| && 0 < size <= s[i].data && size % PAGE_SIZE == 0
    ensures var x := Item(s[i].n, s[i].key, size);
            var r := FrontCut(s, i, size);
            && RangeOk(x) && Ranges(r)
            && (forall a :: Holds(x, a) ==> In(s, a))
            && (forall a :: In(r, a) <==> In(s, a) && !Holds(x, a))
  {
    assert RangeOk(s[i]);
    forall a | Holds(Item(s[i].n, s[i].key, size), a) ensures In(s, a) {
      assert Holds(s[i], a);
    }
    if size == s[i].data {
      RemoveRange(s, i);
    } else {
      var y := Item(s[i].n, s[i].key + size, s[i].data - size);
      assert RangeOk(y);
      ShrinkRange(s, i, y);
      forall a ensures In(s[i := y], a) <==> In(s, a) && !Holds(Item(s[i].n, s[i].key, size), a) {
        if Holds(s[i], a) { assert In(s, a); }
      }
    }
  }

  /** Record i gives way to the records of p. */
  function Splice(s: seq<Item>, i: nat, p: seq<Item>): seq<Item>
    requires i < |s|
  {
    s[..i] + p + s[i + 1..]
  }

  /** The two halves of record i, inserted by their addresses, take its place. */
  lemma HalvesSplice(s: seq<Item>, i: nat, x: Item, y: Item)
    requires Ranges(s) && i < |s| && x.key == s[i].key && x.key < y.key < s[i].key + s[i].data
    ensures InsertItem(InsertItem(RemoveAt(s, i), x), y) == Splice(s, i, [x, y])
  {
    var a, b := s[..i], s[i + 1..];
    assert KeysBelow(a, x.key) && KeysAbove(x.key, b) by { BeforeAfter(s, i); }
    InsertItemSplit(a, x, b);
    assert KeysBelow(a + [x], y.key) && KeysAbove(y.key, b) by { BeforeAfter(s, i); }
    InsertItemSplit(a + [x], y, b);
    assert a + [x] + [y] + b == a + [x, y] + b;
  }

  lemma BeforeAfter(s: seq<Item>, i: nat)
    requires Ranges(s) && i < |s|
    ensures KeysBelow(s[..i], s[i].key)
    ensures KeysAbove(s[i].key + s[i].data - 1, s[i + 1..])
  {
    assert RangeOk(s[i]);
    forall j | 0 <= j < i ensures s[j].key < s[i].key { assert RangeOk(s[j]); }
  }

  /** Two halves of a range take the place of the whole. */
  lemma SplitRange(f: seq<Item>, t: seq<Item>, w: Item, x: Item, y: Item)
    requires Divided(f, t) && RangeOk(w) && Clear(f, w) && Clear(t, w)
    requires x.key == w.key && y.key == x.key + x.data && y.key + y.data == w.key + w.data && RangeOk(x) && RangeOk(y)
    ensures !HasKey(t, x.key) && SortedKeys(t)
    ensures var t1 := InsertItem(t, x); !HasKey(t1, y.key) && SortedKeys(t1)
    ensures var t2 := InsertItem(InsertItem(t, x), y);
            Divided(f, t2) && forall a :: In(t2, a) <==> In(t, a) || Holds(w, a)
  {
    assert Clear(t, x) && Clear(t, y) && Clear(f, x) && Clear(f, y);
    InsertRange(t, x);
    var t1 := InsertItem(t, x);
    ClearIn(t, y);
    forall a | Holds(y, a) ensures !In(t1, a) {}
    ClearIn(t1, y);
    InsertRange(t1, y);
    var t2 := InsertItem(t1, y);
    RangesSorted(t);
    RangesSorted(t1);
    forall a ensures In(t2, a) <==> In(t, a) || Holds(w, a) {
      assert Holds(w, a) <==> Holds(x, a) || Holds(y, a);
    }
    SeparateIn(f, t);
    ClearIn(f, w);
    SeparateIn(f, t2);
  }

  /** Some range of s is at least as large as asked. */
  ghost predicate Fits(s: seq<Item>, size: int) { exists i :: 0 <= i < |s| && s[i].data >= size }

  lemma {:induction false} MergeRightGrows(s: seq<Item>, i: nat)
    requires Ranges(s) && i < |s|
    ensures MergeRight(s, i)[i].data >= s[i].data
    decreases |s|
  {
    if Adjacent(s, i) {
      FuseKeeps(s, i, s[i].n);
      assert RangeOk(s[i + 1]);
      MergeRightGrows(Fuse(s, i, s[i].n), i);
    }
  }

  lemma {:induction false} MergeLeftGrows(s: seq<Item>, i: nat)
    requires Ranges(s) && i < |s|
    ensures Fits(MergeLeft(s, i), s[i].data)
    decreases |s|
  {
    if Adjacent(s, i - 1) {
      FuseKeeps(s, i - 1, s[i].n);
      assert RangeOk(s[i - 1]);
      MergeLeftGrows(Fuse(s, i - 1, s[i].n), i - 1);
    }
  }

  /** What was merged is still there for the taking. */
  lemma MergeGrows(s: seq<Item>, i: nat)
    requires Ranges(s) && i < |s|
    ensures Fits(Merge(s, i), s[i].data)
  {
    MergeRightGrows(s, i);
    MergeRightKeeps(s, i);
    if i + 1 == |MergeRight(s, i)| { MergeLeftGrows(MergeRight(s, i), i); }
  }
}
