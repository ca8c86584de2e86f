/** The memory layout of a user process and its heap (kernel/memory/um.c, include/memory.h). */
module Um {
  import opened RbtTree
  import opened RbtBalance
  import opened RbtHeap
  import opened VmRanges
  import opened Vm

  const KERN_BASE: int := 0xC000_0000

  /** struct um_t: the layout fields that move, and the ranges of the heap. */
  class UserMemory {
    const heapS: int
    var heapE: int
    var freeS: int
    var freeE: int
    var stkS: int
    const stkE: int
    const vm: VpageAlct

    /** Heap, gap and stack follow each other without holes; the range allocator owns addresses of
        the heap only. */
    ghost predicate Valid()
      reads this, vm, vm.free, vm.alloced, vm.free.nodes, vm.alloced.nodes
    {
      && vm.Valid()
      && 0 <= heapS <= heapE == freeS <= freeE == stkS <= stkE == KERN_BASE - PAGE_SIZE
      && heapE % PAGE_SIZE == 0 && freeE % PAGE_SIZE == 0
      && forall a :: vm.Owns(a) ==> heapS <= a < heapE
    }

    /** Every heap address is free or allocated: no record allocation has failed after the heap grew. */
    ghost predicate Full()
      reads this, vm, vm.free, vm.alloced
    {
      forall a :: heapS <= a < heapE ==> vm.Owns(a)
    }

    /** um_init: an empty heap and an empty stack. */
    constructor ()
      ensures Valid() && Full() && heapE == 0 && stkS == KERN_BASE - PAGE_SIZE
      ensures fresh(vm) && fresh(vm.free) && fresh(vm.alloced) && vm.free.nodes == vm.alloced.nodes == {}
    {
      heapS, heapE, freeS := 0, 0, 0;
      freeE, stkS, stkE := KERN_BASE - PAGE_SIZE, KERN_BASE - PAGE_SIZE, KERN_BASE - PAGE_SIZE;
      vm := new VpageAlct();
    }

    /** um_stack_alloc, in 32 bits. The new part of the stack is the end of the gap exactly when free_s + size
        does not wrap; a sum that wraps is taken for one that fits. */
    method StackAlloc(size: nat) returns (err: Err, addr: int)
      requires Valid() && size % PAGE_SIZE == 0 && size < WORD
      modifies this`stkS, this`freeE
      ensures err == if old(freeE) < old(freeS) + size < WORD then E_NOMEM else E_OK
      ensures err == E_OK ==> addr == stkS == freeE == (old(stkS) - size) % WORD
      ensures err == E_OK ==> (old(freeS) <= addr && addr + size == old(freeE) <==> old(freeS) + size < WORD)
      ensures err != E_OK ==> stkS == old(stkS) && freeE == old(freeE)
      ensures old(freeS) + size < WORD ==> Valid() && (old(Full()) ==> Full())
    {
      if (freeS + size) % WORD > freeE {
        return E_NOMEM, 0;
      }
      stkS := (stkS - size) % WORD;
      freeE := (freeE - size) % WORD;
      return E_OK, stkS;
    }

    /** um_heap_alloc, in 32 bits. The heap grows by size into the gap exactly when free_s + size does not wrap;
        where it wraps the heap shrinks instead, and a heap that was full is one no longer. */
    method HeapAlloc(size: nat) returns (err: Err, addr: int)
      requires Valid() && size % PAGE_SIZE == 0 && size < WORD
      modifies this`heapE, this`freeS
      ensures err == if old(freeE) < old(freeS) + size < WORD then E_NOMEM else E_OK
      ensures err == E_OK ==> addr == old(heapE) && heapE == freeS == (old(heapE) + size) % WORD
      ensures err == E_OK ==> (heapE == addr + size && heapE <= freeE <==> old(freeS) + size < WORD)
      ensures err == E_OK && old(Full()) ==> (Valid() <==> old(freeS) + size < WORD)
      ensures err != E_OK ==> heapE == old(heapE) && freeS == old(freeS)
      ensures old(freeS) + size < WORD ==> Valid()
    {
      if (freeS + size) % WORD > freeE {
        return E_NOMEM, 0;
      }
      addr := heapE;
      heapE := (heapE + size) % WORD;
      freeS := (freeS + size) % WORD;
      if addr + size >= WORD && heapS <= heapE {
        assert old(Full()) ==> vm.Owns(heapE);
      }
      return E_OK, addr;
    }

    /** umalloc_page: from the free ranges, or from a heap grown for it. rec1, rec2 and rec3 are the answers of the
        record allocator to vm_alloc, vm_insert and the second vm_alloc. E_NOMEM from the first vm_alloc makes the
        heap grow, whether it stands for a lack of space or for a lack of records. */
    method MallocPage(size: nat, rec1: Err, rec2: Err, rec3: Err) returns (err: Err, vp: Node?)
      requires Valid() && size < WORD && size % PAGE_SIZE == 0
      requires (Fits(Items(vm.free.tree), size) && rec1 != E_NOMEM) || (0 < size && freeS + size < WORD)
      modifies this`heapE, this`freeS, vm.free, vm.free.nodes, vm.alloced, vm.alloced.nodes
      ensures Valid() <==> err != E_OK || size > 0
      ensures fresh(vm.free.nodes - old(vm.free.nodes)) && fresh(vm.alloced.nodes - old(vm.alloced.nodes))
      ensures var short, grow := !old(Fits(Items(vm.free.tree), size)) || rec1 == E_NOMEM, old(freeS) + size <= freeE;
              && err == (if !short then rec1 else if !grow then E_NOMEM else if rec2 != E_OK then rec2 else rec3)
              && heapE == freeS == old(heapE) + (if short && grow then size else 0)
              && freeE == old(freeE)
              && (old(Full()) ==> (Full() <==> !(short && grow && rec2 != E_OK)))
              && (short && grow && rec2 == E_OK && rec3 != E_OK ==> Fits(Items(vm.free.tree), size))
      ensures err == E_OK ==>
                && vp != null && fresh(vp) && vp in vm.alloced.nodes && vp.data == size
                && heapS <= vp.key && vp.key + size <= heapE
                && (forall a :: Holds(RecOf(vp), a) ==> !old(In(Items(vm.alloced.tree), a)))
    {
      hide Rbt.Valid, Items, Divided, Fits, Full;
      err, vp := FromRanges(size, rec1);
      if err == E_NOMEM {
        err, vp := GrowAndAlloc(size, rec2, rec3);
      }
    }

    /** vm_alloc of whole pages: the range handed out lies in the heap, which stays as full as it was. */
    method FromRanges(size: nat, rec: Err) returns (err: Err, vp: Node?)
      requires Valid() && size < WORD && size % PAGE_SIZE == 0
      modifies vm.free, vm.free.nodes, vm.alloced, vm.alloced.nodes
      ensures Valid() <==> err != E_OK || size > 0
      ensures err == if !old(Fits(Items(vm.free.tree), size)) then E_NOMEM else rec
      ensures Full() <==> old(Full())
      ensures fresh(vm.free.nodes - old(vm.free.nodes)) && fresh(vm.alloced.nodes - old(vm.alloced.nodes))
      ensures err != E_OK ==> vm.free.tree == old(vm.free.tree) && vm.alloced.tree == old(vm.alloced.tree)
      ensures err == E_OK ==>
                && vp != null && fresh(vp) && vp in vm.alloced.nodes && vp.data == size
                && heapS <= vp.key && vp.key + size <= heapE
                && (forall a :: Holds(RecOf(vp), a) ==> !old(In(Items(vm.alloced.tree), a)))
    {
      ghost var f := Items(vm.free.tree);
      assert Ranges(f);
      assert RoundUp(size) == size;
      hide Rbt.Valid, Items, Divided, CutFrom, Fits, RoundUp, In;
      err, vp := vm.Alloc(size, rec);
      if err == E_OK {
        if size > 0 {
          InHeap(vp);
        } else {
          ghost var key := vp.key;
          CutIn(f, key, size, Items(vm.free.tree));
          assert old(vm.Owns(key));
        }
      }
    }

    /** The heap is grown by size and the range given out. */
    method GrowAndAlloc(size: nat, rec2: Err, rec3: Err) returns (err: Err, vp: Node?)
      requires Valid() && 0 < size && size % PAGE_SIZE == 0 && freeS + size < WORD
      modifies this`heapE, this`freeS, vm.free, vm.free.nodes, vm.alloced, vm.alloced.nodes
      ensures Valid() && fresh(vm.free.nodes - old(vm.free.nodes)) && fresh(vm.alloced.nodes - old(vm.alloced.nodes))
      ensures var grow := old(freeS) + size <= freeE;
              && err == (if !grow then E_NOMEM else if rec2 != E_OK then rec2 else rec3)
              && heapE == old(heapE) + (if grow then size else 0)
              && freeE == old(freeE)
              && (old(Full()) ==> (Full() <==> !(grow && rec2 != E_OK)))
              && (grow && rec2 == E_OK && rec3 != E_OK ==> Fits(Items(vm.free.tree), size))
      ensures err == E_OK ==>
                && vp != null && fresh(vp) && vp in vm.alloced.nodes && vp.data == size
                && heapS <= vp.key && vp.key + size <= heapE
                && (forall a :: Holds(RecOf(vp), a) ==> !old(In(Items(vm.alloced.tree), a)))
    {
      hide Rbt.Valid, Items, Divided, CutFrom, Merged;
      var nm;
      err, nm := HeapAlloc(size);
      if err != E_OK {
        return err, null;
      }
      err := vm.InsertNew(nm, size, rec2);
      if err != E_OK {
        assert heapS <= nm < heapE && !vm.Owns(nm);
        return err, null;
      }
      err, vp := FromRanges(size, rec3);
    }

    /** A range the allocator owns lies in the heap. */
    lemma InHeap(vp: Node)
      requires Valid() && vp.data > 0 && forall a :: Holds(RecOf(vp), a) ==> vm.Owns(a)
      ensures heapS <= vp.key && vp.key + vp.data <= heapE
    {
      assert Holds(RecOf(vp), vp.key) && Holds(RecOf(vp), vp.key + vp.data - 1);
    }
  }

  /** The front of a range lies in it. */
  lemma CutIn(f: seq<Item>, key: int, size: int, f': seq<Item>)
    requires Ranges(f) && CutFrom(f, key, size, f')
    ensures In(f, key)
  {
    var i: nat :| i < |f| && f[i].key == key && f[i].data >= size && f' == FrontCut(f, i, size);
    assert Holds(f[i], key);
  }

  /** A page for which the record is missing once the heap has grown stays behind as a free range. */
  method PageLeftFree() returns (um: UserMemory, err: Err)
    ensures err == E_NOMEM && um.Valid() && um.Full() && fresh(um) && fresh(um.vm) && fresh(um.vm.free)
    ensures fresh(um.vm.free.nodes) && fresh(um.vm.alloced) && fresh(um.vm.alloced.nodes)
    ensures Fits(Items(um.vm.free.tree), PAGE_SIZE)
    ensures um.heapE == PAGE_SIZE && um.freeE == KERN_BASE - PAGE_SIZE
  {
    um := new UserMemory();
    var vp;
    err, vp := um.MallocPage(PAGE_SIZE, E_OK, E_OK, E_NOMEM);
  }

  /** The input for which the heap grows although a free range fits: a page is free, and the record for it is
      missing when it is asked for. */
  method GrowsThoughItFits() returns (um: UserMemory, err: Err, ghost fitted: bool)
    ensures err == E_OK && fitted && um.heapE == 2 * PAGE_SIZE
  {
    um, err := PageLeftFree();
    fitted := Fits(Items(um.vm.free.tree), PAGE_SIZE);
    var vp;
    err, vp := um.MallocPage(PAGE_SIZE, E_NOMEM, E_OK, E_OK);
  }

  /** The input for which free_s + size wraps: after one page, a heap request of 0xFFFFF000 bytes is granted
      and leaves an empty heap. */
  method HeapWraps() returns (um: UserMemory, first: Err, second: Err)
    ensures first == E_OK && second == E_OK && um.heapE == 0 && um.freeE == KERN_BASE - PAGE_SIZE
  {
    um := new UserMemory();
    var addr;
    first, addr := um.HeapAlloc(0x1000);
    second, addr := um.HeapAlloc(0xFFFF_F000);
  }
}
