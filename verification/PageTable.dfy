/** Two-level page tables (arch/x86/src/mm/mmu.c, kernel/memory/ptb.c) against the address translation of
    32-bit paging, section 4.3 of the Intel 64 and IA-32 Software Developer's Manual, Volume 3A.

    Physical memory is an array of 32-bit words. A page frame is a number; its words are the 1024 words
    from frame * 1024 on. */
module PageTable {

  const PAGE: nat := 4096
  const ENTRIES: nat := 1024
  const FRAMES: nat := 0x10_0000
  const REGION: nat := 0x40_0000 // what one directory entry maps
  const ADDRESSES: nat := 0x1_0000_0000
  const KERN_BASE: nat := 0xC000_0000
  const KERN_ENTRY: nat := 768 // the directory entry of KERN_BASE

  datatype Error = E_OK | E_NOTFOUND | E_EXIST | E_NOMEM

  type Mem = seq<nat>

  predicate MemOk(mem: Mem) {
    |mem| == FRAMES * ENTRIES && forall i :: 0 <= i < |mem| ==> mem[i] < ADDRESSES
  }

  // ----- entries -----

  predicate Bit(w: nat, i: nat) { if i == 0 then w % 2 == 1 else Bit(w / 2, i - 1) }

  /** Present, writeable, user access, and the large page bit of a directory entry. */
  predicate P(w: nat) { w % 2 == 1 }
  predicate Wr(w: nat) { Bit(w, 1) }
  predicate Us(w: nat) { Bit(w, 2) }
  predicate Ps(w: nat) { Bit(w, 7) }
  function Frame(w: nat): nat { w / PAGE }

  function Pow2(n: nat): nat { if n == 0 then 1 else 2 * Pow2(n - 1) }

  lemma Half(x: nat, k: nat)
    ensures (2 * x + k) / 2 == x + k / 2 && (2 * x + k) % 2 == k % 2
  {
  }

  /** The bits below n do not depend on multiples of 2^n. */
  lemma {:induction false} LowBit(q: nat, n: nat, k: nat, i: nat)
    requires i < n
    ensures Bit(q * Pow2(n) + k, i) == Bit(k, i)
  {
    var x := q * Pow2(n - 1);
    assert q * Pow2(n) == 2 * x;
    Half(x, k);
    if i > 0 { LowBit(q, n - 1, k / 2, i - 1); }
  }

  /** Small numbers added to a page address are its low bits and leave its frame alone. */
  lemma LowBits(pa: nat, k: nat)
    requires pa % PAGE == 0 && k < 8
    ensures P(pa + k) == Bit(k, 0) && Wr(pa + k) == Bit(k, 1) && Us(pa + k) == Bit(k, 2) && Ps(pa + k) == Bit(k, 7)
    ensures Frame(pa + k) == Frame(pa)
  {
    assert Pow2(6) == 64;
    assert Pow2(12) == PAGE;
    var q := pa / PAGE;
    LowBit(q, 12, k, 0);
    LowBit(q, 12, k, 1);
    LowBit(q, 12, k, 2);
    LowBit(q, 12, k, 7);
  }

  lemma FlagBits(usr: bool, wtb: bool)
    ensures var k := Flags(usr, wtb); k < 8 && Bit(k, 0) && Bit(k, 1) == wtb && Bit(k, 2) == usr && !Bit(k, 7)
  {
    var k := Flags(usr, wtb);
    assert k / 2 / 2 / 2 == 0;
    assert Bit(k, 7) == Bit(k / 2 / 2 / 2, 4);
  }

  function Flags(usr: bool, wtb: bool): nat { 1 + (if usr then 4 else 0) + if wtb then 2 else 0 }

  /** The entry for a page address, present and with the asked rights. */
  function Entry(pa: nat, usr: bool, wtb: bool): (w: nat)
    requires pa % PAGE == 0
    ensures P(w) && Wr(w) == wtb && Us(w) == usr && !Ps(w) && Frame(w) == Frame(pa)
    ensures pa < ADDRESSES ==> w < ADDRESSES
  {
    FlagBits(usr, wtb);
    LowBits(pa, Flags(usr, wtb));
    pa + Flags(usr, wtb)
  }

  function DirIdx(va: nat): nat { va / REGION }
  function TabIdx(va: nat): nat { va / PAGE % ENTRIES }

  /** Entry i of the directory or table in frame f. */
  function At(mem: Mem, f: nat, i: nat): nat
    requires MemOk(mem) && f < FRAMES && i < ENTRIES
    ensures At(mem, f, i) < ADDRESSES && Frame(At(mem, f, i)) < FRAMES
  {
    mem[f * ENTRIES + i]
  }

  function Set(mem: Mem, f: nat, i: nat, w: nat): (r: Mem)
    requires MemOk(mem) && f < FRAMES && i < ENTRIES && w < ADDRESSES
    ensures MemOk(r)
    ensures forall g, j :: 0 <= g < FRAMES && 0 <= j < ENTRIES ==> At(r, g, j) == if g == f && j == i then w else At(mem, g, j)
  {
    mem[f * ENTRIES + i := w]
  }

  // ----- the translation -----

  datatype Xlat = Absent | Page(frame: nat, user: bool, write: bool)

  /** The processor's walk from the directory in frame d. */
  function Walk(mem: Mem, d: nat, va: nat): Xlat
    requires MemOk(mem) && d < FRAMES && va < ADDRESSES
  {
    var e := At(mem, d, DirIdx(va));
    if !P(e) then Absent
    else if Ps(e) then Page(e / REGION * ENTRIES + TabIdx(va), Us(e), Wr(e))
    else
      var t := At(mem, Frame(e), TabIdx(va));
      if !P(t) then Absent else Page(Frame(t), Us(e) && Us(t), Wr(e) && Wr(t))
  }

  predicate Table(e: nat) { P(e) && !Ps(e) }

  /** The table pages of a directory are distinct, and none is the directory itself. */
  predicate Separate(mem: Mem, d: nat)
    requires MemOk(mem) && d < FRAMES
  {
    && (forall i :: 0 <= i < ENTRIES && Table(At(mem, d, i)) ==> Frame(At(mem, d, i)) != d)
    && (forall i, j :: 0 <= i < j < ENTRIES && Table(At(mem, d, i)) && Table(At(mem, d, j)) ==>
          Frame(At(mem, d, i)) != Frame(At(mem, d, j)))
  }

  /** Frame f is neither the directory nor one of its tables. */
  predicate Unused(mem: Mem, d: nat, f: nat)
    requires MemOk(mem) && d < FRAMES
  {
    f != d && forall i :: 0 <= i < ENTRIES && Table(At(mem, d, i)) ==> Frame(At(mem, d, i)) != f
  }

  predicate SamePage(va: nat, vb: nat) { va / PAGE == vb / PAGE }

  /** A page number is a directory index and a table index. */
  lemma PageNumber(va: nat)
    ensures va / PAGE == DirIdx(va) * ENTRIES + TabIdx(va)
  {
    var p := va / PAGE;
    assert va == p / ENTRIES * REGION + (p % ENTRIES * PAGE + va % PAGE);
  }

  lemma SamePageWalk(mem: Mem, d: nat, va: nat, vb: nat)
    requires MemOk(mem) && d < FRAMES && va < ADDRESSES && vb < ADDRESSES && SamePage(va, vb)
    ensures DirIdx(va) == DirIdx(vb) && TabIdx(va) == TabIdx(vb) && Walk(mem, d, va) == Walk(mem, d, vb)
  {
    PageNumber(va);
    PageNumber(vb);
  }

  /** Writing a page's table entry changes the translation of that page and of no other. */
  lemma SetEntryWalk(mem: Mem, d: nat, va: nat, w: nat, vb: nat)
    requires MemOk(mem) && d < FRAMES && va < ADDRESSES && vb < ADDRESSES && w < ADDRESSES
    requires Separate(mem, d) && Table(At(mem, d, DirIdx(va)))
    ensures var e := At(mem, d, DirIdx(va));
            var mem' := Set(mem, Frame(e), TabIdx(va), w);
            && Separate(mem', d)
            && Walk(mem', d, vb) ==
               if !SamePage(va, vb) then Walk(mem, d, vb)
               else if P(w) then Page(Frame(w), Us(e) && Us(w), Wr(e) && Wr(w)) else Absent
  {
    var e := At(mem, d, DirIdx(va));
    var mem' := Set(mem, Frame(e), TabIdx(va), w);
    assert forall i :: 0 <= i < ENTRIES ==> At(mem', d, i) == At(mem, d, i);
    PageNumber(va);
    PageNumber(vb);
    assert SamePage(va, vb) <==> DirIdx(va) == DirIdx(vb) && TabIdx(va) == TabIdx(vb);
  }

  predicate Clean(mem: Mem, f: nat)
    requires MemOk(mem) && f < FRAMES
  {
    forall i :: 0 <= i < ENTRIES ==> At(mem, f, i) == 0
  }

  /** Installing an empty table where there was none changes no translation. */
  lemma NewTableWalk(mem: Mem, d: nat, i: nat, w: nat, vb: nat)
    requires MemOk(mem) && d < FRAMES && i < ENTRIES && w < ADDRESSES && vb < ADDRESSES
    requires Separate(mem, d) && !P(At(mem, d, i)) && Table(w) && Unused(mem, d, Frame(w)) && Clean(mem, Frame(w))
    ensures var mem' := Set(mem, d, i, w); Separate(mem', d) && Walk(mem', d, vb) == Walk(mem, d, vb)
  {
  }

  /** A large page's directory entry does not lead to a table: what mmu_map writes then is outside the
      tables, and the page still translates as before. */
  lemma LargePageWalk(mem: Mem, d: nat, va: nat, w: nat)
    requires MemOk(mem) && d < FRAMES && va < ADDRESSES && w < ADDRESSES
    requires var e := At(mem, d, DirIdx(va)); P(e) && Ps(e) && Frame(e) != d
    ensures Walk(Set(mem, Frame(At(mem, d, DirIdx(va))), TabIdx(va), w), d, va) == Walk(mem, d, va) != Absent
  {
  }

  /** Only frame f differs. */
  predicate SameOutside(mem: Mem, mem': Mem, f: nat)
    requires MemOk(mem) && MemOk(mem')
  {
    forall g, j :: 0 <= g < FRAMES && 0 <= j < ENTRIES && g != f ==> At(mem', g, j) == At(mem, g, j)
  }

  /** What happens in an unused frame changes no translation. */
  lemma UnusedWalk(mem: Mem, mem': Mem, d: nat, f: nat, vb: nat)
    requires MemOk(mem) && MemOk(mem') && d < FRAMES && vb < ADDRESSES && SameOutside(mem, mem', f) && Unused(mem, d, f)
    ensures Walk(mem', d, vb) == Walk(mem, d, vb) && (Separate(mem, d) ==> Separate(mem', d)) && Unused(mem', d, f)
  {
    assert forall i :: 0 <= i < ENTRIES ==> At(mem', d, i) == At(mem, d, i);
  }

  /** n entries from lo on are those of directory kd, the others as before. */
  predicate Copied(mem: Mem, mem': Mem, kd: nat, d: nat, lo: nat, n: nat)
    requires MemOk(mem) && MemOk(mem') && kd < FRAMES && d < FRAMES
  {
    forall i :: 0 <= i < ENTRIES ==>
      (At(mem', d, i) == if lo <= i < lo + n then At(mem, kd, i) else At(mem, d, i))
  }

  /** That is every entry [addr, addr + size) reaches into exactly when the range does not start later in its
      entry than it ends in its last one. */
  lemma SyncSpans(addr: nat, size: nat)
    requires size > 0
    ensures DirIdx(addr + size - 1) - DirIdx(addr) + 1 == (size + REGION - 1) / REGION
            <==> addr % REGION + (size - 1) % REGION < REGION
  {
    var q, r := addr / REGION, addr % REGION;
    var m, k := (size - 1) / REGION, (size - 1) % REGION;
    assert (size + REGION - 1) / REGION == m + 1;
    assert addr + size - 1 == (q + m) * REGION + (r + k);
    if r + k < REGION {
      assert (addr + size - 1) / REGION == q + m;
    } else {
      assert addr + size - 1 == (q + m + 1) * REGION + (r + k - REGION);
      assert (addr + size - 1) / REGION == q + m + 1;
    }
  }

  /** The input for which it is not: a range of one region's size that starts in the middle of an entry reaches into
      two entries and has one copied. */
  lemma SyncMisses()
    ensures var addr, size := KERN_BASE + 0x20_0000, 0x40_0000;
            DirIdx(addr + size - 1) - DirIdx(addr) + 1 == 2 && (size + REGION - 1) / REGION == 1
  {
    SyncSpans(KERN_BASE + 0x20_0000, 0x40_0000);
  }

  /** Directory entry e maps nothing: it is not present, or its table is empty. */
  predicate MapsNothing(mem: Mem, e: nat)
    requires MemOk(mem) && e < ADDRESSES
  {
    P(e) ==> !Ps(e) && forall j :: 0 <= j < ENTRIES ==> !P(At(mem, Frame(e), j))
  }

  /** No user address translates exactly when every user entry of the directory maps nothing. */
  lemma NoUserAddress(mem: Mem, d: nat)
    requires MemOk(mem) && d < FRAMES
    ensures (forall va :: 0 <= va < KERN_BASE ==> Walk(mem, d, va) == Absent) <==>
            (forall i :: 0 <= i < KERN_ENTRY ==> MapsNothing(mem, At(mem, d, i)))
  {
    if forall va :: 0 <= va < KERN_BASE ==> Walk(mem, d, va) == Absent {
      forall i | 0 <= i < KERN_ENTRY ensures MapsNothing(mem, At(mem, d, i)) {
        assert DirIdx(i * REGION) == i && Walk(mem, d, i * REGION) == Absent;
        forall j | 0 <= j < ENTRIES && P(At(mem, d, i)) ensures !P(At(mem, Frame(At(mem, d, i)), j)) {
          var va := i * REGION + j * PAGE;
          assert DirIdx(va) == i && TabIdx(va) == j && Walk(mem, d, va) == Absent;
        }
      }
    }
    if forall i :: 0 <= i < KERN_ENTRY ==> MapsNothing(mem, At(mem, d, i)) {
      forall va | 0 <= va < KERN_BASE ensures Walk(mem, d, va) == Absent {
        assert DirIdx(va) < KERN_ENTRY && MapsNothing(mem, At(mem, d, DirIdx(va)));
      }
    }
  }

  // ----- mmu.c -----

  class Mmu {
    const words: array<nat>

    constructor (words: array<nat>)
      ensures this.words == words
    {
      this.words := words;
    }

    ghost predicate Valid()
      reads words
    {
      MemOk(words[..])
    }

    method PmGet(pa: nat) returns (w: nat)
      requires Valid() && pa % 4 == 0 && pa < ADDRESSES
      ensures w == words[..][pa / 4]
    {
      w := words[pa / 4];
    }

    method PmSet(pa: nat, val: nat)
      requires Valid() && pa % 4 == 0 && pa < ADDRESSES && val < ADDRESSES
      modifies words
      ensures Valid() && words[..] == old(words[..])[pa / 4 := val]
    {
      words[pa / 4] := val;
    }

    /** The word of entry i in the page at pa. */
    lemma EntryAddr(pa: nat, i: nat)
      requires pa % PAGE == 0 && pa < ADDRESSES && i < ENTRIES
      ensures (pa + 4 * i) % 4 == 0 && pa + 4 * i < ADDRESSES && (pa + 4 * i) / 4 == Frame(pa) * ENTRIES + i
      ensures Frame(pa) < FRAMES
    {
    }

    method PpClean(pa: nat)
      requires Valid() && pa % PAGE == 0 && pa < ADDRESSES
      modifies words
      ensures Valid() && Clean(words[..], Frame(pa)) && SameOutside(old(words[..]), words[..], Frame(pa))
    {
      EntryAddr(pa, 0);
      ghost var mem, f := words[..], Frame(pa);
      var i := 0;
      while i < ENTRIES
        invariant i <= ENTRIES && Valid()
        invariant forall j :: 0 <= j < |mem| ==> words[j] == if f * ENTRIES <= j < f * ENTRIES + i then 0 else mem[j]
      {
        EntryAddr(pa, i);
        words[(pa + 4 * i) / 4] := 0;
        i := i + 1;
      }
      forall j | 0 <= j < ENTRIES ensures At(words[..], f, j) == 0 { assert words[f * ENTRIES + j] == 0; }
      forall g, j | 0 <= g < FRAMES && 0 <= j < ENTRIES && g != f ensures At(words[..], g, j) == At(mem, g, j) {
        assert words[g * ENTRIES + j] == mem[g * ENTRIES + j];
      }
    }

    /** Entry i of the page at pa. */
    method GetEntry(pa: nat, i: nat) returns (w: nat)
      requires Valid() && pa % PAGE == 0 && pa < ADDRESSES && i < ENTRIES
      ensures Frame(pa) < FRAMES && w == At(words[..], Frame(pa), i)
    {
      EntryAddr(pa, i);
      w := PmGet(pa + 4 * i);
    }

    method SetEntry(pa: nat, i: nat, w: nat)
      requires Valid() && pa % PAGE == 0 && pa < ADDRESSES && i < ENTRIES && w < ADDRESSES && Frame(pa) < FRAMES
      modifies words
      ensures Valid() && words[..] == Set(old(words[..]), Frame(pa), i, w)
    {
      EntryAddr(pa, i);
      PmSet(pa + 4 * i, w);
    }

    /** mmu_map */
    method Map(pde: nat, va: nat, pa: nat, usr: bool, wtb: bool) returns (err: Error)
      requires Valid() && pde < ADDRESSES && va < ADDRESSES && pa < ADDRESSES
      requires pde % PAGE == 0 && va % PAGE == 0 && pa % PAGE == 0 && Frame(pde) < FRAMES
      modifies words
      ensures Valid()
      ensures var mem := old(words[..]);
              var e := At(mem, Frame(pde), DirIdx(va));
              && err == (if !P(e) then E_NOTFOUND else if P(At(mem, Frame(e), TabIdx(va))) then E_EXIST else E_OK)
              && words[..] == if err == E_OK then Set(mem, Frame(e), TabIdx(va), Entry(pa, usr, wtb)) else mem
    {
      var pte := GetEntry(pde, DirIdx(va));
      if !P(pte) { return E_NOTFOUND; }
      var table := Frame(pte) * PAGE;
      var pg := GetEntry(table, TabIdx(va));
      if P(pg) { return E_EXIST; }
      SetEntry(table, TabIdx(va), Entry(pa, usr, wtb));
      return E_OK;
    }

    /** mmu_unmap */
    method Unmap(pde: nat, va: nat) returns (err: Error)
      requires Valid() && pde < ADDRESSES && va < ADDRESSES && pde % PAGE == 0 && va % PAGE == 0 && Frame(pde) < FRAMES
      modifies words
      ensures Valid()
      ensures var mem := old(words[..]);
              var e := At(mem, Frame(pde), DirIdx(va));
              && err == (if P(e) && P(At(mem, Frame(e), TabIdx(va))) then E_OK else E_NOTFOUND)
              && words[..] == if err == E_OK then Set(mem, Frame(e), TabIdx(va), 0) else mem
    {
      var pte := GetEntry(pde, DirIdx(va));
      if !P(pte) { return E_NOTFOUND; }
      var table := Frame(pte) * PAGE;
      var pg := GetEntry(table, TabIdx(va));
      if !P(pg) { return E_NOTFOUND; }
      SetEntry(table, TabIdx(va), 0);
      return E_OK;
    }

    /** mmu_v2p agrees with the processor wherever the directory entry is not a large page's. There it takes
        the large page's first frame for a table. */
    method V2p(pde: nat, v: nat) returns (err: Error, p: nat)
      requires Valid() && pde < ADDRESSES && v < ADDRESSES && pde % PAGE == 0 && Frame(pde) < FRAMES
      ensures var e := At(words[..], Frame(pde), DirIdx(v));
              var x := Walk(words[..], Frame(pde), v);
              if !(P(e) && Ps(e)) then err == (if x.Absent? then E_NOTFOUND else E_OK) && (x.Page? ==> p == x.frame * PAGE)
              else
                var t := At(words[..], Frame(e), TabIdx(v));
                if P(t) then err == E_OK && p == Frame(t) * PAGE else err == E_NOTFOUND
    {
      p := 0;
      var pte := GetEntry(pde, DirIdx(v));
      if !P(pte) { return E_NOTFOUND, p; }
      var pa := GetEntry(Frame(pte) * PAGE, TabIdx(v));
      if !P(pa) { return E_NOTFOUND, p; }
      return E_OK, Frame(pa) * PAGE;
    }

    /** mmu_sync_kern_space: from the directory entry of addr on, one entry for every begun 4 MB of size is
        copied. */
    method SyncKernSpace(kpde: nat, pde: nat, addr: nat, size: nat)
      requires Valid() && kpde < ADDRESSES && pde < ADDRESSES && kpde % PAGE == 0 && pde % PAGE == 0
      requires Frame(kpde) < FRAMES && Frame(pde) < FRAMES && Frame(kpde) != Frame(pde)
      requires KERN_BASE <= addr && addr + size <= ADDRESSES
      modifies words
      ensures Valid() && SameOutside(old(words[..]), words[..], Frame(pde))
      ensures Copied(old(words[..]), words[..], Frame(kpde), Frame(pde), DirIdx(addr), (size + REGION - 1) / REGION)
    {
      ghost var mem := words[..];
      ghost var n := 0;
      var offset := 0;
      while offset < size
        invariant Valid() && SameOutside(mem, words[..], Frame(pde))
        invariant offset == n * REGION && n <= (size + REGION - 1) / REGION
        invariant Copied(mem, words[..], Frame(kpde), Frame(pde), DirIdx(addr), n)
      {
        assert DirIdx(addr + offset) == DirIdx(addr) + n;
        var e := GetEntry(kpde, DirIdx(addr + offset));
        SetEntry(pde, DirIdx(addr + offset), e);
        offset := offset + REGION;
        n := n + 1;
      }
    }
  }

  // ----- ptb.c -----

  datatype Option<T> = None | Some(v: T)

  /** What page_alloc hands out: a page the address space does not use yet. */
  predicate GoodPage(mem: Mem, d: nat, page: Option<nat>)
    requires MemOk(mem) && d < FRAMES
  {
    page.Some? ==> page.v % PAGE == 0 && page.v < ADDRESSES && Unused(mem, d, Frame(page.v))
  }

  /** The directory entry of va is absent or leads to a table. */
  predicate NotLarge(mem: Mem, d: nat, va: nat)
    requires MemOk(mem) && d < FRAMES && va < ADDRESSES
  {
    P(At(mem, d, DirIdx(va))) ==> !Ps(At(mem, d, DirIdx(va)))
  }

  /** The translations of mem' are those of mem, but the page of va translates to x. */
  ghost predicate Remapped(mem: Mem, mem': Mem, d: nat, va: nat, x: Xlat)
    requires MemOk(mem) && MemOk(mem') && d < FRAMES && va < ADDRESSES
  {
    forall vb :: 0 <= vb < ADDRESSES ==> Walk(mem', d, vb) == if SamePage(va, vb) then x else Walk(mem, d, vb)
  }

  /** At most entry i of directory d and the page f differ. */
  predicate OnlyTouched(mem: Mem, mem': Mem, d: nat, i: nat, f: nat)
    requires MemOk(mem) && MemOk(mem')
  {
    forall g, j :: 0 <= g < FRAMES && 0 <= j < ENTRIES && g != f && !(g == d && j == i) ==> At(mem', g, j) == At(mem, g, j)
  }

  /** struct ptb_t */
  class Ptb {
    var pde: nat
    var locked: bool

    constructor (pde: nat)
      ensures this.pde == pde && !locked
    {
      this.pde, locked := pde, false;
    }

    ghost predicate Shape(mem: Mem)
      reads this
    {
      MemOk(mem) && pde % PAGE == 0 && pde < ADDRESSES && Frame(pde) < FRAMES
    }

    ghost predicate Valid(mem: Mem)
      reads this
    {
      Shape(mem) && Separate(mem, Frame(pde))
    }

    /** The table for va: a new, empty one where there is none. */
    method EnsureTable(mmu: Mmu, va: nat, usr: bool, page: Option<nat>) returns (ok: bool)
      requires Valid(mmu.words[..]) && va < ADDRESSES && GoodPage(mmu.words[..], Frame(pde), page)
      modifies mmu.words
      ensures Valid(mmu.words[..])
      ensures var e := At(old(mmu.words[..]), Frame(pde), DirIdx(va));
              var e' := At(mmu.words[..], Frame(pde), DirIdx(va));
              && ok == (P(e) || page.Some?)
              && (P(e) || !ok ==> mmu.words[..] == old(mmu.words[..]))
              && (!P(e) && ok ==> Table(e') && Us(e') == usr && Wr(e') && At(mmu.words[..], Frame(e'), TabIdx(va)) == 0)
              && (!P(e) && ok ==>
                    Frame(e') == Frame(page.v) && OnlyTouched(old(mmu.words[..]), mmu.words[..], Frame(pde), DirIdx(va), Frame(page.v)))
      ensures forall vb :: 0 <= vb < ADDRESSES ==> Walk(mmu.words[..], Frame(pde), vb) == Walk(old(mmu.words[..]), Frame(pde), vb)
    {
      ghost var d, mem := Frame(pde), mmu.words[..];
      var pte := mmu.GetEntry(pde, DirIdx(va));
      if P(pte) { return true; }
      if page.None? { return false; }
      mmu.PpClean(page.v);
      ghost var mem1 := mmu.words[..];
      var w := Entry(page.v, usr, true);
      forall vb | 0 <= vb < ADDRESSES ensures Walk(mem1, d, vb) == Walk(mem, d, vb) {
        UnusedWalk(mem, mem1, d, Frame(page.v), vb);
      }
      UnusedWalk(mem, mem1, d, Frame(page.v), 0);
      mmu.SetEntry(pde, DirIdx(va), w);
      forall vb | 0 <= vb < ADDRESSES ensures Walk(mmu.words[..], d, vb) == Walk(mem1, d, vb) {
        NewTableWalk(mem1, d, DirIdx(va), w, vb);
      }
      NewTableWalk(mem1, d, DirIdx(va), w, 0);
      return true;
    }

    /** ptb_map; page is what page_alloc returns if it is called. A failing page_alloc leaves the lock
        taken. Inside a large page the word is written to the large page's first frame. */
    method Map(mmu: Mmu, va: nat, pa: nat, usr: bool, wtb: bool, page: Option<nat>) returns (err: Error)
      requires Valid(mmu.words[..]) && !locked && va < ADDRESSES && pa < ADDRESSES && va % PAGE == 0 && pa % PAGE == 0
      requires GoodPage(mmu.words[..], Frame(pde), page)
      modifies this`locked, mmu.words
      ensures Shape(mmu.words[..]) && locked == (err == E_NOMEM)
      ensures var mem := old(mmu.words[..]);
              var e := At(mem, Frame(pde), DirIdx(va));
              if NotLarge(mem, Frame(pde), va) then
                && Valid(mmu.words[..]) && NotLarge(mmu.words[..], Frame(pde), va)
                && err == (if !P(e) && page.None? then E_NOMEM
                           else if Walk(mem, Frame(pde), va).Page? then E_EXIST else E_OK)
                && (err != E_OK ==> mmu.words[..] == mem)
                && (err == E_OK ==>
                      Remapped(mem, mmu.words[..], Frame(pde), va, Page(Frame(pa), usr && (P(e) ==> Us(e)), wtb && (P(e) ==> Wr(e)))))
                && (err == E_OK ==>
                      if P(e) then mmu.words[..] == Set(mem, Frame(e), TabIdx(va), Entry(pa, usr, wtb))
                      else OnlyTouched(mem, mmu.words[..], Frame(pde), DirIdx(va), Frame(page.v)))
              else
                && err == (if P(At(mem, Frame(e), TabIdx(va))) then E_EXIST else E_OK)
                && mmu.words[..] == (if err == E_OK then Set(mem, Frame(e), TabIdx(va), Entry(pa, usr, wtb)) else mem)
                && (Frame(e) != Frame(pde) ==> Walk(mmu.words[..], Frame(pde), va) == Walk(mem, Frame(pde), va))
    {
      ghost var d, mem := Frame(pde), mmu.words[..];
      locked := true;
      var ok := EnsureTable(mmu, va, usr, page);
      if !ok { return E_NOMEM; }
      ghost var mem1 := mmu.words[..];
      err := mmu.Map(pde, va, pa, usr, wtb);
      locked := false;
      ghost var w := Entry(pa, usr, wtb);
      if !NotLarge(mem, d, va) {
        if err == E_OK && Frame(At(mem, d, DirIdx(va))) != d { LargePageWalk(mem, d, va, w); }
      } else if err == E_OK {
        forall vb | 0 <= vb < ADDRESSES
          ensures Walk(mmu.words[..], d, vb) ==
                  if SamePage(va, vb) then Walk(mmu.words[..], d, va) else Walk(mem, d, vb)
        {
          SetEntryWalk(mem1, d, va, w, vb);
          SetEntryWalk(mem1, d, va, w, va);
        }
        SetEntryWalk(mem1, d, va, w, va);
      }
    }

    /** ptb_unmap: the answer only says whether there is a table. */
    method Unmap(mmu: Mmu, va: nat) returns (err: Error)
      requires Shape(mmu.words[..]) && !locked && va < ADDRESSES && va % PAGE == 0
      modifies this`locked, mmu.words
      ensures Shape(mmu.words[..]) && !locked
      ensures err == if P(At(mmu.words[..], Frame(pde), DirIdx(va))) then E_OK else E_NOTFOUND
      ensures var mem := old(mmu.words[..]);
              var e := At(mem, Frame(pde), DirIdx(va));
              && mmu.words[..] == (if P(e) && P(At(mem, Frame(e), TabIdx(va))) then Set(mem, Frame(e), TabIdx(va), 0) else mem)
              && (Separate(mem, Frame(pde)) && NotLarge(mem, Frame(pde), va) ==>
                    && Valid(mmu.words[..]) && (err == E_OK <==> P(e))
                    && Remapped(mem, mmu.words[..], Frame(pde), va, Absent))
    {
      ghost var d, mem := Frame(pde), mmu.words[..];
      locked := true;
      err := mmu.Unmap(pde, va);
      if Separate(mem, d) && NotLarge(mem, d, va) {
        forall vb | 0 <= vb < ADDRESSES
          ensures Walk(mmu.words[..], d, vb) == if SamePage(va, vb) then Absent else Walk(mem, d, vb)
        {
          if err == E_OK {
            SetEntryWalk(mem, d, va, 0, vb);
          } else if SamePage(va, vb) {
            SamePageWalk(mem, d, va, vb);
          }
        }
        if err == E_OK { SetEntryWalk(mem, d, va, 0, va); }
      }
      var pte := mmu.GetEntry(pde, DirIdx(va));
      err := if P(pte) then E_OK else E_NOTFOUND;
      locked := false;
    }

    /** ptb_setup: a new address space has the kernel's half of the kernel directory and nothing else. */
    method Setup(mmu: Mmu, kpde: nat, page: Option<nat>) returns (err: Error)
      requires MemOk(mmu.words[..]) && kpde % PAGE == 0 && kpde < ADDRESSES && Frame(kpde) < FRAMES
      requires GoodPage(mmu.words[..], Frame(kpde), page)
      modifies this, mmu.words
      ensures MemOk(mmu.words[..]) && err == if page.Some? then E_OK else E_NOMEM
      ensures err != E_OK ==> mmu.words[..] == old(mmu.words[..]) && pde == old(pde) && locked == old(locked)
      ensures err == E_OK ==> !locked && pde == page.v && Frame(pde) < FRAMES
      ensures err == E_OK ==> SameOutside(old(mmu.words[..]), mmu.words[..], Frame(page.v))
      ensures err == E_OK ==> forall va :: 0 <= va < ADDRESSES ==>
        (Walk(mmu.words[..], Frame(page.v), va) == if va < KERN_BASE then Absent else Walk(old(mmu.words[..]), Frame(kpde), va))
      ensures forall va :: 0 <= va < ADDRESSES ==>
        Walk(mmu.words[..], Frame(kpde), va) == Walk(old(mmu.words[..]), Frame(kpde), va)
      ensures err == E_OK && Separate(old(mmu.words[..]), Frame(kpde)) ==> Valid(mmu.words[..])
    {
      if page.None? { return E_NOMEM; }
      ghost var mem, kd, d := mmu.words[..], Frame(kpde), Frame(page.v);
      mmu.PpClean(page.v);
      locked := false;
      pde := page.v;
      ghost var mem1 := mmu.words[..];
      mmu.SyncKernSpace(kpde, pde, KERN_BASE, ADDRESSES - KERN_BASE);
      ghost var mem2 := mmu.words[..];
      assert SameOutside(mem, mem2, d);
      forall va | 0 <= va < ADDRESSES ensures Walk(mem2, kd, va) == Walk(mem, kd, va) {
        UnusedWalk(mem, mem2, kd, d, va);
      }
      forall i | 0 <= i < ENTRIES ensures At(mem2, d, i) == if i < KERN_ENTRY then 0 else At(mem, kd, i) {
      }
      forall va | 0 <= va < ADDRESSES
        ensures Walk(mem2, d, va) == if va < KERN_BASE then Absent else Walk(mem, kd, va)
      {
        assert va < KERN_BASE <==> DirIdx(va) < KERN_ENTRY;
      }
      return E_OK;
    }

    /** ptb_fork: the page is not cleaned, so the user's half of the directory holds what was in it. */
    method Fork(mmu: Mmu, kpde: nat, page: Option<nat>) returns (err: Error)
      requires MemOk(mmu.words[..]) && kpde % PAGE == 0 && kpde < ADDRESSES && Frame(kpde) < FRAMES
      requires GoodPage(mmu.words[..], Frame(kpde), page)
      modifies this, mmu.words
      ensures MemOk(mmu.words[..]) && err == if page.Some? then E_OK else E_NOMEM
      ensures err != E_OK ==> mmu.words[..] == old(mmu.words[..]) && pde == old(pde) && locked == old(locked)
      ensures err == E_OK ==> !locked && pde == page.v && Frame(page.v) < FRAMES
      ensures err == E_OK ==> SameOutside(old(mmu.words[..]), mmu.words[..], Frame(page.v))
      ensures err == E_OK ==> forall i :: 0 <= i < ENTRIES ==>
        (At(mmu.words[..], Frame(page.v), i) ==
         At(old(mmu.words[..]), if i < KERN_ENTRY then Frame(page.v) else Frame(kpde), i))
      ensures err == E_OK ==> forall va :: KERN_BASE <= va < ADDRESSES ==>
        Walk(mmu.words[..], Frame(page.v), va) == Walk(old(mmu.words[..]), Frame(kpde), va)
    {
      if page.None? { return E_NOMEM; }
      locked, pde := false, page.v;
      ghost var mem := mmu.words[..];
      mmu.SyncKernSpace(kpde, pde, KERN_BASE, ADDRESSES - KERN_BASE);
      return E_OK;
    }
  }

  /** A word that is not present may be any such word. */
  lemma AbsentWord(mem: Mem, f: nat, i: nat, w: nat, d: nat, vb: nat)
    requires MemOk(mem) && f < FRAMES && i < ENTRIES && w < ADDRESSES && d < FRAMES && vb < ADDRESSES
    requires !P(At(mem, f, i)) && !P(w)
    ensures Walk(Set(mem, f, i, w), d, vb) == Walk(mem, d, vb)
    ensures Separate(mem, d) ==> Separate(Set(mem, f, i, w), d)
  {
  }

  /** Unmapping undoes mapping, inside a large page too: every address translates as before both. */
  method MapThenUnmap(mmu: Mmu, ptb: Ptb, va: nat, pa: nat, usr: bool, wtb: bool, page: Option<nat>) returns (err: Error)
    requires ptb.Valid(mmu.words[..]) && !ptb.locked && va < ADDRESSES && pa < ADDRESSES && va % PAGE == 0 && pa % PAGE == 0
    requires GoodPage(mmu.words[..], Frame(ptb.pde), page)
    modifies ptb`locked, mmu.words
    ensures ptb.Valid(mmu.words[..])
    ensures forall vb :: 0 <= vb < ADDRESSES ==>
      Walk(mmu.words[..], Frame(ptb.pde), vb) == Walk(old(mmu.words[..]), Frame(ptb.pde), vb)
  {
    ghost var d, mem := Frame(ptb.pde), mmu.words[..];
    ghost var large := !NotLarge(mem, d, va);
    ghost var f, i := Frame(At(mem, d, DirIdx(va))), TabIdx(va);
    hide Walk, Separate, SamePage, NotLarge;
    err := ptb.Map(mmu, va, pa, usr, wtb, page);
    if err == E_OK {
      ghost var mem1 := mmu.words[..];
      var e := ptb.Unmap(mmu, va);
      if large {
        LargeUndone(mem, mem1, mmu.words[..], d, va, Entry(pa, usr, wtb));
        AbsentWord(mem, f, i, 0, d, va);
      }
      forall vb | 0 <= vb < ADDRESSES ensures Walk(mmu.words[..], d, vb) == Walk(mem, d, vb) {
        if large {
          AbsentWord(mem, f, i, 0, d, vb);
        } else if SamePage(va, vb) {
          SamePageWalk(mem, d, va, vb);
        }
      }
    }
  }

  /** Writing a word over an absent one and 0 over that. */
  lemma LargeUndone(mem: Mem, mem1: Mem, mem2: Mem, d: nat, va: nat, w: nat)
    requires MemOk(mem) && d < FRAMES && va < ADDRESSES && w < ADDRESSES && P(w) && P(At(mem, d, DirIdx(va)))
    requires var f, i := Frame(At(mem, d, DirIdx(va))), TabIdx(va);
             !P(At(mem, f, i)) && mem1 == Set(mem, f, i, w)
    requires var e := At(mem1, d, DirIdx(va));
             mem2 == if P(e) && P(At(mem1, Frame(e), TabIdx(va))) then Set(mem1, Frame(e), TabIdx(va), 0) else mem1
    ensures mem2 == Set(mem, Frame(At(mem, d, DirIdx(va))), TabIdx(va), 0)
  {
    assert At(mem1, d, DirIdx(va)) == At(mem, d, DirIdx(va));
  }
}
