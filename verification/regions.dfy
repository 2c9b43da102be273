/** The per-process region allocator of libmem.c: a fixed-size symbol table of
    [start, end) ranges, and one virtual memory area with a break pointer
    ("sbrk") that only grows and a free-region list kept head first.

    The process's first area (mm->mmap) is the only one modelled: liballoc and
    libfree always pass area 0, the kill path passes mm->mmap->vm_id, and
    enlist_vm_freerg_list always pushes onto mm->mmap's list. */
module Regions {
  import opened Config

  /** A symbol-table entry or a free-list node: the byte range [start, end). */
  datatype Region = Region(start: int, end: int)

  /** A symbol-table entry is bound exactly when its range is non-empty. */
  predicate Bound(r: Region)
  {
    r.start < r.end
  }

  function Len(r: Region): int
  {
    r.end - r.start
  }

  predicate InRegion(r: Region, a: int)
  {
    r.start <= a < r.end
  }

  predicate Disjoint(a: Region, b: Region)
  {
    a.end <= b.start || b.end <= a.start
  }

  /** The unbound entry a freed symbol-table slot is reset to. */
  const Unbound := Region(0, 0)

  /** A virtual memory area: its id, break pointer, the ceiling that
      inc_vma_limit lets the break grow to, and the free-region list. */
  datatype Vma = Vma(id: int, sbrk: int, limit: int, freeList: seq<Region>)

  /** The allocator part of a process's mm_struct. */
  datatype AddrSpace = AddrSpace(symtbl: seq<Region>, vma: Vma)

  /** The symbol table is an array of exactly SYMTBL_SZ entries. */
  predicate WellSized(sp: AddrSpace)
  {
    |sp.symtbl| == SYMTBL_SZ
  }

  /** The allocator invariant: live regions are non-empty, lie below the
      break and never overlap; free nodes are non-empty, lie below the break
      and overlap neither each other nor any live region. */
  predicate Valid(sp: AddrSpace)
  {
    var t := sp.symtbl;
    var fl := sp.vma.freeList;
    && WellSized(sp)
    && 0 <= sp.vma.sbrk <= sp.vma.limit
    && (forall i :: 0 <= i < |t| ==> 0 <= t[i].start)
    && (forall i :: 0 <= i < |t| && Bound(t[i]) ==> t[i].end <= sp.vma.sbrk)
    && (forall i, j :: 0 <= i < |t| && 0 <= j < |t| && i != j && Bound(t[i]) && Bound(t[j]) ==>
          Disjoint(t[i], t[j]))
    && (forall k :: 0 <= k < |fl| ==> Bound(fl[k]) && 0 <= fl[k].start && fl[k].end <= sp.vma.sbrk)
    && (forall k, i :: 0 <= k < |fl| && 0 <= i < |t| && Bound(t[i]) ==> Disjoint(fl[k], t[i]))
    && (forall k, l :: 0 <= k < |fl| && 0 <= l < |fl| && k != l ==> Disjoint(fl[k], fl[l]))
  }

  /** enlist_vm_freerg_list: an empty or inverted range is refused (-1) and
      the list is kept; otherwise the range becomes the new head. */
  function EnlistFreeRegion(freeList: seq<Region>, rg: Region): (r: (bool, seq<Region>))
    ensures !r.0 <==> rg.start >= rg.end
    ensures !r.0 ==> r.1 == freeList
    ensures r.0 ==> |r.1| == |freeList| + 1 && r.1[0] == rg && r.1[1..] == freeList
  {
    if rg.start >= rg.end then (false, freeList) else (true, [rg] + freeList)
  }

  /** get_symrg_byid with the bound the table needs: ids 0 .. SYMTBL_SZ - 1. */
  function GetSymRegion(sp: AddrSpace, rgid: int): (r: Option<Region>)
    requires WellSized(sp)
    ensures r.Some? <==> 0 <= rgid < |sp.symtbl|
    ensures r.Some? ==> r.value == sp.symtbl[rgid]
  {
    if rgid < 0 || rgid >= SYMTBL_SZ then None else Some(sp.symtbl[rgid])
  }

  /** get_symrg_byid as written: the guard `rgid > PAGING_MAX_SYMTBL_SZ`
      accepts every id up to and including SYMTBL_SZ; the result is the
      table index it goes on to take the address of. */
  function SymIndexAsWritten(rgid: int): (r: Option<int>)
    ensures r.Some? <==> 0 <= rgid <= SYMTBL_SZ
    ensures r.Some? ==> r.value == rgid
  {
    if rgid < 0 || rgid > SYMTBL_SZ then None else Some(rgid)
  }

  /** The as-written guard hands out index SYMTBL_SZ, one past the table,
      where the corrected lookup refuses it. */
  lemma SymIndexAsWrittenOverruns(sp: AddrSpace)
    requires WellSized(sp)
    ensures SymIndexAsWritten(SYMTBL_SZ) == Some(SYMTBL_SZ)
    ensures SYMTBL_SZ >= |sp.symtbl|
    ensures GetSymRegion(sp, SYMTBL_SZ) == None
  {
  }

  /** get_free_vmrg_area: first fit over the free list, in list order.
      The list itself is not changed. */
  function FirstFit(freeList: seq<Region>, size: int): (r: Option<nat>)
    ensures r.Some? ==> r.value < |freeList| && Len(freeList[r.value]) >= size
    ensures r.Some? ==> forall j :: 0 <= j < r.value ==> Len(freeList[j]) < size
    ensures r.None? ==> forall j :: 0 <= j < |freeList| ==> Len(freeList[j]) < size
  {
    if |freeList| == 0 then None
    else if Len(freeList[0]) >= size then Some(0)
    else
      match FirstFit(freeList[1..], size)
      case None => None
      case Some(i) => Some(i + 1)
  }

  /** A range just enlisted is the first fit for any size it can hold. */
  lemma EnlistThenFirstFit(freeList: seq<Region>, rg: Region, size: int)
    requires Bound(rg) && Len(rg) >= size
    ensures EnlistFreeRegion(freeList, rg).0
    ensures FirstFit(EnlistFreeRegion(freeList, rg).1, size) == Some(0)
  {
  }

  /** What __alloc as written reports: its status, the address it stores
      through alloc_addr (None when it stores nothing), and the new state. */
  datatype AllocOutcome = AllocOutcome(status: int, addr: Option<int>, space: AddrSpace)

  /** __alloc exactly as written: the fitting free node is not detached, the
      slack node starts one byte late, and a refused growth still reports 0. */
  function AllocAsWritten(sp: AddrSpace, vmaid: int, rgid: int, size: nat): (r: AllocOutcome)
    requires WellSized(sp) && 0 <= rgid < SYMTBL_SZ && vmaid == sp.vma.id
    ensures r.status == 0
    ensures FirstFit(sp.vma.freeList, size).Some? ==> r.space.vma == sp.vma
    ensures WellSized(r.space)
  {
    var fl := sp.vma.freeList;
    match FirstFit(fl, size)
    case Some(i) =>
      AllocOutcome(0, Some(fl[i].start), sp.(symtbl := sp.symtbl[rgid := fl[i]]))
    case None =>
      var inc := AlignUp(size);
      var brk := sp.vma.sbrk;
      if brk + inc > sp.vma.limit then AllocOutcome(0, None, sp)
      else
        var fl' := if inc > size then EnlistFreeRegion(fl, Region(brk + size + 1, brk + inc)).1 else fl;
        AllocOutcome(0, Some(brk),
          AddrSpace(sp.symtbl[rgid := Region(brk, brk + size)], sp.vma.(sbrk := brk + inc, freeList := fl')))
  }

  /** __alloc as intended: first fit reuses a free node whole and detaches
      it; otherwise the break grows by the page-aligned size, the region is
      [old break, old break + size), and the slack [old break + size, new
      break) is enlisted; a growth past the ceiling fails. */
  function Alloc(sp: AddrSpace, vmaid: int, rgid: int, size: nat): (r: Result<(int, AddrSpace)>)
    requires WellSized(sp) && 0 <= rgid < SYMTBL_SZ && vmaid == sp.vma.id
    ensures r.Ok? ==> WellSized(r.value.1)
    ensures r.Ok? ==> r.value.1.symtbl[rgid].start == r.value.0 && Len(r.value.1.symtbl[rgid]) >= size
    ensures r.Ok? ==> forall i :: 0 <= i < SYMTBL_SZ && i != rgid ==> r.value.1.symtbl[i] == sp.symtbl[i]
    ensures r.Ok? ==> r.value.1.vma.id == sp.vma.id && r.value.1.vma.limit == sp.vma.limit
    // reuse path
    ensures FirstFit(sp.vma.freeList, size).Some? ==>
              var i := FirstFit(sp.vma.freeList, size).value;
              var fl := sp.vma.freeList;
              && r.Ok?
              && r.value.0 == fl[i].start
              && r.value.1.symtbl[rgid] == fl[i]
              && r.value.1.vma.freeList == fl[..i] + fl[i + 1..]
              && r.value.1.vma.sbrk == sp.vma.sbrk
    // growth path
    ensures FirstFit(sp.vma.freeList, size).None? ==>
              var brk := sp.vma.sbrk;
              var inc := AlignUp(size);
              && (r.Err? <==> brk + inc > sp.vma.limit)
              && (r.Err? ==> r.error == OutOfAddressSpace)
              && (r.Ok? ==>
                    && r.value.0 == brk
                    && r.value.1.symtbl[rgid] == Region(brk, brk + size)
                    && r.value.1.vma.sbrk == brk + inc
                    && r.value.1.vma.freeList ==
                         (if inc > size then [Region(brk + size, brk + inc)] + sp.vma.freeList
                          else sp.vma.freeList))
  {
    var fl := sp.vma.freeList;
    match FirstFit(fl, size)
    case Some(i) =>
      Ok((fl[i].start, AddrSpace(sp.symtbl[rgid := fl[i]], sp.vma.(freeList := fl[..i] + fl[i + 1..]))))
    case None =>
      var inc := AlignUp(size);
      var brk := sp.vma.sbrk;
      if brk + inc > sp.vma.limit then Err(OutOfAddressSpace)
      else
        var fl' := if inc > size then EnlistFreeRegion(fl, Region(brk + size, brk + inc)).1 else fl;
        Ok((brk, AddrSpace(sp.symtbl[rgid := Region(brk, brk + size)], sp.vma.(sbrk := brk + inc, freeList := fl'))))
  }

  /** __free: an id outside the table, an unbound entry or an unknown area
      fails with the state unchanged; otherwise the entry's range goes to the
      head of the free list and the entry is reset to [0, 0). */
  function Free(sp: AddrSpace, vmaid: int, rgid: int): (r: Result<AddrSpace>)
    requires WellSized(sp)
    ensures r.Err? <==> !(0 <= rgid < SYMTBL_SZ) || !Bound(sp.symtbl[rgid]) || vmaid != sp.vma.id
    ensures !(0 <= rgid < SYMTBL_SZ) ==> r == Err(InvalidRegionId)
    ensures 0 <= rgid < SYMTBL_SZ && !Bound(sp.symtbl[rgid]) ==> r == Err(RegionNotAllocated)
    ensures r.Ok? ==>
              && WellSized(r.value)
              && r.value.symtbl == sp.symtbl[rgid := Unbound]
              && r.value.vma == sp.vma.(freeList := [sp.symtbl[rgid]] + sp.vma.freeList)
  {
    if rgid < 0 || rgid >= SYMTBL_SZ then Err(InvalidRegionId)
    else
      var rg := sp.symtbl[rgid];
      if rg.start >= rg.end then Err(RegionNotAllocated)
      else if vmaid != sp.vma.id then Err(InvalidArea)
      else
        var fl' := EnlistFreeRegion(sp.vma.freeList, rg).1;
        Ok(AddrSpace(sp.symtbl[rgid := Unbound], sp.vma.(freeList := fl')))
  }

  /** liballoc: __alloc on area 0. */
  function LibAlloc(sp: AddrSpace, size: nat, regIndex: nat): (r: Result<(int, AddrSpace)>)
    requires WellSized(sp) && sp.vma.id == 0 && regIndex < SYMTBL_SZ
    ensures r.Ok? ==> WellSized(r.value.1) && r.value.1.symtbl[regIndex].start == r.value.0
    ensures r.Ok? ==> Len(r.value.1.symtbl[regIndex]) >= size
    ensures r.Err? ==> r.error == OutOfAddressSpace
  {
    Alloc(sp, 0, regIndex, size)
  }

  /** libfree: __free on area 0. When the process's one modelled area has
      id 0, only the region id and its binding decide; otherwise the area
      lookup fails. */
  function LibFree(sp: AddrSpace, regIndex: nat): (r: Result<AddrSpace>)
    requires WellSized(sp)
    ensures r.Ok? <==> regIndex < SYMTBL_SZ && Bound(sp.symtbl[regIndex]) && sp.vma.id == 0
    ensures regIndex < SYMTBL_SZ && Bound(sp.symtbl[regIndex]) && sp.vma.id != 0 ==> r == Err(InvalidArea)
  {
    Free(sp, 0, regIndex)
  }

  /** Alloc keeps the allocator invariant. */
  lemma AllocPreservesValid(sp: AddrSpace, vmaid: int, rgid: int, size: nat)
    requires Valid(sp) && 0 <= rgid < SYMTBL_SZ && vmaid == sp.vma.id
    requires Alloc(sp, vmaid, rgid, size).Ok?
    ensures Valid(Alloc(sp, vmaid, rgid, size).value.1)
  {
    var fl := sp.vma.freeList;
    var sp' := Alloc(sp, vmaid, rgid, size).value.1;
    match FirstFit(fl, size)
    case Some(i) =>
      ReuseKeepsValid(sp, rgid, i);
      assert sp' == AddrSpace(sp.symtbl[rgid := fl[i]], sp.vma.(freeList := fl[..i] + fl[i + 1..]));
    case None =>
      GrowthKeepsValid(sp, rgid, size);
      var brk, inc := sp.vma.sbrk, AlignUp(size);
      var fl' := if inc > size then [Region(brk + size, brk + inc)] + fl else fl;
      assert sp' == AddrSpace(sp.symtbl[rgid := Region(brk, brk + size)], sp.vma.(sbrk := brk + inc, freeList := fl'));
  }

  /** Binding entry `rgid` to free node `i` and detaching that node. */
  lemma ReuseKeepsValid(sp: AddrSpace, rgid: int, i: nat)
    requires Valid(sp) && 0 <= rgid < SYMTBL_SZ && i < |sp.vma.freeList|
    ensures var fl := sp.vma.freeList;
            Valid(AddrSpace(sp.symtbl[rgid := fl[i]], sp.vma.(freeList := fl[..i] + fl[i + 1..])))
  {
    var t, fl := sp.symtbl, sp.vma.freeList;
    var t' := t[rgid := fl[i]];
    var fl' := fl[..i] + fl[i + 1..];
    var sp' := AddrSpace(t', sp.vma.(freeList := fl'));
    assert |fl'| == |fl| - 1;
    forall k | 0 <= k < |fl'|
      ensures fl'[k] == fl[if k < i then k else k + 1]
    {
    }
    forall x, y | 0 <= x < |t'| && 0 <= y < |t'| && x != y && Bound(t'[x]) && Bound(t'[y])
      ensures Disjoint(t'[x], t'[y])
    {
      if x == rgid {
        assert Disjoint(fl[i], t[y]);
      } else if y == rgid {
        assert Disjoint(fl[i], t[x]);
      }
    }
    forall k, x | 0 <= k < |fl'| && 0 <= x < |t'| && Bound(t'[x])
      ensures Disjoint(fl'[k], t'[x])
    {
      var src := if k < i then k else k + 1;
      if x == rgid {
        assert Disjoint(fl[src], fl[i]);
      } else {
        assert Disjoint(fl[src], t[x]);
      }
    }
    forall k, l | 0 <= k < |fl'| && 0 <= l < |fl'| && k != l
      ensures Disjoint(fl'[k], fl'[l])
    {
      var sk := if k < i then k else k + 1;
      var sl := if l < i then l else l + 1;
      assert Disjoint(fl[sk], fl[sl]);
    }
  }

  /** Binding entry `rgid` to [brk, brk + size) and enlisting the slack
      [brk + size, brk + AlignUp(size)) above the old break. */
  lemma GrowthKeepsValid(sp: AddrSpace, rgid: int, size: nat)
    requires Valid(sp) && 0 <= rgid < SYMTBL_SZ
    requires sp.vma.sbrk + AlignUp(size) <= sp.vma.limit
    ensures var brk, inc := sp.vma.sbrk, AlignUp(size);
            var fl' := if inc > size then [Region(brk + size, brk + inc)] + sp.vma.freeList else sp.vma.freeList;
            Valid(AddrSpace(sp.symtbl[rgid := Region(brk, brk + size)], sp.vma.(sbrk := brk + inc, freeList := fl')))
  {
    var t, fl := sp.symtbl, sp.vma.freeList;
    var brk, inc := sp.vma.sbrk, AlignUp(size);
    var t' := t[rgid := Region(brk, brk + size)];
    var fl' := if inc > size then [Region(brk + size, brk + inc)] + fl else fl;
    var shift := if inc > size then 1 else 0;
    assert |fl'| == |fl| + shift;
    forall k | shift <= k < |fl'|
      ensures fl'[k] == fl[k - shift]
    {
    }
    forall x, y | 0 <= x < |t'| && 0 <= y < |t'| && x != y && Bound(t'[x]) && Bound(t'[y])
      ensures Disjoint(t'[x], t'[y])
    {
    }
    forall k, x | 0 <= k < |fl'| && 0 <= x < |t'| && Bound(t'[x])
      ensures Disjoint(fl'[k], t'[x])
    {
      if k >= shift {
        assert Bound(fl[k - shift]);
      }
    }
    forall k, l | 0 <= k < |fl'| && 0 <= l < |fl'| && k != l
      ensures Disjoint(fl'[k], fl'[l])
    {
      if k >= shift && l >= shift {
        assert Disjoint(fl[k - shift], fl[l - shift]);
      } else if k >= shift {
        assert Bound(fl[k - shift]);
      } else if l >= shift {
        assert Bound(fl[l - shift]);
      }
    }
  }

  /** Free keeps the allocator invariant. */
  lemma FreePreservesValid(sp: AddrSpace, vmaid: int, rgid: int)
    requires Valid(sp)
    requires Free(sp, vmaid, rgid).Ok?
    ensures Valid(Free(sp, vmaid, rgid).value)
  {
    var sp' := Free(sp, vmaid, rgid).value;
    var fl, fl' := sp.vma.freeList, sp'.vma.freeList;
    forall k | 0 < k < |fl'|
      ensures fl'[k] == fl[k - 1]
    {
    }
  }

  /** A second free of the same id fails: the first one unbound it. */
  lemma FreeTwiceFails(sp: AddrSpace, vmaid: int, rgid: int)
    requires WellSized(sp)
    requires Free(sp, vmaid, rgid).Ok?
    ensures Free(Free(sp, vmaid, rgid).value, vmaid, rgid) == Err(RegionNotAllocated)
  {
  }

  /** Freeing a region and then allocating at most its size reuses its
      range and leaves the break where it was. */
  lemma FreeThenAllocReuses(sp: AddrSpace, vmaid: int, a: int, b: int, size: nat)
    requires WellSized(sp) && 0 <= b < SYMTBL_SZ
    requires Free(sp, vmaid, a).Ok?
    requires size <= Len(sp.symtbl[a])
    ensures var sp1 := Free(sp, vmaid, a).value;
            var r := Alloc(sp1, vmaid, b, size);
            && r.Ok?
            && r.value.0 == sp.symtbl[a].start
            && r.value.1.symtbl[b] == sp.symtbl[a]
            && r.value.1.vma.sbrk == sp.vma.sbrk
  {
  }

  /** A successful growth covers the whole page-aligned extension: every
      address between the brk and the new break is in the new region or in
      the enlisted slack. */
  lemma AllocGrowthCoversExtension(sp: AddrSpace, vmaid: int, rgid: int, size: nat, a: int)
    requires WellSized(sp) && 0 <= rgid < SYMTBL_SZ && vmaid == sp.vma.id
    requires FirstFit(sp.vma.freeList, size).None?
    requires Alloc(sp, vmaid, rgid, size).Ok?
    requires sp.vma.sbrk <= a < Alloc(sp, vmaid, rgid, size).value.1.vma.sbrk
    ensures var sp' := Alloc(sp, vmaid, rgid, size).value.1;
            InRegion(sp'.symtbl[rgid], a) || InRegion(sp'.vma.freeList[0], a)
  {
  }

  /** As written, the growth path loses the byte at old break + size: it is
      neither in the new region nor in any free node, yet below the new break. */
  lemma AllocAsWrittenLosesSlackByte(sp: AddrSpace, vmaid: int, rgid: int, size: nat)
    requires Valid(sp) && 0 <= rgid < SYMTBL_SZ && vmaid == sp.vma.id
    requires FirstFit(sp.vma.freeList, size).None?
    requires sp.vma.sbrk + AlignUp(size) <= sp.vma.limit
    requires AlignUp(size) > size
    ensures var r := AllocAsWritten(sp, vmaid, rgid, size);
            var a := sp.vma.sbrk + size;
            && a < r.space.vma.sbrk
            && !InRegion(r.space.symtbl[rgid], a)
            && forall k :: 0 <= k < |r.space.vma.freeList| ==> !InRegion(r.space.vma.freeList[k], a)
  {
    var r := AllocAsWritten(sp, vmaid, rgid, size);
    var fl := sp.vma.freeList;
    var fl' := r.space.vma.freeList;
    var a := sp.vma.sbrk + size;
    forall k | 0 <= k < |fl'|
      ensures !InRegion(fl'[k], a)
    {
      if |fl'| == |fl| + 1 {
        if k > 0 {
          assert fl'[k] == fl[k - 1];
        }
      } else {
        assert fl'[k] == fl[k];
      }
    }
  }

  /** As written, a refused growth still reports success (status 0) while
      binding nothing and storing no address. */
  lemma AllocAsWrittenHidesGrowthFailure(sp: AddrSpace, vmaid: int, rgid: int, size: nat)
    requires WellSized(sp) && 0 <= rgid < SYMTBL_SZ && vmaid == sp.vma.id
    requires FirstFit(sp.vma.freeList, size).None?
    requires sp.vma.sbrk + AlignUp(size) > sp.vma.limit
    ensures AllocAsWritten(sp, vmaid, rgid, size) == AllocOutcome(0, None, sp)
    ensures Alloc(sp, vmaid, rgid, size) == Err(OutOfAddressSpace)
  {
  }

  /** An empty symbol table over one free page. */
  function OnePageFree(): AddrSpace
  {
    AddrSpace(seq(SYMTBL_SZ, _ => Unbound), Vma(0, PAGE_SIZE, 4 * PAGE_SIZE, [Region(0, PAGE_SIZE)]))
  }

  /** As written, the free node is not detached, so two allocations of ten
      bytes both receive [0, 256): two live regions overlap, which the
      corrected Alloc rules out. */
  lemma AllocAsWrittenHandsOutTwice()
    ensures Valid(OnePageFree())
    ensures var r1 := AllocAsWritten(OnePageFree(), 0, 0, 10);
            var r2 := AllocAsWritten(r1.space, 0, 1, 10);
            && r2.space.symtbl[0] == r2.space.symtbl[1] == Region(0, PAGE_SIZE)
            && !Valid(r2.space)
    ensures var r1 := Alloc(OnePageFree(), 0, 0, 10);
            r1.Ok? && r1.value.1.vma.freeList == []
  {
    var sp := OnePageFree();
    assert FirstFit(sp.vma.freeList, 10) == Some(0);
    var r1 := AllocAsWritten(sp, 0, 0, 10);
    assert r1.space.vma == sp.vma;
    var r2 := AllocAsWritten(r1.space, 0, 1, 10);
    assert r2.space.symtbl[0] == r2.space.symtbl[1];
    assert !Disjoint(r2.space.symtbl[0], r2.space.symtbl[1]);
  }
}
