/** Region reads and writes of libmem.c: __read and __write look the region
    id up in the symbol table and the area id up among the process's areas,
    then read or write one byte at the region's start plus the offset
    through the paging layer; libread and libwrite call them on area 0.
    Neither checks that the region is bound or that the offset stays inside
    it: the address is simply start + offset. */
module VmAccess {
  import opened Config
  import opened Regions
  import opened Paging

  /** What an access needs of the symbol table: the right size, and no
      entry starting below address 0. Overlapping or repeated regions, as
      the allocator produces as written, are allowed. */
  predicate Addressable(sp: AddrSpace)
  {
    WellSized(sp) && forall i :: 0 <= i < SYMTBL_SZ ==> 0 <= sp.symtbl[i].start
  }

  /** The virtual address an access to `rg` at `offset` goes to. */
  function AccessAddr(rg: Region, offset: nat): (r: nat)
    requires 0 <= rg.start
    ensures r - offset == rg.start
  {
    rg.start + offset
  }

  /** Why __read and __write refuse before touching memory: an id outside
      the symbol table, or an area id that names no area. */
  function Lookup(sp: AddrSpace, vmaid: int, rgid: int): (r: Result<Region>)
    requires WellSized(sp)
    ensures r.Ok? <==> 0 <= rgid < SYMTBL_SZ && vmaid == sp.vma.id
    ensures r.Ok? ==> r.value == sp.symtbl[rgid]
    ensures r.Err? ==> r.error == (if 0 <= rgid < SYMTBL_SZ then InvalidArea else InvalidRegionId)
  {
    match GetSymRegion(sp, rgid)
    case None => Err(InvalidRegionId)
    case Some(rg) => if vmaid != sp.vma.id then Err(InvalidArea) else Ok(rg)
  }

  /** __read as written: once the lookup succeeds it reports success (0)
      whatever pg_getval returned, so a read whose page access failed
      comes back as a success with no byte and the paging state as it
      was. */
  function RegionReadAsWritten(sp: AddrSpace, pg: PagingState, vmaid: int, rgid: int, offset: nat)
    : (r: Result<(Option<byte>, PagingState)>)
    requires Addressable(sp) && FifoResident(pg)
    ensures r.Err? <==> Lookup(sp, vmaid, rgid).Err?
    ensures r.Ok? ==>
              var addr := AccessAddr(sp.symtbl[rgid], offset);
              && (r.value.0.Some? <==> PgGetVal(pg, addr).Ok?)
              && (r.value.0.None? ==> r.value.1 == pg)
  {
    match Lookup(sp, vmaid, rgid)
    case Err(e) => Err(e)
    case Ok(rg) =>
      match PgGetVal(pg, AccessAddr(rg, offset))
      case Err(_) => Ok((None, pg))
      case Ok((v, pg')) => Ok((Some(v), pg'))
  }

  /** __read as intended: a failed page access is reported as a failure. */
  function RegionRead(sp: AddrSpace, pg: PagingState, vmaid: int, rgid: int, offset: nat)
    : (r: Result<(byte, PagingState)>)
    requires Addressable(sp) && FifoResident(pg)
    ensures r.Err? <==> Lookup(sp, vmaid, rgid).Err? || PgGetVal(pg, AccessAddr(sp.symtbl[rgid], offset)).Err?
    ensures Lookup(sp, vmaid, rgid).Err? ==> r == Err(Lookup(sp, vmaid, rgid).error)
  {
    match Lookup(sp, vmaid, rgid)
    case Err(e) => Err(e)
    case Ok(rg) => PgGetVal(pg, AccessAddr(rg, offset))
  }

  /** __write as written: success (0) once the lookup succeeds, even when
      pg_setval could not bring the page in and nothing was written. */
  function RegionWriteAsWritten(sp: AddrSpace, pg: PagingState, vmaid: int, rgid: int, offset: nat, v: byte)
    : (r: Result<PagingState>)
    requires Addressable(sp) && FifoResident(pg)
    ensures r.Err? <==> Lookup(sp, vmaid, rgid).Err?
    ensures r.Ok? && PgSetVal(pg, AccessAddr(sp.symtbl[rgid], offset), v).Err? ==> r.value == pg
  {
    match Lookup(sp, vmaid, rgid)
    case Err(e) => Err(e)
    case Ok(rg) =>
      match PgSetVal(pg, AccessAddr(rg, offset), v)
      case Err(_) => Ok(pg)
      case Ok(pg') => Ok(pg')
  }

  /** __write as intended: a failed page access is reported as a failure. */
  function RegionWrite(sp: AddrSpace, pg: PagingState, vmaid: int, rgid: int, offset: nat, v: byte)
    : (r: Result<PagingState>)
    requires Addressable(sp) && FifoResident(pg)
    ensures r.Err? <==> Lookup(sp, vmaid, rgid).Err? || PgSetVal(pg, AccessAddr(sp.symtbl[rgid], offset), v).Err?
    ensures Lookup(sp, vmaid, rgid).Err? ==> r == Err(Lookup(sp, vmaid, rgid).error)
  {
    match Lookup(sp, vmaid, rgid)
    case Err(e) => Err(e)
    case Ok(rg) => PgSetVal(pg, AccessAddr(rg, offset), v)
  }

  /** The two versions of __read agree whenever the page access succeeds,
      and the as-written one turns every page fault it cannot serve into
      a success without a byte. */
  lemma ReadAsWrittenAgrees(sp: AddrSpace, pg: PagingState, vmaid: int, rgid: int, offset: nat)
    requires Addressable(sp) && FifoResident(pg)
    ensures var w := RegionReadAsWritten(sp, pg, vmaid, rgid, offset);
            var r := RegionRead(sp, pg, vmaid, rgid, offset);
            && (r.Ok? <==> w.Ok? && w.value.0.Some?)
            && (r.Ok? ==> w.value == (Some(r.value.0), r.value.1))
            && (Lookup(sp, vmaid, rgid).Ok? && r.Err? ==> w == Ok((None, pg)))
  {
  }

  /** One region [0, 10) bound at id 0, and a paging state with no page
      mapped at all. */
  function OneRegion(): (r: AddrSpace)
    ensures Valid(r) && r.symtbl[0] == Region(0, 10) && r.vma.id == 0
  {
    AddrSpace(seq(SYMTBL_SZ, i => if i == 0 then Region(0, 10) else Unbound), Vma(0, 10, 10, []))
  }

  function NoPages(): (r: PagingState)
    ensures Inv(r) && r.pgd == map[]
  {
    PagingState(map[], [], PhysMem.Store(map[], []), PhysMem.Store(map[], []))
  }

  /** Reading and writing an allocated region whose page was never mapped:
      as written both report success (status 0), the read without a byte
      and the write without writing; as intended both fail with an invalid
      page. */
  lemma AccessAsWrittenHidesFault(v: byte)
    ensures RegionReadAsWritten(OneRegion(), NoPages(), 0, 0, 3) == Ok((None, NoPages()))
    ensures RegionWriteAsWritten(OneRegion(), NoPages(), 0, 0, 3, v) == Ok(NoPages())
    ensures RegionRead(OneRegion(), NoPages(), 0, 0, 3) == Err(InvalidPage)
    ensures RegionWrite(OneRegion(), NoPages(), 0, 0, 3, v) == Err(InvalidPage)
  {
    assert AccessAddr(OneRegion().symtbl[0], 3) / PAGE_SIZE == 0;
  }

  /** A successful region read returns the byte the process sees at that
      address, keeps the paging invariant and changes no byte the process
      sees. */
  lemma {:induction false} ReadSeesView(sp: AddrSpace, pg: PagingState, vmaid: int, rgid: int, offset: nat)
    requires Addressable(sp) && Inv(pg)
    requires RegionRead(sp, pg, vmaid, rgid, offset).Ok?
    ensures 0 <= rgid < SYMTBL_SZ
    ensures var addr := AccessAddr(sp.symtbl[rgid], offset);
            var (v, pg') := RegionRead(sp, pg, vmaid, rgid, offset).value;
            && addr / PAGE_SIZE in pg.pgd
            && v == VRead(pg, addr / PAGE_SIZE, addr % PAGE_SIZE)
            && Inv(pg') && SameView(pg, pg')
  {
    GetValReadsView(pg, AccessAddr(sp.symtbl[rgid], offset));
  }

  /** A successful region write changes the byte the process sees at that
      address to the value written, and no other byte. */
  lemma {:induction false} WriteChangesOneByte(sp: AddrSpace, pg: PagingState, vmaid: int, rgid: int, offset: nat, v: byte)
    requires Addressable(sp) && Inv(pg)
    requires RegionWrite(sp, pg, vmaid, rgid, offset, v).Ok?
    ensures 0 <= rgid < SYMTBL_SZ
    ensures var addr := AccessAddr(sp.symtbl[rgid], offset);
            var pg' := RegionWrite(sp, pg, vmaid, rgid, offset, v).value;
            && Inv(pg') && pg'.pgd.Keys == pg.pgd.Keys
            && VRead(pg', addr / PAGE_SIZE, addr % PAGE_SIZE) == v
            && forall p, off :: p in pg.pgd && 0 <= off < PAGE_SIZE && (p, off) != (addr / PAGE_SIZE, addr % PAGE_SIZE) ==>
                 VRead(pg', p, off) == VRead(pg, p, off)
  {
    SetValWritesView(pg, AccessAddr(sp.symtbl[rgid], offset), v);
  }

  /** Reading back what was just written to a region returns it, and the
      read leaves the paging state as the write left it. */
  lemma {:induction false} WriteThenRead(sp: AddrSpace, pg: PagingState, vmaid: int, rgid: int, offset: nat, v: byte)
    requires Addressable(sp) && Inv(pg)
    requires RegionWrite(sp, pg, vmaid, rgid, offset, v).Ok?
    ensures Inv(RegionWrite(sp, pg, vmaid, rgid, offset, v).value)
    ensures var pg' := RegionWrite(sp, pg, vmaid, rgid, offset, v).value;
            RegionRead(sp, pg', vmaid, rgid, offset) == Ok((v, pg'))
  {
    SetThenGet(pg, AccessAddr(sp.symtbl[rgid], offset), v);
  }

  /** The table the allocator leaves as written after two ten-byte
      allocations from one free page: ids 0 and 1 share [0, 256). Accesses
      still work on it, and a byte written through id 0 is read back through
      id 1, so the two variables alias. */
  lemma {:induction false} AsWrittenTableAliases(pg: PagingState, offset: nat, v: byte)
    requires Inv(pg)
    requires var sp := AllocAsWritten(AllocAsWritten(OnePageFree(), 0, 0, 10).space, 0, 1, 10).space;
             Addressable(sp) && RegionWrite(sp, pg, 0, 0, offset, v).Ok?
    ensures var sp := AllocAsWritten(AllocAsWritten(OnePageFree(), 0, 0, 10).space, 0, 1, 10).space;
            var pg' := RegionWrite(sp, pg, 0, 0, offset, v).value;
            !Valid(sp) && RegionRead(sp, pg', 0, 1, offset) == Ok((v, pg'))
  {
    AllocAsWrittenHandsOutTwice();
    var sp := AllocAsWritten(AllocAsWritten(OnePageFree(), 0, 0, 10).space, 0, 1, 10).space;
    WriteThenRead(sp, pg, 0, 0, offset, v);
    var pg' := RegionWrite(sp, pg, 0, 0, offset, v).value;
    assert RegionRead(sp, pg', 0, 1, offset) == RegionRead(sp, pg', 0, 0, offset);
  }

  /** libread: __read on area 0. The byte read is never stored into the
      destination register, so only the status (as the paging state after
      the access, or the error) comes out. */
  function LibRead(sp: AddrSpace, pg: PagingState, source: int, offset: nat): (r: Result<PagingState>)
    requires Addressable(sp) && FifoResident(pg)
    ensures !(0 <= source < SYMTBL_SZ) ==> r == Err(InvalidRegionId)
    ensures 0 <= source < SYMTBL_SZ && sp.vma.id != 0 ==> r == Err(InvalidArea)
    ensures 0 <= source < SYMTBL_SZ && sp.vma.id == 0 ==>
              var g := PgGetVal(pg, AccessAddr(sp.symtbl[source], offset));
              && (r.Ok? <==> g.Ok?)
              && (r.Ok? ==> r.value == g.value.1)
  {
    match RegionRead(sp, pg, 0, source, offset)
    case Err(e) => Err(e)
    case Ok((_, pg')) => Ok(pg')
  }

  /** libwrite: __write on area 0. */
  function LibWrite(sp: AddrSpace, pg: PagingState, v: byte, destination: int, offset: nat): (r: Result<PagingState>)
    requires Addressable(sp) && FifoResident(pg)
    ensures !(0 <= destination < SYMTBL_SZ) ==> r == Err(InvalidRegionId)
    ensures 0 <= destination < SYMTBL_SZ && sp.vma.id != 0 ==> r == Err(InvalidArea)
    ensures 0 <= destination < SYMTBL_SZ && sp.vma.id == 0 ==>
              r == PgSetVal(pg, AccessAddr(sp.symtbl[destination], offset), v)
  {
    RegionWrite(sp, pg, 0, destination, offset, v)
  }

  /** libread and libwrite fail on an id outside the symbol table whatever
      the paging state holds. */
  lemma LibAccessRejectsBadId(sp: AddrSpace, pg: PagingState, id: int, offset: nat, v: byte)
    requires Addressable(sp) && FifoResident(pg)
    requires id < 0 || id >= SYMTBL_SZ
    ensures LibRead(sp, pg, id, offset) == Err(InvalidRegionId)
    ensures LibWrite(sp, pg, v, id, offset) == Err(InvalidRegionId)
  {
  }
}
