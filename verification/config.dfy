/** Build-time constants of the simulator and the small value types every
    other module shares: bytes, the optional value, and the error taxonomy of
    the memory engine. */
module Config {

  /** Number of MLQ priority levels (MAX_PRIO). */
  const MAX_PRIO: nat := 140

  /** Capacity of one process queue (MAX_QUEUE_SIZE). */
  const MAX_QUEUE_SIZE: nat := 10

  /** Entries in a process's region symbol table (PAGING_MAX_SYMTBL_SZ). */
  const SYMTBL_SZ: nat := 30

  /** Page and frame size in bytes (PAGING_PAGESZ), equal to 1 << PAGING_ADDR_FPN_LOBIT. */
  const PAGE_SIZE: nat := 256

  /** Number of page-table entries of a process (PAGING_MAX_PGN). */
  const MAX_PGN: nat := 16384

  newtype byte = x: int | 0 <= x < 256

  datatype Option<+T> = None | Some(value: T)

  /** The failure kinds of the memory engine. */
  datatype MemError =
    | InvalidRegionId
    | InvalidArea
    | RegionNotAllocated
    | OutOfAddressSpace
    | InvalidPage
    | NoResidentPages
    | SwapExhausted

  datatype Result<+T> = Ok(value: T) | Err(error: MemError)

  /** PAGING_PAGE_ALIGNSZ: the size rounded up to a whole number of pages. */
  function AlignUp(size: nat): (r: nat)
    ensures r % PAGE_SIZE == 0
    ensures size <= r < size + PAGE_SIZE
  {
    ((size + PAGE_SIZE - 1) / PAGE_SIZE) * PAGE_SIZE
  }

  /** Physical byte address of offset `off` inside frame `fpn`:
      (fpn << PAGING_ADDR_FPN_LOBIT) + off. */
  function PhysAddr(fpn: nat, off: nat): nat
  {
    fpn * PAGE_SIZE + off
  }

  /** A physical address inside a frame splits back into that frame and offset. */
  lemma PhysAddrSplit(fpn: nat, off: nat)
    requires off < PAGE_SIZE
    ensures PhysAddr(fpn, off) / PAGE_SIZE == fpn
    ensures PhysAddr(fpn, off) % PAGE_SIZE == off
  {
  }

  /** Distinct frames occupy disjoint address ranges. */
  lemma FramesDisjoint(f: nat, g: nat, off: nat, off': nat)
    requires off < PAGE_SIZE && off' < PAGE_SIZE
    requires f != g
    ensures PhysAddr(f, off) != PhysAddr(g, off')
  {
    PhysAddrSplit(f, off);
    PhysAddrSplit(g, off');
  }
}
