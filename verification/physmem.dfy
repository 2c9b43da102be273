/** A physical store (RAM or one swap device): byte cells plus the list of
    free frames. The byte store and the frame list live in mm-memphy.c, which
    is not part of this model; this module gives them the small contracts the
    paging code relies on. Cells never written read as zero. */
module PhysMem {
  import opened Config

  datatype Store = Store(cells: map<nat, byte>, freeFrames: seq<nat>)

  /** MEMPHY_read */
  function Read(m: Store, addr: nat): byte
  {
    if addr in m.cells then m.cells[addr] else 0
  }

  /** MEMPHY_write */
  function Write(m: Store, addr: nat, v: byte): (r: Store)
    ensures Read(r, addr) == v
    ensures forall a :: a != addr ==> Read(r, a) == Read(m, a)
    ensures r.freeFrames == m.freeFrames
  {
    m.(cells := m.cells[addr := v])
  }

  /** MEMPHY_get_freefp: takes the head of the free-frame list, or fails
      when the list is empty. */
  function GetFreeFrame(m: Store): (r: Option<(nat, Store)>)
    ensures r.None? <==> |m.freeFrames| == 0
    ensures r.Some? ==> [r.value.0] + r.value.1.freeFrames == m.freeFrames
    ensures r.Some? ==> r.value.1.cells == m.cells
  {
    if |m.freeFrames| == 0 then None
    else Some((m.freeFrames[0], m.(freeFrames := m.freeFrames[1..])))
  }

  /** MEMPHY_put_freefp: pushes a frame onto the free-frame list. */
  function PutFreeFrame(m: Store, f: nat): (r: Store)
    ensures r.freeFrames == [f] + m.freeFrames
    ensures r.cells == m.cells
  {
    m.(freeFrames := [f] + m.freeFrames)
  }

  /** Address `a` lies inside frame `f`. */
  predicate InFrame(f: nat, a: nat)
  {
    f * PAGE_SIZE <= a < f * PAGE_SIZE + PAGE_SIZE
  }

  /** The addresses of frame `f`. */
  function FrameAddrs(f: nat): set<nat>
  {
    set a: nat | f * PAGE_SIZE <= a < f * PAGE_SIZE + PAGE_SIZE && InFrame(f, a)
  }

  /** __swap_cp_page: copies frame `sf` of `src` over frame `df` of `dst`;
      every other cell of `dst` and its free list are kept. */
  function CopyFrame(src: Store, sf: nat, dst: Store, df: nat): (r: Store)
    ensures forall off :: 0 <= off < PAGE_SIZE ==>
              Read(r, PhysAddr(df, off)) == Read(src, PhysAddr(sf, off))
    ensures forall a: nat :: !(df * PAGE_SIZE <= a < df * PAGE_SIZE + PAGE_SIZE) ==>
              Read(r, a) == Read(dst, a)
    ensures r.freeFrames == dst.freeFrames
  {
    var cells := map a | a in dst.cells.Keys + FrameAddrs(df) ::
      if InFrame(df, a) then Read(src, a - df * PAGE_SIZE + sf * PAGE_SIZE) else dst.cells[a];
    dst.(cells := cells)
  }
}
