/** Demand paging with FIFO replacement (libmem.c): a page-table entry is
    either resident in a RAM frame or parked in a swap frame; the FIFO list of
    resident pages is kept newest first (enlist_pgn_node prepends), so its
    last element is the oldest and is the one evicted on a fault. */
module Paging {
  import opened Config
  import opened PhysMem

  /** A page-table entry, in place of the PTE bit fields. */
  datatype Pte = Present(fpn: nat) | Swapped(swpfpn: nat)

  /** The paging part of a process: its page table (mapped pages only), the
      FIFO of resident pages (newest first), the RAM and the active swap
      device. */
  datatype PagingState = PagingState(pgd: map<nat, Pte>, fifo: seq<nat>, ram: Store, swp: Store)

  /** Every page on the FIFO is mapped and resident: the victim's entry
      always has a RAM frame to give up. */
  predicate FifoResident(st: PagingState)
  {
    forall i :: 0 <= i < |st.fifo| ==> st.fifo[i] in st.pgd && st.pgd[st.fifo[i]].Present?
  }

  predicate NoDup(s: seq<nat>)
  {
    forall i, j :: 0 <= i < |s| && 0 <= j < |s| && i != j ==> s[i] != s[j]
  }

  /** The paging invariant: the FIFO holds each resident page exactly once
      and nothing else; no two resident pages share a RAM frame and no two
      swapped pages share a swap frame; no swapped page's frame is on the
      swap free list, which has no repeats; no resident page's frame is on
      the RAM free list. */
  predicate Inv(st: PagingState)
  {
    var pgd := st.pgd;
    && NoDup(st.fifo)
    && FifoResident(st)
    && (forall p :: p in pgd && pgd[p].Present? ==> p in st.fifo)
    && (forall p, q :: p in pgd && q in pgd && p != q && pgd[p].Present? && pgd[q].Present? ==>
          pgd[p].fpn != pgd[q].fpn)
    && (forall p, q :: p in pgd && q in pgd && p != q && pgd[p].Swapped? && pgd[q].Swapped? ==>
          pgd[p].swpfpn != pgd[q].swpfpn)
    && (forall p :: p in pgd && pgd[p].Swapped? ==> pgd[p].swpfpn !in st.swp.freeFrames)
    && (forall p :: p in pgd && pgd[p].Present? ==> pgd[p].fpn !in st.ram.freeFrames)
    && NoDup(st.swp.freeFrames)
  }

  /** find_victim_page: fails on an empty FIFO; otherwise detaches and
      returns the last (oldest) page. */
  function FindVictim(fifo: seq<nat>): (r: Option<(nat, seq<nat>)>)
    ensures r.None? <==> |fifo| == 0
    ensures r.Some? ==> r.value.1 + [r.value.0] == fifo
  {
    if |fifo| == 0 then None else Some((fifo[|fifo| - 1], fifo[..|fifo| - 1]))
  }

  /** find_victim_page as written: with a single node, prev_pg is the head
      itself, so the freed node stays reachable through fifo_pgn and the list
      still reads as before. */
  function FindVictimAsWritten(fifo: seq<nat>): (r: Option<(nat, seq<nat>)>)
    ensures r.None? <==> |fifo| == 0
    ensures r.Some? ==> r.value.0 == fifo[|fifo| - 1]
    ensures |fifo| != 1 ==> r == FindVictim(fifo)
  {
    if |fifo| == 0 then None
    else if |fifo| == 1 then Some((fifo[0], fifo))
    else Some((fifo[|fifo| - 1], fifo[..|fifo| - 1]))
  }

  /** As written, a one-page FIFO hands out the same victim twice in a row;
      the corrected selection empties the list and then fails. */
  lemma FindVictimAsWrittenRepeats(p: nat)
    ensures var r1 := FindVictimAsWritten([p]);
            r1 == Some((p, [p])) && FindVictimAsWritten(r1.value.1) == Some((p, [p]))
    ensures FindVictim([p]) == Some((p, [])) && FindVictim([]) == None
  {
  }

  /** Pages enlisted after the current ones are evicted only after them:
      the victim is always the oldest page. */
  lemma VictimIsOldest(newer: seq<nat>, older: seq<nat>)
    requires |older| > 0
    ensures var r := FindVictim(newer + older);
            r.Some? && r.value.0 == older[|older| - 1] && r.value.1 == newer + older[..|older| - 1]
  {
    assert (newer + older)[..|newer + older| - 1] == newer + older[..|older| - 1];
  }

  /** pg_getpage as intended: a resident page returns its frame and changes
      nothing; on a fault the oldest resident page is paged out to a fresh
      swap frame, the faulting page is paged into the RAM frame it vacated,
      the faulting page's old swap frame is released, both entries are
      updated in the table, and the faulting page is enlisted. An unmapped
      page, an empty FIFO or a full swap device fails with nothing changed. */
  function PgGetPage(st: PagingState, pgn: nat): (r: Result<(nat, PagingState)>)
    requires FifoResident(st)
    ensures pgn !in st.pgd ==> r == Err(InvalidPage)
    ensures pgn in st.pgd && st.pgd[pgn].Present? ==> r == Ok((st.pgd[pgn].fpn, st))
    ensures pgn in st.pgd && st.pgd[pgn].Swapped? && |st.fifo| == 0 ==> r == Err(NoResidentPages)
    ensures pgn in st.pgd && st.pgd[pgn].Swapped? && |st.fifo| > 0 && |st.swp.freeFrames| == 0 ==>
              r == Err(SwapExhausted)
    ensures r.Ok? ==> pgn in r.value.1.pgd && r.value.1.pgd[pgn] == Present(r.value.0)
    ensures r.Ok? ==> r.value.1.pgd.Keys == st.pgd.Keys
    ensures r.Ok? ==> r.value.1.ram.freeFrames == st.ram.freeFrames
    ensures r.Ok? ==> |r.value.1.fifo| == |st.fifo| && |r.value.1.swp.freeFrames| == |st.swp.freeFrames|
    ensures r.Ok? && st.pgd[pgn].Swapped? ==>
              var vic := st.fifo[|st.fifo| - 1];
              var vicfpn := st.pgd[vic].fpn;
              var swpfpn := st.swp.freeFrames[0];
              && r.value.0 == vicfpn
              && r.value.1.pgd == st.pgd[vic := Swapped(swpfpn)][pgn := Present(vicfpn)]
              && r.value.1.fifo == [pgn] + st.fifo[..|st.fifo| - 1]
              && r.value.1.swp.freeFrames == [st.pgd[pgn].swpfpn] + st.swp.freeFrames[1..]
              && (forall off :: 0 <= off < PAGE_SIZE ==>
                    Read(r.value.1.swp, PhysAddr(swpfpn, off)) == Read(st.ram, PhysAddr(vicfpn, off)))
  {
    if pgn !in st.pgd then Err(InvalidPage)
    else match st.pgd[pgn]
      case Present(f) => Ok((f, st))
      case Swapped(tgt) =>
        match FindVictim(st.fifo)
        case None => Err(NoResidentPages)
        case Some((vic, fifo1)) =>
          assert vic == st.fifo[|st.fifo| - 1];
          var vicfpn := st.pgd[vic].fpn;
          match GetFreeFrame(st.swp)
          case None => Err(SwapExhausted)
          case Some((swpfpn, swp1)) =>
            var swp2 := CopyFrame(st.ram, vicfpn, swp1, swpfpn);
            var ram1 := CopyFrame(swp2, tgt, st.ram, vicfpn);
            var swp3 := PutFreeFrame(swp2, tgt);
            var pgd1 := st.pgd[vic := Swapped(swpfpn)][pgn := Present(vicfpn)];
            Ok((vicfpn, PagingState(pgd1, [pgn] + fifo1, ram1, swp3)))
  }

  /** pg_getpage as written: `pte_set_fpn(&pte, vicfpn)` updates the local
      copy, so the faulting page's table entry keeps its old swap frame even
      though that frame was released and the page was enlisted. */
  function PgGetPageAsWritten(st: PagingState, pgn: nat): (r: Result<(nat, PagingState)>)
    requires FifoResident(st)
    ensures r.Ok? <==> PgGetPage(st, pgn).Ok?
    ensures r.Ok? ==> pgn in st.pgd && r.value.0 == PgGetPage(st, pgn).value.0
    ensures r.Ok? && st.pgd[pgn].Swapped? ==> pgn in r.value.1.pgd && r.value.1.pgd[pgn] == st.pgd[pgn]
  {
    match PgGetPage(st, pgn)
    case Err(e) => Err(e)
    case Ok((f, st1)) =>
      if st.pgd[pgn].Present? then Ok((f, st1))
      else Ok((f, st1.(pgd := st1.pgd[pgn := st.pgd[pgn]])))
  }

  /** Two mapped pages: page 0 resident in frame 0, page 1 in swap frame 0;
      swap frame 1 is free. */
  function TwoPages(): PagingState
  {
    PagingState(map[0 := Present(0), 1 := Swapped(0)], [0], Store(map[], []), Store(map[], [1]))
  }

  lemma TwoPagesInv()
    ensures Inv(TwoPages())
  {
  }

  /** The corrected fault of page 1 in TwoPages: page 0 goes to swap frame 1,
      page 1 takes RAM frame 0. */
  lemma TwoPagesFault()
    ensures var r := PgGetPage(TwoPages(), 1);
            && r.Ok?
            && r.value.1 == PagingState(map[0 := Swapped(1), 1 := Present(0)], [1], r.value.1.ram, r.value.1.swp)
            && r.value.1.swp.freeFrames == [0]
            && r.value.1.ram.freeFrames == []
  {
    var st := TwoPages();
    assert FindVictim(st.fifo) == Some((0, []));
    assert GetFreeFrame(st.swp).value.0 == 1;
    var r := PgGetPage(st, 1);
    assert r.value.1.pgd == map[0 := Present(0), 1 := Swapped(0)][0 := Swapped(1)][1 := Present(0)];
    assert map[0 := Present(0), 1 := Swapped(0)][0 := Swapped(1)][1 := Present(0)] == map[0 := Swapped(1), 1 := Present(0)];
  }

  /** As written, faulting page 1 in leaves it on the FIFO while its entry
      still points at swap frame 0, which is back on the free list: the
      paging invariant breaks. The corrected fault keeps it. */
  lemma PgGetPageAsWrittenBreaksInv()
    ensures Inv(TwoPages())
    ensures var r := PgGetPageAsWritten(TwoPages(), 1);
            && r.Ok?
            && r.value.1.pgd[1] == Swapped(0)
            && 0 in r.value.1.swp.freeFrames
            && 1 in r.value.1.fifo
            && !Inv(r.value.1)
    ensures var r := PgGetPage(TwoPages(), 1);
            r.Ok? && r.value.1.pgd[1] == Present(0) && Inv(r.value.1)
  {
    TwoPagesInv();
    TwoPagesFault();
    PgGetPageKeepsInvAndView(TwoPages(), 1);
    var w := PgGetPageAsWritten(TwoPages(), 1);
    assert w.value.1.fifo == [1];
    assert w.value.1.pgd[1] == Swapped(0);
    assert w.value.1.fifo[0] == 1;
    assert !FifoResident(w.value.1);
  }

  /** The byte a process sees at offset `off` of page `pgn`, wherever the
      page currently lives. */
  function VRead(st: PagingState, pgn: nat, off: nat): byte
    requires pgn in st.pgd
  {
    match st.pgd[pgn]
    case Present(f) => Read(st.ram, PhysAddr(f, off))
    case Swapped(s) => Read(st.swp, PhysAddr(s, off))
  }

  /** Two states map the same pages and show the same bytes in them. */
  predicate SameView(st: PagingState, st': PagingState)
  {
    && st'.pgd.Keys == st.pgd.Keys
    && forall p, off :: p in st.pgd && 0 <= off < PAGE_SIZE ==> VRead(st', p, off) == VRead(st, p, off)
  }

  /** A fault keeps the paging invariant and changes no byte that any page
      shows: the evicted page's bytes move to its new swap frame, the
      faulting page's bytes move into the vacated RAM frame. */
  lemma PgGetPageKeepsInvAndView(st: PagingState, pgn: nat)
    requires Inv(st)
    requires PgGetPage(st, pgn).Ok?
    ensures Inv(PgGetPage(st, pgn).value.1)
    ensures SameView(st, PgGetPage(st, pgn).value.1)
  {
    if st.pgd[pgn].Swapped? {
      FaultKeepsInv(st, pgn);
      FaultKeepsView(st, pgn);
    }
  }

  lemma FaultKeepsInv(st: PagingState, pgn: nat)
    requires Inv(st)
    requires PgGetPage(st, pgn).Ok? && st.pgd[pgn].Swapped?
    ensures Inv(PgGetPage(st, pgn).value.1)
  {
    FaultKeepsFifo(st, pgn);
    FaultKeepsSwapList(st, pgn);
  }

  /** After a fault the FIFO still holds each resident page exactly once. */
  lemma FaultKeepsFifo(st: PagingState, pgn: nat)
    requires Inv(st)
    requires PgGetPage(st, pgn).Ok? && st.pgd[pgn].Swapped?
    ensures var st' := PgGetPage(st, pgn).value.1;
            && NoDup(st'.fifo) && FifoResident(st')
            && forall p :: p in st'.pgd && st'.pgd[p].Present? ==> p in st'.fifo
  {
    var st' := PgGetPage(st, pgn).value.1;
    var n := |st.fifo|;
    var vic := st.fifo[n - 1];
    var fifo1 := st.fifo[..n - 1];
    assert vic != pgn;
    assert pgn !in st.fifo;
    assert st'.fifo == [pgn] + fifo1;
    forall i | 0 < i < |st'.fifo|
      ensures st'.fifo[i] == st.fifo[i - 1]
    {
    }
    assert NoDup(st'.fifo);
    forall i | 0 <= i < |st'.fifo|
      ensures st'.fifo[i] in st'.pgd && st'.pgd[st'.fifo[i]].Present?
    {
      if i > 0 {
        assert st'.fifo[i] != vic;
      }
    }
    forall p | p in st'.pgd && st'.pgd[p].Present?
      ensures p in st'.fifo
    {
      if p != pgn {
        assert p != vic;
        var k :| 0 <= k < n && st.fifo[k] == p;
        assert k != n - 1;
        assert st'.fifo[k + 1] == p;
      }
    }
  }

  /** After a fault the swap free list has no repeats and holds no swapped
      page's frame. */
  lemma FaultKeepsSwapList(st: PagingState, pgn: nat)
    requires Inv(st)
    requires PgGetPage(st, pgn).Ok? && st.pgd[pgn].Swapped?
    ensures var st' := PgGetPage(st, pgn).value.1;
            && NoDup(st'.swp.freeFrames)
            && forall p :: p in st'.pgd && st'.pgd[p].Swapped? ==> st'.pgd[p].swpfpn !in st'.swp.freeFrames
  {
    var st' := PgGetPage(st, pgn).value.1;
    var vic := st.fifo[|st.fifo| - 1];
    var tgt := st.pgd[pgn].swpfpn;
    var swpfpn := st.swp.freeFrames[0];
    var sf := st.swp.freeFrames;
    var sf' := st'.swp.freeFrames;
    assert sf' == [tgt] + sf[1..];
    assert swpfpn !in sf[1..];
    forall i, j | 0 <= i < |sf'| && 0 <= j < |sf'| && i != j
      ensures sf'[i] != sf'[j]
    {
      if i > 0 && j > 0 {
        assert sf'[i] == sf[i] && sf'[j] == sf[j];
      } else if i > 0 {
        assert sf'[i] == sf[i];
      } else {
        assert sf'[j] == sf[j];
      }
    }
    forall p | p in st'.pgd && st'.pgd[p].Swapped?
      ensures st'.pgd[p].swpfpn !in sf'
    {
      if p != vic {
        assert st'.pgd[p] == st.pgd[p];
        assert st.pgd[p].swpfpn != tgt;
      }
    }
  }

  lemma FaultKeepsView(st: PagingState, pgn: nat)
    requires Inv(st)
    requires PgGetPage(st, pgn).Ok? && st.pgd[pgn].Swapped?
    ensures SameView(st, PgGetPage(st, pgn).value.1)
  {
    var st' := PgGetPage(st, pgn).value.1;
    var n := |st.fifo|;
    var vic := st.fifo[n - 1];
    var vicfpn := st.pgd[vic].fpn;
    var tgt := st.pgd[pgn].swpfpn;
    var swpfpn := st.swp.freeFrames[0];
    var swp1 := st.swp.(freeFrames := st.swp.freeFrames[1..]);
    var swp2 := CopyFrame(st.ram, vicfpn, swp1, swpfpn);
    assert st'.ram == CopyFrame(swp2, tgt, st.ram, vicfpn);
    assert st'.swp == PutFreeFrame(swp2, tgt);
    assert tgt != swpfpn;
    forall p, off | p in st.pgd && 0 <= off < PAGE_SIZE
      ensures VRead(st', p, off) == VRead(st, p, off)
    {
      PhysAddrSplit(vicfpn, off);
      PhysAddrSplit(swpfpn, off);
      PhysAddrSplit(tgt, off);
      if p == pgn {
        assert Read(st'.ram, PhysAddr(vicfpn, off)) == Read(swp2, PhysAddr(tgt, off));
        assert Read(swp2, PhysAddr(tgt, off)) == Read(swp1, PhysAddr(tgt, off));
      } else if p == vic {
      } else {
        match st.pgd[p]
        case Present(g) =>
          assert g != vicfpn;
          PhysAddrSplit(g, off);
          assert Read(st'.ram, PhysAddr(g, off)) == Read(st.ram, PhysAddr(g, off));
        case Swapped(s) =>
          assert s != tgt;
          assert s != swpfpn;
          PhysAddrSplit(s, off);
          assert Read(st'.swp, PhysAddr(s, off)) == Read(swp1, PhysAddr(s, off));
      }
    }
  }

  /** pg_getval: split the address into page and offset, make the page
      resident, and read RAM at (fpn << PAGING_ADDR_FPN_LOBIT) + off. */
  function PgGetVal(st: PagingState, addr: nat): (r: Result<(byte, PagingState)>)
    requires FifoResident(st)
    ensures r.Ok? <==> PgGetPage(st, addr / PAGE_SIZE).Ok?
    ensures r.Ok? ==>
              var (fpn, st1) := PgGetPage(st, addr / PAGE_SIZE).value;
              r.value == (Read(st1.ram, PhysAddr(fpn, addr % PAGE_SIZE)), st1)
  {
    match PgGetPage(st, addr / PAGE_SIZE)
    case Err(e) => Err(e)
    case Ok((fpn, st1)) => Ok((Read(st1.ram, PhysAddr(fpn, addr % PAGE_SIZE)), st1))
  }

  /** pg_setval: make the page resident and write RAM at the same physical
      address pg_getval reads. */
  function PgSetVal(st: PagingState, addr: nat, v: byte): (r: Result<PagingState>)
    requires FifoResident(st)
    ensures r.Ok? <==> PgGetPage(st, addr / PAGE_SIZE).Ok?
    ensures r.Ok? ==>
              var (fpn, st1) := PgGetPage(st, addr / PAGE_SIZE).value;
              r.value == st1.(ram := Write(st1.ram, PhysAddr(fpn, addr % PAGE_SIZE), v))
  {
    match PgGetPage(st, addr / PAGE_SIZE)
    case Err(e) => Err(e)
    case Ok((fpn, st1)) => Ok(st1.(ram := Write(st1.ram, PhysAddr(fpn, addr % PAGE_SIZE), v)))
  }

  /** Reading returns the byte the process sees at that address, and keeps
      the invariant and every page's bytes. */
  lemma GetValReadsView(st: PagingState, addr: nat)
    requires Inv(st)
    requires PgGetVal(st, addr).Ok?
    ensures var (v, st') := PgGetVal(st, addr).value;
            && addr / PAGE_SIZE in st.pgd
            && v == VRead(st, addr / PAGE_SIZE, addr % PAGE_SIZE)
            && Inv(st')
            && SameView(st, st')
  {
    PgGetPageKeepsInvAndView(st, addr / PAGE_SIZE);
  }

  /** Writing changes the byte the process sees at that address to `v`,
      and no other byte of any page; the invariant is kept. */
  lemma SetValWritesView(st: PagingState, addr: nat, v: byte)
    requires Inv(st)
    requires PgSetVal(st, addr, v).Ok?
    ensures var st' := PgSetVal(st, addr, v).value;
            && Inv(st')
            && st'.pgd.Keys == st.pgd.Keys
            && VRead(st', addr / PAGE_SIZE, addr % PAGE_SIZE) == v
            && forall p, off :: p in st.pgd && 0 <= off < PAGE_SIZE && (p, off) != (addr / PAGE_SIZE, addr % PAGE_SIZE) ==>
                 VRead(st', p, off) == VRead(st, p, off)
  {
    var pgn, o := addr / PAGE_SIZE, addr % PAGE_SIZE;
    PgGetPageKeepsInvAndView(st, pgn);
    var (fpn, st1) := PgGetPage(st, pgn).value;
    var st' := PgSetVal(st, addr, v).value;
    assert st'.pgd == st1.pgd && st'.fifo == st1.fifo && st'.swp == st1.swp;
    assert st'.ram.freeFrames == st1.ram.freeFrames;
    forall p, off | p in st.pgd && 0 <= off < PAGE_SIZE && (p, off) != (pgn, o)
      ensures VRead(st', p, off) == VRead(st1, p, off)
    {
      if st1.pgd[p].Present? {
        var g := st1.pgd[p].fpn;
        if p != pgn {
          assert g != fpn;
          FramesDisjoint(g, fpn, off, o);
        } else {
          PhysAddrSplit(fpn, off);
          PhysAddrSplit(fpn, o);
        }
      }
    }
  }

  /** pg_setval then pg_getval at the same address, with no other access in
      between, reads back the byte written. */
  lemma SetThenGet(st: PagingState, addr: nat, v: byte)
    requires Inv(st)
    requires PgSetVal(st, addr, v).Ok?
    ensures var st' := PgSetVal(st, addr, v).value;
            Inv(st') && PgGetVal(st', addr) == Ok((v, st'))
  {
    SetValWritesView(st, addr, v);
  }

  /** Makes each page of `pages` resident in turn, as other accesses would;
      a touch that fails leaves the state as it was. */
  function TouchPages(st: PagingState, pages: seq<nat>): (r: PagingState)
    requires Inv(st)
    ensures Inv(r) && SameView(st, r)
    decreases |pages|
  {
    if |pages| == 0 then st
    else
      match PgGetPage(st, pages[0])
      case Err(_) => TouchPages(st, pages[1..])
      case Ok((_, st1)) =>
        PgGetPageKeepsInvAndView(st, pages[0]);
        TouchPages(st1, pages[1..])
  }

  /** Swap fidelity: a byte written to a page reads back unchanged after any
      number of other page faults, including ones that evict that page and
      fault it back in. */
  lemma SwapFidelity(st: PagingState, addr: nat, v: byte, pages: seq<nat>)
    requires Inv(st)
    requires PgSetVal(st, addr, v).Ok?
    ensures Inv(PgSetVal(st, addr, v).value)
    ensures var st' := TouchPages(PgSetVal(st, addr, v).value, pages);
            var r := PgGetVal(st', addr);
            r.Ok? ==> r.value.0 == v
  {
    var pgn, o := addr / PAGE_SIZE, addr % PAGE_SIZE;
    SetValWritesView(st, addr, v);
    var st1 := PgSetVal(st, addr, v).value;
    assert pgn in st1.pgd && VRead(st1, pgn, o) == v;
    var st' := TouchPages(st1, pages);
    assert pgn in st'.pgd && VRead(st', pgn, o) == v;
    var r := PgGetVal(st', addr);
    if r.Ok? {
      GetValReadsView(st', addr);
    }
  }

  /** The pages of `pgd` numbered `pg` and above. */
  function MappedFrom(pgd: map<nat, Pte>, pg: nat): set<nat>
  {
    set p | p in pgd && pg <= p
  }

  /** Some page numbered `pg` or above has entry `e`. */
  predicate EntryAbove(pgd: map<nat, Pte>, pg: nat, e: Pte)
  {
    exists p :: p in pgd && pg <= p && pgd[p] == e
  }

  lemma EntryAboveStep(pgd: map<nat, Pte>, pg: nat, e: Pte)
    ensures EntryAbove(pgd, pg, e) <==> (pg in pgd && pgd[pg] == e) || EntryAbove(pgd, pg + 1, e)
  {
    if EntryAbove(pgd, pg, e) {
      var p :| p in pgd && pg <= p && pgd[p] == e;
      if p != pg {
        assert EntryAbove(pgd, pg + 1, e);
      }
    }
  }

  lemma MappedFromStep(pgd: map<nat, Pte>, pg: nat)
    ensures |MappedFrom(pgd, pg)| == |MappedFrom(pgd, pg + 1)| + (if pg in pgd then 1 else 0)
  {
    assert MappedFrom(pgd, pg) == MappedFrom(pgd, pg + 1) + (if pg in pgd then {pg} else {});
  }

  /** free_pcb_memph as intended, from page `pg` upwards: each mapped page
      gives back exactly one frame, a resident page its RAM frame and a
      swapped page its swap frame. */
  function ReclaimFrom(pgd: map<nat, Pte>, ram: Store, swp: Store, pg: nat): (r: (Store, Store))
    requires forall p :: p in pgd ==> p < MAX_PGN
    requires pg <= MAX_PGN
    decreases MAX_PGN - pg
    ensures r.0.cells == ram.cells && r.1.cells == swp.cells
    ensures forall f :: f in r.0.freeFrames <==> f in ram.freeFrames || EntryAbove(pgd, pg, Present(f))
    ensures forall f :: f in r.1.freeFrames <==> f in swp.freeFrames || EntryAbove(pgd, pg, Swapped(f))
    ensures |r.0.freeFrames| + |r.1.freeFrames| ==
              |ram.freeFrames| + |swp.freeFrames| + |MappedFrom(pgd, pg)|
  {
    if pg == MAX_PGN then
      assert MappedFrom(pgd, pg) == {};
      assert forall e :: !EntryAbove(pgd, pg, e);
      (ram, swp)
    else
      MappedFromStep(pgd, pg);
      assert forall e :: EntryAbove(pgd, pg, e) <==> (pg in pgd && pgd[pg] == e) || EntryAbove(pgd, pg + 1, e) by {
        forall e {
          EntryAboveStep(pgd, pg, e);
        }
      }
      if pg !in pgd then ReclaimFrom(pgd, ram, swp, pg + 1)
      else match pgd[pg]
        case Present(f) => ReclaimFrom(pgd, PutFreeFrame(ram, f), swp, pg + 1)
        case Swapped(s) => ReclaimFrom(pgd, ram, PutFreeFrame(swp, s), pg + 1)
  }

  /** free_pcb_memph as written, from page `pg` upwards: the two branches are
      swapped, so a non-resident entry's number goes to the RAM pool and a
      resident entry's to the swap pool. */
  function ReclaimAsWrittenFrom(pgd: map<nat, Pte>, ram: Store, swp: Store, pg: nat): (r: (Store, Store))
    requires forall p :: p in pgd ==> p < MAX_PGN
    requires pg <= MAX_PGN
    decreases MAX_PGN - pg
    ensures forall f :: f in r.0.freeFrames <==> f in ram.freeFrames || EntryAbove(pgd, pg, Swapped(f))
    ensures forall f :: f in r.1.freeFrames <==> f in swp.freeFrames || EntryAbove(pgd, pg, Present(f))
  {
    if pg == MAX_PGN then
      assert forall e :: !EntryAbove(pgd, pg, e);
      (ram, swp)
    else
      assert forall e :: EntryAbove(pgd, pg, e) <==> (pg in pgd && pgd[pg] == e) || EntryAbove(pgd, pg + 1, e) by {
        forall e {
          EntryAboveStep(pgd, pg, e);
        }
      }
      if pg !in pgd then ReclaimAsWrittenFrom(pgd, ram, swp, pg + 1)
      else match pgd[pg]
        case Present(f) => ReclaimAsWrittenFrom(pgd, ram, PutFreeFrame(swp, f), pg + 1)
        case Swapped(s) => ReclaimAsWrittenFrom(pgd, PutFreeFrame(ram, s), swp, pg + 1)
  }

  /** free_pcb_memph over the whole page table. */
  function ReclaimAll(st: PagingState): (r: PagingState)
    requires forall p :: p in st.pgd ==> p < MAX_PGN
    ensures r == st.(ram := r.ram, swp := r.swp)
    ensures r.ram.cells == st.ram.cells && r.swp.cells == st.swp.cells
    ensures forall f :: f in st.ram.freeFrames ==> f in r.ram.freeFrames
    ensures forall f :: f in st.swp.freeFrames ==> f in r.swp.freeFrames
    ensures forall p :: p in st.pgd && st.pgd[p].Present? ==> st.pgd[p].fpn in r.ram.freeFrames
    ensures forall p :: p in st.pgd && st.pgd[p].Swapped? ==> st.pgd[p].swpfpn in r.swp.freeFrames
    ensures |r.ram.freeFrames| + |r.swp.freeFrames| ==
              |st.ram.freeFrames| + |st.swp.freeFrames| + |st.pgd.Keys|
  {
    var (ram, swp) := ReclaimFrom(st.pgd, st.ram, st.swp, 0);
    assert MappedFrom(st.pgd, 0) == st.pgd.Keys;
    assert forall p :: p in st.pgd ==> EntryAbove(st.pgd, 0, st.pgd[p]);
    st.(ram := ram, swp := swp)
  }

  /** As written, a resident page's RAM frame that no swapped entry happens
      to share a number with is never returned to the RAM pool. */
  lemma ReclaimAsWrittenLeaksRam(st: PagingState, p: nat)
    requires forall q :: q in st.pgd ==> q < MAX_PGN
    requires p in st.pgd && st.pgd[p].Present?
    requires st.pgd[p].fpn !in st.ram.freeFrames
    requires forall q :: q in st.pgd ==> st.pgd[q] != Swapped(st.pgd[p].fpn)
    ensures st.pgd[p].fpn !in ReclaimAsWrittenFrom(st.pgd, st.ram, st.swp, 0).0.freeFrames
    ensures st.pgd[p].fpn in ReclaimAll(st).ram.freeFrames
  {
    assert EntryAbove(st.pgd, 0, Present(st.pgd[p].fpn));
  }
}
