/** The kill-by-name system call of sys_killall.c: every process whose path
    ends in `/<name>` is taken off the running list and off every MLQ level,
    marked finished (pc = code size, the test the CPU loop uses to retire a
    process), and then has each region its ALLOC instructions name freed.

    Processes are values here, not pointers: a killed process is returned as
    a record, and one process sitting both on the running list and on an
    MLQ level comes back twice, once from each list. */
module KillAll {
  import opened Config
  import opened ProcQueue
  import Regions
  import Sched

  /** `i` is the position of the last '/' in `path`. */
  predicate IsLastSlash(path: string, i: int)
  {
    && 0 <= i < |path|
    && path[i] == '/'
    && forall k :: i < k < |path| ==> path[k] != '/'
  }

  /** strrchr(path, '/'). */
  function LastSlash(path: string): (r: Option<nat>)
    ensures r.Some? ==> IsLastSlash(path, r.value)
    ensures r.None? ==> forall k :: 0 <= k < |path| ==> path[k] != '/'
    decreases |path|
  {
    if |path| == 0 then None
    else if path[|path| - 1] == '/' then Some(|path| - 1)
    else LastSlash(path[..|path| - 1])
  }

  /** A path has at most one last slash. */
  lemma LastSlashUnique(path: string, i: int, j: int)
    requires IsLastSlash(path, i) && IsLastSlash(path, j)
    ensures i == j
  {
  }

  /** The name test of the kill loops: the text after the last '/' of the
      path equals `name`; a path without '/' never matches. */
  function Matches(path: string, name: string): (r: bool)
    ensures r <==> exists i :: IsLastSlash(path, i) && path[i + 1..] == name
  {
    match LastSlash(path)
    case None => false
    case Some(i) =>
      assert forall j :: IsLastSlash(path, j) ==> j == i by {
        forall j | IsLastSlash(path, j)
          ensures j == i
        {
          LastSlashUnique(path, i, j);
        }
      }
      path[i + 1..] == name
  }

  /** A path with no '/' matches no name. */
  lemma NoSlashNeverMatches(path: string, name: string)
    requires forall k :: 0 <= k < |path| ==> path[k] != '/'
    ensures !Matches(path, name)
  {
  }

  /** The loader builds every path as "input/proc/" followed by the name
      from the configuration; such a path matches exactly that name. */
  lemma LoaderPathMatches(n: string, m: string)
    requires forall k :: 0 <= k < |n| ==> n[k] != '/'
    ensures Matches("input/proc/" + n, m) <==> m == n
  {
    var path := "input/proc/" + n;
    assert IsLastSlash(path, 10) by {
      forall k | 10 < k < |path|
        ensures path[k] != '/'
      {
        assert path[k] == n[k - 11];
      }
    }
    LastSlashUnique(path, LastSlash(path).value, 10);
    assert path[11..] == n;
  }

  /** A process is finished once its program counter reaches the end of
      its code. */
  predicate Finished(p: Pcb)
  {
    p.pc == |p.code|
  }

  /** What the kill loops do to a matched process: pc = code->size. */
  function Finish(p: Pcb): (r: Pcb)
    ensures Finished(r)
    ensures r.pid == p.pid && r.path == p.path && r.code == p.code && r.mm == p.mm && r.prio == p.prio
  {
    p.(pc := |p.code|)
  }

  /** The entries of `s` that do not match, in their order. */
  function Keep(s: seq<Pcb>, name: string): (r: seq<Pcb>)
    ensures |r| <= |s|
    ensures forall k :: 0 <= k < |r| ==> !Matches(r[k].path, name)
    decreases |s|
  {
    if |s| == 0 then []
    else
      var last := s[|s| - 1];
      Keep(s[..|s| - 1], name) + (if Matches(last.path, name) then [] else [last])
  }

  /** The entries of `s` that match, finished, in their order. */
  function Taken(s: seq<Pcb>, name: string): (r: seq<Pcb>)
    ensures |Keep(s, name)| + |r| == |s|
    ensures forall k :: 0 <= k < |r| ==> Finished(r[k]) && Matches(r[k].path, name)
    decreases |s|
  {
    if |s| == 0 then []
    else
      var last := s[|s| - 1];
      Taken(s[..|s| - 1], name) + (if Matches(last.path, name) then [Finish(last)] else [])
  }

  /** Keep and Taken split a list: they distribute over concatenation, so
      every non-matching entry stays and keeps its place relative to the
      others. */
  lemma {:induction false} KeepTakenAppend(a: seq<Pcb>, b: seq<Pcb>, name: string)
    ensures Keep(a + b, name) == Keep(a, name) + Keep(b, name)
    ensures Taken(a + b, name) == Taken(a, name) + Taken(b, name)
    decreases |b|
  {
    if |b| > 0 {
      var b' := b[..|b| - 1];
      assert (a + b)[..|a + b| - 1] == a + b';
      assert (a + b)[|a + b| - 1] == b[|b| - 1];
      KeepTakenAppend(a, b', name);
    } else {
      assert a + b == a;
    }
  }

  /** A list with no matching entry is kept whole and yields nothing. */
  lemma {:induction false} KeepNoMatch(s: seq<Pcb>, name: string)
    requires forall k :: 0 <= k < |s| ==> !Matches(s[k].path, name)
    ensures Keep(s, name) == s && Taken(s, name) == []
    decreases |s|
  {
    if |s| > 0 {
      KeepNoMatch(s[..|s| - 1], name);
    }
  }

  /** Every non-matching process stays, as many times as it occurred. */
  lemma {:induction false} KeepCountsNonMatching(s: seq<Pcb>, name: string, p: Pcb)
    requires !Matches(p.path, name)
    ensures multiset(Keep(s, name))[p] == multiset(s)[p]
    decreases |s|
  {
    if |s| > 0 {
      var s' := s[..|s| - 1];
      assert s == s' + [s[|s| - 1]];
      KeepCountsNonMatching(s', name, p);
    }
  }

  /** The removal loop of the running list (and, as intended, of each MLQ
      level): on a match the process is finished and recorded, the later
      entries shift down one slot, and `i--` makes the next round look at
      the entry shifted into slot `i`. */
  method KillFromList(procs: seq<Pcb>, name: string) returns (kept: seq<Pcb>, killed: seq<Pcb>)
    ensures kept == Keep(procs, name)
    ensures killed == Taken(procs, name)
  {
    var cur := procs;
    killed := [];
    var i: int := 0;
    ghost var n := 0;
    while i < |cur|
      invariant 0 <= n <= |procs|
      invariant i == |Keep(procs[..n], name)|
      invariant cur == Keep(procs[..n], name) + procs[n..]
      invariant killed == Taken(procs[..n], name)
      decreases |cur| - i
    {
      KillStep(procs, n, name);
      if Matches(cur[i].path, name) {
        killed := killed + [Finish(cur[i])];
        cur := ShiftDown(cur, i);
        i := i - 1;
      }
      i := i + 1;
      n := n + 1;
    }
    assert procs[..n] == procs;
    kept := cur;
  }

  /** One round of the removal loop: the entry at slot |Keep| is the next
      unexamined one; on a match, removing it from that slot leaves the
      kept prefix followed by the rest, and otherwise it joins the kept
      prefix where it stands. */
  lemma KillStep(s: seq<Pcb>, n: nat, name: string)
    requires n < |s|
    ensures var cur := Keep(s[..n], name) + s[n..];
            var i := |Keep(s[..n], name)|;
            && i < |cur| && cur[i] == s[n]
            && (Matches(s[n].path, name) ==>
                  && RemoveAt(cur, i) == Keep(s[..n + 1], name) + s[n + 1..]
                  && |Keep(s[..n + 1], name)| == i
                  && Taken(s[..n + 1], name) == Taken(s[..n], name) + [Finish(s[n])])
            && (!Matches(s[n].path, name) ==>
                  && cur == Keep(s[..n + 1], name) + s[n + 1..]
                  && |Keep(s[..n + 1], name)| == i + 1
                  && Taken(s[..n + 1], name) == Taken(s[..n], name))
  {
    KeepTakenStep(s, n, name);
    var k := Keep(s[..n], name);
    assert s[n..] == [s[n]] + s[n + 1..];
    assert k + s[n..] == k + [s[n]] + s[n + 1..];
    assert RemoveAt(k + s[n..], |k|) == k + s[n + 1..] by {
      assert (k + s[n..])[..|k|] == k;
      assert (k + s[n..])[|k| + 1..] == s[n + 1..];
    }
  }

  /** One more entry of the list settles into Keep or Taken. */
  lemma KeepTakenStep(s: seq<Pcb>, n: nat, name: string)
    requires n < |s|
    ensures Keep(s[..n + 1], name) == Keep(s[..n], name) + (if Matches(s[n].path, name) then [] else [s[n]])
    ensures Taken(s[..n + 1], name) == Taken(s[..n], name) + (if Matches(s[n].path, name) then [Finish(s[n])] else [])
  {
    assert s[..n + 1][..n] == s[..n];
  }

  /** The MLQ removal loop as written: the shift starts at k = 0, so slot 0
      is overwritten instead of slot j. The matched process (already
      finished) stays in the level, its predecessor at slot 0 is dropped,
      and j-- then j++ move on past it. Returns the level and the processes
      recorded as killed. */
  function KillLevelAsWritten(cur: seq<Pcb>, j: nat, name: string): (r: (seq<Pcb>, seq<Pcb>))
    ensures |r.0| + |r.1| == |cur|
    decreases |cur| - j
  {
    if j >= |cur| then (cur, [])
    else if Matches(cur[j].path, name) then
      var shifted := cur[j := Finish(cur[j])][1..];
      var rest := KillLevelAsWritten(shifted, j, name);
      (rest.0, [Finish(cur[j])] + rest.1)
    else KillLevelAsWritten(cur, j + 1, name)
  }

  /** The MLQ removal as intended: the matched entry leaves the level and
      the others keep their order, exactly as on the running list. */
  function KillLevel(level: seq<Pcb>, name: string): (r: (seq<Pcb>, seq<Pcb>))
    ensures |r.0| + |r.1| == |level|
    ensures forall k :: 0 <= k < |r.0| ==> !Matches(r.0[k].path, name)
    ensures forall k :: 0 <= k < |r.1| ==> Finished(r.1[k]) && Matches(r.1[k].path, name)
  {
    (Keep(level, name), Taken(level, name))
  }

  /** Two processes A (input/proc/a) and B (input/proc/b) on one level;
      killing "b" as written leaves the finished B in the level and drops
      A, where the intended removal leaves A alone. */
  lemma KillLevelAsWrittenDropsWrongEntry(mm: Regions.AddrSpace, code: seq<Instr>)
    ensures var a := Pcb(1, 5, "input/proc/a", 0, code, mm);
            var b := Pcb(2, 5, "input/proc/b", 0, code, mm);
            && KillLevelAsWritten([a, b], 0, "b") == ([Finish(b)], [Finish(b)])
            && KillLevel([a, b], "b") == ([a], [Finish(b)])
  {
    var a := Pcb(1, 5, "input/proc/a", 0, code, mm);
    var b := Pcb(2, 5, "input/proc/b", 0, code, mm);
    LoaderPathMatches("a", "b");
    LoaderPathMatches("b", "b");
    assert !Matches(a.path, "b") && Matches(b.path, "b");
    var c := [a, b];
    assert c[0] == a && c[1] == b;
    var s1 := c[1 := Finish(c[1])][1..];
    assert s1 == [Finish(b)];
    var r1 := KillLevelAsWritten(s1, 1, "b");
    assert r1 == (s1, []);
    assert KillLevelAsWritten(c, 1, "b") == (r1.0, [Finish(c[1])] + r1.1);
    assert KillLevelAsWritten(c, 0, "b") == KillLevelAsWritten(c, 1, "b");
    assert [Finish(c[1])] + r1.1 == [Finish(b)];
    assert KillLevelAsWritten(c, 0, "b") == ([Finish(b)], [Finish(b)]);
    assert c[..1] == [a];
    assert [a][..0] == [];
    assert Keep([a], "b") == [a] && Taken([a], "b") == [];
    assert Keep(c, "b") == [a] && Taken(c, "b") == [Finish(b)];
  }

  /** The ALLOC-region free pass for one killed process: __free on the
      process's first area for the region id of every ALLOC instruction, in
      code order; a free that fails (unbound or out-of-table id) changes
      nothing, as its result is ignored. */
  function FreeAllocRegions(mm: Regions.AddrSpace, code: seq<Instr>): (r: Regions.AddrSpace)
    requires Regions.WellSized(mm)
    ensures Regions.WellSized(r)
    ensures r.vma == mm.vma.(freeList := r.vma.freeList)
    ensures forall k :: 0 <= k < |code| && code[k].opcode == AllocOp && 0 <= code[k].arg0 < SYMTBL_SZ ==>
              !Regions.Bound(r.symtbl[code[k].arg0])
    ensures forall i :: 0 <= i < SYMTBL_SZ && !Regions.Bound(mm.symtbl[i]) ==> r.symtbl[i] == mm.symtbl[i]
    ensures forall i :: 0 <= i < SYMTBL_SZ && !Named(code, i) ==> r.symtbl[i] == mm.symtbl[i]
    ensures forall i :: 0 <= i < SYMTBL_SZ && Named(code, i) && Regions.Bound(mm.symtbl[i]) ==>
              mm.symtbl[i] in r.vma.freeList
    ensures forall rg :: rg in mm.vma.freeList ==> rg in r.vma.freeList
    decreases |code|
  {
    if |code| == 0 then mm
    else
      var c' := code[..|code| - 1];
      var mm1 := FreeAllocRegions(mm, c');
      var ins := code[|code| - 1];
      assert forall k :: 0 <= k < |code| - 1 ==> c'[k] == code[k];
      assert forall i :: Named(code, i) <==> Named(c', i) || (ins.opcode == AllocOp && ins.arg0 == i) by {
        forall i {
          NamedStep(code, i);
        }
      }
      if ins.opcode != AllocOp then mm1
      else
        match Regions.Free(mm1, mm1.vma.id, ins.arg0)
        case Ok(m) => m
        case Err(_) => mm1
  }

  /** Some ALLOC instruction of `code` names region id `i`. */
  predicate Named(code: seq<Instr>, i: int)
  {
    exists k :: 0 <= k < |code| && code[k].opcode == AllocOp && code[k].arg0 == i
  }

  /** An ALLOC of a non-empty program names `i` in its prefix or in its last
      instruction. */
  lemma NamedStep(code: seq<Instr>, i: int)
    requires |code| > 0
    ensures Named(code, i) <==>
              Named(code[..|code| - 1], i) || (code[|code| - 1].opcode == AllocOp && code[|code| - 1].arg0 == i)
  {
    var c' := code[..|code| - 1];
    if Named(code, i) {
      var k :| 0 <= k < |code| && code[k].opcode == AllocOp && code[k].arg0 == i;
      if k < |c'| {
        assert c'[k] == code[k];
      }
    }
    if Named(c', i) {
      var k :| 0 <= k < |c'| && c'[k].opcode == AllocOp && c'[k].arg0 == i;
      assert code[k] == c'[k];
    }
  }

  /** When no region an ALLOC names is still bound, the pass frees nothing. */
  lemma {:induction false} FreePassNoop(mm: Regions.AddrSpace, code: seq<Instr>)
    requires Regions.WellSized(mm)
    requires forall k :: 0 <= k < |code| && code[k].opcode == AllocOp && 0 <= code[k].arg0 < SYMTBL_SZ ==>
               !Regions.Bound(mm.symtbl[code[k].arg0])
    ensures FreeAllocRegions(mm, code) == mm
    decreases |code|
  {
    if |code| > 0 {
      var c' := code[..|code| - 1];
      assert forall k :: 0 <= k < |c'| ==> c'[k] == code[k];
      FreePassNoop(mm, c');
    }
  }

  /** The free pass is idempotent: running it twice for the same process,
      as happens when that process was found on both the running list and
      an MLQ level, frees what one pass frees. */
  lemma FreePassIdempotent(mm: Regions.AddrSpace, code: seq<Instr>)
    requires Regions.WellSized(mm)
    ensures FreeAllocRegions(FreeAllocRegions(mm, code), code) == FreeAllocRegions(mm, code)
  {
    FreePassNoop(FreeAllocRegions(mm, code), code);
  }

  /** The free pass keeps the allocator invariant. */
  lemma {:induction false} FreePassKeepsValid(mm: Regions.AddrSpace, code: seq<Instr>)
    requires Regions.Valid(mm)
    ensures Regions.Valid(FreeAllocRegions(mm, code))
    decreases |code|
  {
    if |code| > 0 {
      var c' := code[..|code| - 1];
      FreePassKeepsValid(mm, c');
      var mm1 := FreeAllocRegions(mm, c');
      var ins := code[|code| - 1];
      if ins.opcode == AllocOp && Regions.Free(mm1, mm1.vma.id, ins.arg0).Ok? {
        Regions.FreePreservesValid(mm1, mm1.vma.id, ins.arg0);
      }
    }
  }

  /** Every process of the list has a symbol table of the right size. */
  predicate AllWellSized(s: seq<Pcb>)
  {
    forall k :: 0 <= k < |s| ==> Regions.WellSized(s[k].mm)
  }

  /** What the free pass promises about a killed process `p` that became
      `r`: only the memory descriptor changes, the table keeps its size,
      every in-table id an ALLOC instruction names ends unbound, every
      other entry is untouched, and the allocator invariant survives. */
  predicate Released(p: Pcb, r: Pcb)
  {
    && r == p.(mm := r.mm)
    && Regions.WellSized(p.mm) && Regions.WellSized(r.mm)
    && (forall k :: 0 <= k < |p.code| && p.code[k].opcode == AllocOp && 0 <= p.code[k].arg0 < SYMTBL_SZ ==>
          !Regions.Bound(r.mm.symtbl[p.code[k].arg0]))
    && (forall i :: 0 <= i < SYMTBL_SZ && !Named(p.code, i) ==> r.mm.symtbl[i] == p.mm.symtbl[i])
    && (Regions.Valid(p.mm) ==> Regions.Valid(r.mm))
  }

  /** A process after its free pass. */
  function Release(p: Pcb): (r: Pcb)
    requires Regions.WellSized(p.mm)
    ensures Released(p, r)
  {
    var mm := FreeAllocRegions(p.mm, p.code);
    assert Regions.Valid(p.mm) ==> Regions.Valid(mm) by {
      if Regions.Valid(p.mm) {
        FreePassKeepsValid(p.mm, p.code);
      }
    }
    p.(mm := mm)
  }

  /** The free pass over the whole kill list: each entry, in order, is
      released. */
  function ReleaseAll(s: seq<Pcb>): (r: seq<Pcb>)
    requires AllWellSized(s)
    ensures |r| == |s|
    ensures forall k :: 0 <= k < |s| ==> Released(s[k], r[k])
    ensures forall k :: 0 <= k < |s| ==> r[k] == Release(s[k])
  {
    seq(|s|, k requires 0 <= k < |s| && AllWellSized(s) => Release(s[k]))
  }

  /** Taken keeps the processes' memory descriptors. */
  lemma {:induction false} TakenWellSized(s: seq<Pcb>, name: string)
    requires AllWellSized(s)
    ensures AllWellSized(Taken(s, name))
    decreases |s|
  {
    if |s| > 0 {
      TakenWellSized(s[..|s| - 1], name);
    }
  }

  /** The processes removed from the first `n` MLQ levels, level by level. */
  function TakenFromLevels(mlq: seq<Queue>, n: nat, name: string): (r: seq<Pcb>)
    requires n <= |mlq|
    ensures forall k :: 0 <= k < |r| ==> Finished(r[k]) && Matches(r[k].path, name)
  {
    if n == 0 then [] else TakenFromLevels(mlq, n - 1, name) + Taken(mlq[n - 1].procs, name)
  }

  /** Every process on the running list and the MLQ has a well-sized
      symbol table. */
  predicate ProcsWellSized(s: Sched.Sched)
  {
    && AllWellSized(s.runningList.procs)
    && forall p :: 0 <= p < |s.mlq| ==> AllWellSized(s.mlq[p].procs)
  }

  lemma {:induction false} TakenFromLevelsWellSized(s: Sched.Sched, n: nat, name: string)
    requires ProcsWellSized(s) && n <= |s.mlq|
    ensures AllWellSized(TakenFromLevels(s.mlq, n, name))
    decreases n
  {
    if n > 0 {
      TakenFromLevelsWellSized(s, n - 1, name);
      TakenWellSized(s.mlq[n - 1].procs, name);
    }
  }

  /** The MLQ loop of __sys_killall as intended: each level from 0 up loses
      its matching processes, which are appended to the kill list. */
  method KillFromLevels(mlq: seq<Queue>, name: string) returns (mlq': seq<Queue>, killed: seq<Pcb>)
    requires |mlq| == MAX_PRIO
    ensures |mlq'| == MAX_PRIO
    ensures forall p :: 0 <= p < MAX_PRIO ==> mlq'[p].procs == Keep(mlq[p].procs, name)
    ensures killed == TakenFromLevels(mlq, MAX_PRIO, name)
  {
    mlq' := mlq;
    killed := [];
    var i := 0;
    while i < MAX_PRIO
      invariant 0 <= i <= MAX_PRIO && |mlq'| == MAX_PRIO
      invariant forall p :: 0 <= p < i ==> mlq'[p].procs == Keep(mlq[p].procs, name)
      invariant forall p :: i <= p < MAX_PRIO ==> mlq'[p] == mlq[p]
      invariant killed == TakenFromLevels(mlq, i, name)
    {
      var kept, fromLevel := KillFromList(mlq'[i].procs, name);
      mlq' := mlq'[i := Queue(kept)];
      killed := killed + fromLevel;
      i := i + 1;
    }
  }

  /** __sys_killall as intended, after the name has been read: remove and
      finish every matching process on the running list, then on each MLQ
      level from 0 up with the corrected MLQ loop (KillFromLevels, not the
      as-written shift from slot 0 of KillLevelAsWritten), then run the free
      pass over the kill list in the order it was filled. The scheduler's
      other state is untouched. */
  method SysKillAll(s: Sched.Sched, name: string) returns (s': Sched.Sched, killed: seq<Pcb>)
    requires Sched.WellFormed(s) && ProcsWellSized(s)
    ensures Sched.WellFormed(s')
    ensures s'.runningList.procs == Keep(s.runningList.procs, name)
    ensures forall p :: 0 <= p < MAX_PRIO ==> s'.mlq[p].procs == Keep(s.mlq[p].procs, name)
    ensures s' == s.(runningList := s'.runningList, mlq := s'.mlq)
    ensures AllWellSized(Taken(s.runningList.procs, name) + TakenFromLevels(s.mlq, MAX_PRIO, name))
    ensures killed == ReleaseAll(Taken(s.runningList.procs, name) + TakenFromLevels(s.mlq, MAX_PRIO, name))
  {
    var run, fromRun := KillFromList(s.runningList.procs, name);
    var mlq, fromLevels := KillFromLevels(s.mlq, name);
    s' := s.(runningList := Queue(run), mlq := mlq);
    TakenWellSized(s.runningList.procs, name);
    TakenFromLevelsWellSized(s, MAX_PRIO, name);
    killed := ReleaseAll(fromRun + fromLevels);
  }

  /** After the kill as intended (corrected MLQ loop), no process left on
      the running list or on any MLQ level matches the name. As written, a
      finished match can stay on its level (KillLevelAsWrittenDropsWrongEntry). */
  lemma NoMatchLeft(s: Sched.Sched, s': Sched.Sched, name: string)
    requires |s.mlq| == MAX_PRIO && |s'.mlq| == MAX_PRIO
    requires s'.runningList.procs == Keep(s.runningList.procs, name)
    requires forall p :: 0 <= p < MAX_PRIO ==> s'.mlq[p].procs == Keep(s.mlq[p].procs, name)
    ensures forall k :: 0 <= k < |s'.runningList.procs| ==> !Matches(s'.runningList.procs[k].path, name)
    ensures forall p, k :: 0 <= p < MAX_PRIO && 0 <= k < |s'.mlq[p].procs| ==> !Matches(s'.mlq[p].procs[k].path, name)
  {
    forall p, k | 0 <= p < MAX_PRIO && 0 <= k < |s'.mlq[p].procs|
      ensures !Matches(s'.mlq[p].procs[k].path, name)
    {
      assert s'.mlq[p].procs == Keep(s.mlq[p].procs, name);
    }
  }

  /** After the kill as intended (corrected MLQ loop), the scheduler never
      picks a process with the killed name. As written, the finished match
      the shift leaves on a level can still be picked. */
  lemma KilledNeverScheduled(s: Sched.Sched, s': Sched.Sched, name: string)
    requires Sched.WellFormed(s) && Sched.WellFormed(s')
    requires forall p :: 0 <= p < MAX_PRIO ==> s'.mlq[p].procs == Keep(s.mlq[p].procs, name)
    ensures var r := Sched.GetMlqProc(s');
            r.proc.Some? ==> !Matches(r.proc.value.path, name)
  {
    var r := Sched.GetMlqProc(s');
    if r.proc.Some? {
      Sched.PickSpendsOneSlot(s');
      var q := s'.mlq[r.level];
      DequeuedIsQueued(q);
      var i :| 0 <= i < |q.procs| && q.procs[i] == r.proc.value;
      assert q.procs == Keep(s.mlq[r.level].procs, name);
    }
  }

  /** The kill list holds one finished, matching record per match. */
  lemma KillListCount(s: Sched.Sched, name: string)
    requires Sched.WellFormed(s)
    ensures var list := Taken(s.runningList.procs, name) + TakenFromLevels(s.mlq, MAX_PRIO, name);
            forall k :: 0 <= k < |list| ==> Finished(list[k]) && Matches(list[k].path, name)
  {
  }
}
