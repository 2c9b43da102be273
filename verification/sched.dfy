/** The multi-level queue scheduler of sched.c (MLQ_SCHED build): one bounded
    queue per priority level, a slot counter per level, and the cursor
    (MarkedPrior, flag, count) of the get_mlq_proc state machine. Level `p`
    may be served up to MAX_PRIO - p times before all slot counters are
    reset; lower level numbers are scanned first. Each public operation is
    atomic here, as queue_lock makes it in the simulator. */
module Sched {
  import opened Config
  import opened ProcQueue

  /** The scheduler's static state. `marked`, `flag` and `count` are the
      globals MarkedPrior, flag and count. */
  datatype Sched = Sched(
    mlq: seq<Queue>,
    slot: seq<int>,
    marked: int,
    flag: bool,
    count: int,
    readyQueue: Queue,
    runQueue: Queue,
    runningList: Queue)

  /** Array sizes, queue capacities, the cursor in range, `count` cleared
      while the cursor holds a level, and the slot bound: level `p` has been
      served at most MAX_PRIO - p times since the last reset. */
  predicate WellFormed(s: Sched)
  {
    && |s.mlq| == MAX_PRIO
    && |s.slot| == MAX_PRIO
    && 0 <= s.marked < MAX_PRIO
    && 0 <= s.count
    && (!s.flag ==> s.count == 0)
    && (forall p :: 0 <= p < MAX_PRIO ==> Bounded(s.mlq[p]))
    && (forall p :: 0 <= p < MAX_PRIO ==> 0 <= s.slot[p] <= MAX_PRIO - p)
    && Bounded(s.readyQueue) && Bounded(s.runQueue) && Bounded(s.runningList)
  }

  /** Level `p` may be served now: it holds a process and has slots left. */
  predicate Eligible(s: Sched, p: int)
    requires |s.mlq| == MAX_PRIO && |s.slot| == MAX_PRIO && 0 <= p < MAX_PRIO
  {
    |s.mlq[p].procs| != 0 && s.slot[p] < MAX_PRIO - p
  }

  /** The slot counters right after init_scheduler: slot[i] = MAX_PRIO - i. */
  function InitSlots(): (r: seq<int>)
    ensures |r| == MAX_PRIO
    ensures forall i :: 0 <= i < MAX_PRIO ==> r[i] == MAX_PRIO - i
  {
    seq(MAX_PRIO, i => MAX_PRIO - i)
  }

  /** The slot counters after a reset: all zero. */
  function ZeroSlots(): (r: seq<int>)
    ensures |r| == MAX_PRIO
    ensures forall i :: 0 <= i < MAX_PRIO ==> r[i] == 0
  {
    seq(MAX_PRIO, _ => 0)
  }

  /** init_scheduler, over zero-initialised statics: every queue empty,
      slot[i] = MAX_PRIO - i, cursor at level 0 with flag set. */
  function InitScheduler(): (r: Sched)
    ensures WellFormed(r)
    ensures forall p :: 0 <= p < MAX_PRIO ==> r.mlq[p].procs == [] && !Eligible(r, p)
    ensures r.readyQueue.procs == [] && r.runQueue.procs == [] && r.runningList.procs == []
    ensures r.slot == InitSlots() && r.marked == 0 && r.flag && r.count == 0
  {
    Sched(seq(MAX_PRIO, _ => Queue([])), InitSlots(), 0, true, 0, Queue([]), Queue([]), Queue([]))
  }

  /** Outcome of one sweep of the for loop at sched.c:64-74. */
  datatype ScanResult = Found(level: int) | NotFound(count: int)

  /** The sweep from level `m` upward: it stops at the first eligible level,
      or runs off the end having added one to `count` per level passed. */
  function Scan(s: Sched, m: int, count: int): (r: ScanResult)
    requires |s.mlq| == MAX_PRIO && |s.slot| == MAX_PRIO && 0 <= m <= MAX_PRIO
    ensures r.Found? ==>
              && m <= r.level < MAX_PRIO && Eligible(s, r.level)
              && forall k :: m <= k < r.level ==> !Eligible(s, k)
    ensures r.NotFound? ==>
              && r.count == count + (MAX_PRIO - m)
              && forall k :: m <= k < MAX_PRIO ==> !Eligible(s, k)
    decreases MAX_PRIO - m
  {
    if m == MAX_PRIO then NotFound(count)
    else if Eligible(s, m) then Found(m)
    else Scan(s, m + 1, count + 1)
  }

  /** The result of get_mlq_proc: the process (None for NULL), the level it
      came from (-1 for none), whether the slot counters were reset during
      the call, and the scheduler state afterwards. */
  datatype Pick = Pick(proc: Option<Pcb>, level: int, reset: bool, next: Sched)

  /** Serve level `l`: dequeue its best process and spend one slot. */
  function Serve(s: Sched, l: int): (r: Pick)
    requires WellFormed(s) && 0 <= l < MAX_PRIO && Eligible(s, l)
    ensures WellFormed(r.next)
    ensures r.proc.Some? && r.level == l && !r.reset
    ensures Dequeue(s.mlq[l]) == Some((r.proc.value, r.next.mlq[l]))
    ensures r.next == s.(mlq := s.mlq[l := r.next.mlq[l]], slot := s.slot[l := s.slot[l] + 1])
  {
    var (p, q) := Dequeue(s.mlq[l]).value;
    assert Bounded(q);
    Pick(Some(p), l, false, s.(mlq := s.mlq[l := q], slot := s.slot[l := s.slot[l] + 1]))
  }

  /** The state after the slot reset at sched.c:75-79, with `count` as the
      sweep left it. */
  function Reset(s: Sched, count: int): (r: Sched)
    requires WellFormed(s) && count >= 0
    ensures WellFormed(r)
    ensures r.slot == ZeroSlots() && r.marked == 0 && r.flag && r.count == count
    ensures r.mlq == s.mlq && r.readyQueue == s.readyQueue && r.runQueue == s.runQueue
    ensures r.runningList == s.runningList
  {
    s.(slot := ZeroSlots(), marked := 0, flag := true, count := count)
  }

  /** The `flag` branch of get_mlq_proc, including its `goto label` loop: a
      sweep from MarkedPrior; on a miss the slots are reset, and the call
      returns NULL if that sweep passed MAX_PRIO levels in all, or sweeps
      again from level 0. `resetSoFar` records a reset made by an earlier
      sweep of the same call. The sweep after a reset starts with count 0
      at level 0, so it always ends the call: the loop makes at most two
      sweeps. */
  function FlagPass(s: Sched, resetSoFar: bool): (r: Pick)
    requires WellFormed(s)
    ensures WellFormed(r.next)
    ensures r.proc.None? ==> r.level == -1 && r.reset && r.next == Reset(s, MAX_PRIO)
    ensures r.proc.Some? ==> 0 <= r.level < MAX_PRIO && r.next.marked == r.level && !r.next.flag
    decreases if s.marked == 0 && s.count == 0 then 0 else 1
  {
    match Scan(s, s.marked, s.count)
    case Found(l) =>
      Serve(s.(marked := l, flag := false, count := 0), l).(reset := resetSoFar)
    case NotFound(c) =>
      if c == MAX_PRIO then Pick(None, -1, true, Reset(s, c))
      else
        var z := Reset(s, 0);
        assert Reset(z, MAX_PRIO) == Reset(s, MAX_PRIO);
        FlagPass(z, true)
  }

  /** What a non-NULL result of the flag branch is: a serve of the first
      eligible level at or above MarkedPrior, or, after a reset, of the
      first non-empty level, every lower level being empty. */
  lemma {:induction false} FlagPassServes(s: Sched, resetSoFar: bool)
    requires WellFormed(s)
    requires FlagPass(s, resetSoFar).proc.Some?
    ensures var r := FlagPass(s, resetSoFar);
            && (r.reset <==> resetSoFar || Scan(s, s.marked, s.count).NotFound?)
            && var base := if Scan(s, s.marked, s.count).NotFound? then Reset(s, 0) else s;
               && Eligible(base, r.level)
               && r == Serve(base.(marked := r.level, flag := false, count := 0), r.level).(reset := r.reset)
    ensures var r := FlagPass(s, resetSoFar);
            Scan(s, s.marked, s.count).Found? ==> forall k :: s.marked <= k < r.level ==> !Eligible(s, k)
    ensures var r := FlagPass(s, resetSoFar);
            Scan(s, s.marked, s.count).NotFound? ==> forall k :: 0 <= k < r.level ==> s.mlq[k].procs == []
    decreases if s.marked == 0 && s.count == 0 then 0 else 1
  {
    match Scan(s, s.marked, s.count)
    case Found(l) =>
    case NotFound(c) =>
      var z := Reset(s, 0);
      FlagPassServes(z, true);
      assert Reset(z, 0) == z;
      assert forall k :: 0 <= k < MAX_PRIO ==> (Eligible(z, k) <==> s.mlq[k].procs != []);
  }

  /** get_mlq_proc. With `flag` clear the level under the cursor is served
      again while it has slots and processes; otherwise, or once it runs
      out, the flag branch takes over. NULL comes back only from a sweep
      that passed MAX_PRIO levels, and then the slots have been reset. */
  function GetMlqProc(s: Sched): (r: Pick)
    requires WellFormed(s)
    ensures WellFormed(r.next)
    ensures r.proc.None? ==> r.level == -1 && r.reset && r.next == Reset(s, MAX_PRIO)
    ensures r.proc.Some? ==> 0 <= r.level < MAX_PRIO && r.next.marked == r.level && !r.next.flag
  {
    if !s.flag && s.slot[s.marked] < MAX_PRIO - s.marked && |s.mlq[s.marked].procs| != 0 then
      Serve(s, s.marked)
    else
      FlagPass(s.(flag := true), false)
  }

  /** A non-NULL pick is a serve of an eligible level: of the state as it
      was, or, when the slots were reset during the call, of the reset
      state, and then every lower level was empty. */
  lemma PickIsServe(s: Sched)
    requires WellFormed(s)
    requires GetMlqProc(s).proc.Some?
    ensures var r := GetMlqProc(s);
            && var base := if r.reset then Reset(s, 0) else s;
               && Eligible(base, r.level)
               && r == Serve(base.(marked := r.level, flag := false, count := 0), r.level).(reset := r.reset)
    ensures var r := GetMlqProc(s);
            r.reset ==> forall k :: 0 <= k < r.level ==> s.mlq[k].procs == []
  {
    if !(!s.flag && s.slot[s.marked] < MAX_PRIO - s.marked && |s.mlq[s.marked].procs| != 0) {
      var s1 := s.(flag := true);
      FlagPassServes(s1, false);
      assert Reset(s1, 0) == Reset(s, 0);
    }
  }

  /** A pick keeps every queue but the served level's, and keeps the
      ready, run and running queues. */
  lemma PickTouchesOneLevel(s: Sched)
    requires WellFormed(s)
    ensures var r := GetMlqProc(s);
            && r.next.readyQueue == s.readyQueue && r.next.runQueue == s.runQueue
            && r.next.runningList == s.runningList
            && forall p :: 0 <= p < MAX_PRIO && p != r.level ==> r.next.mlq[p] == s.mlq[p]
  {
    if GetMlqProc(s).proc.Some? {
      PickIsServe(s);
    }
  }

  /** Without a reset, a pick serves one eligible level and spends exactly
      one of its slots; after a reset, the served level has spent one slot
      and every other level none. */
  lemma PickSpendsOneSlot(s: Sched)
    requires WellFormed(s)
    requires GetMlqProc(s).proc.Some?
    ensures var r := GetMlqProc(s);
            && (!r.reset ==> Eligible(s, r.level) && r.next.slot == s.slot[r.level := s.slot[r.level] + 1])
            && (r.reset ==> r.next.slot == ZeroSlots()[r.level := 1])
            && Dequeue(s.mlq[r.level]) == Some((r.proc.value, r.next.mlq[r.level]))
  {
    PickIsServe(s);
  }

  /** Scan finds nothing exactly when no level from `m` up is eligible. */
  lemma ScanNotFoundIff(s: Sched, m: int, count: int)
    requires |s.mlq| == MAX_PRIO && |s.slot| == MAX_PRIO && 0 <= m <= MAX_PRIO
    ensures Scan(s, m, count).NotFound? <==> forall k :: m <= k < MAX_PRIO ==> !Eligible(s, k)
  {
    var r := Scan(s, m, count);
    if r.Found? {
      assert Eligible(s, r.level);
    }
  }

  /** With the counters init_scheduler leaves, every level is out of slots,
      so the first pick returns NULL whatever has been queued since. */
  lemma FirstPickIsNull(s: Sched)
    requires WellFormed(s)
    requires s.slot == InitSlots() && s.marked == 0 && s.flag && s.count == 0
    ensures GetMlqProc(s).proc.None?
  {
    ScanNotFoundIff(s, 0, 0);
  }

  /** Right after a NULL pick, the next pick is NULL again exactly when every
      level is empty: the slots were reset, so any queued process is found. */
  lemma NullThenNullIffEmpty(s: Sched)
    requires WellFormed(s)
    requires GetMlqProc(s).proc.None?
    ensures var s' := GetMlqProc(s).next;
            GetMlqProc(s').proc.None? <==> forall p :: 0 <= p < MAX_PRIO ==> s.mlq[p].procs == []
  {
    var s' := GetMlqProc(s).next;
    assert s' == Reset(s, MAX_PRIO);
    assert s'.(flag := true) == s';
    ScanNotFoundIff(s', 0, MAX_PRIO);
    assert forall p :: 0 <= p < MAX_PRIO ==> (Eligible(s', p) <==> s.mlq[p].procs != []);
    if forall p :: 0 <= p < MAX_PRIO ==> s.mlq[p].procs == [] {
      EmptyMlqPicksNull(s');
    } else if GetMlqProc(s').proc.Some? {
      PickIsServe(s');
    }
  }

  /** When every level is empty there is nothing to pick. */
  lemma EmptyMlqPicksNull(s: Sched)
    requires WellFormed(s)
    requires forall p :: 0 <= p < MAX_PRIO ==> s.mlq[p].procs == []
    ensures GetMlqProc(s).proc.None?
  {
    FlagPassOnEmpty(s.(flag := true), false);
  }

  lemma {:induction false} FlagPassOnEmpty(s: Sched, resetSoFar: bool)
    requires WellFormed(s)
    requires forall p :: 0 <= p < MAX_PRIO ==> s.mlq[p].procs == []
    ensures FlagPass(s, resetSoFar).proc.None?
    decreases if s.marked == 0 && s.count == 0 then 0 else 1
  {
    ScanNotFoundIff(s, s.marked, s.count);
    if Scan(s, s.marked, s.count).count != MAX_PRIO {
      FlagPassOnEmpty(Reset(s, 0), true);
    }
  }

  /** `picks` are successive calls to get_mlq_proc from `states[0]`, and
      `states[i + 1]` is the state the i-th call leaves. */
  predicate IsRun(states: seq<Sched>, picks: seq<Pick>)
  {
    && |states| == |picks| + 1
    && forall i :: 0 <= i < |picks| ==>
         WellFormed(states[i]) && picks[i] == GetMlqProc(states[i]) && states[i + 1] == picks[i].next
  }

  /** How many of `picks` served level `p`. */
  function ServedAt(picks: seq<Pick>, p: int): (r: nat)
    ensures r <= |picks|
  {
    if |picks| == 0 then 0
    else (if picks[0].proc.Some? && picks[0].level == p then 1 else 0) + ServedAt(picks[1..], p)
  }

  /** Fairness bound: over any run of calls with no slot reset, level `p`
      is served at most the slots it has left, so at most MAX_PRIO - p
      times between two resets. */
  lemma {:induction false} ServesBetweenResets(states: seq<Sched>, picks: seq<Pick>, p: int)
    requires IsRun(states, picks) && WellFormed(states[0]) && 0 <= p < MAX_PRIO
    requires forall i :: 0 <= i < |picks| ==> !picks[i].reset
    ensures ServedAt(picks, p) + states[0].slot[p] <= MAX_PRIO - p
    decreases |picks|
  {
    if |picks| > 0 {
      PickWithoutReset(states[0], p);
      var states', picks' := states[1..], picks[1..];
      assert forall i :: 0 <= i < |picks'| ==> picks'[i] == picks[i + 1] && states'[i] == states[i + 1];
      ServesBetweenResets(states', picks', p);
    }
  }

  /** One pick with no reset serves some level and spends one of its slots,
      and no slot of any other level. */
  lemma PickWithoutReset(s: Sched, p: int)
    requires WellFormed(s) && 0 <= p < MAX_PRIO
    requires !GetMlqProc(s).reset
    ensures var r := GetMlqProc(s);
            && r.proc.Some?
            && r.next.slot[p] == s.slot[p] + (if r.level == p then 1 else 0)
  {
    PickSpendsOneSlot(s);
  }

  /** put_mlq_proc (and add_mlq_proc, identical): the process goes to the
      queue of its own priority level and nowhere else. */
  function PutMlqProc(s: Sched, proc: Pcb): (r: Sched)
    requires WellFormed(s) && proc.prio < MAX_PRIO
    ensures WellFormed(r)
    ensures r.mlq[proc.prio] == Enqueue(s.mlq[proc.prio], proc)
    ensures forall p :: 0 <= p < MAX_PRIO && p != proc.prio ==> r.mlq[p] == s.mlq[p]
    ensures r == s.(mlq := r.mlq)
  {
    s.(mlq := s.mlq[proc.prio := Enqueue(s.mlq[proc.prio], proc)])
  }

  /** put_proc (and add_proc, identical) in the MLQ build: the process is
      appended to the running list and to its priority level. */
  function PutProc(s: Sched, proc: Pcb): (r: Sched)
    requires WellFormed(s) && proc.prio < MAX_PRIO
    ensures WellFormed(r)
    ensures r.runningList == Enqueue(s.runningList, proc)
    ensures r.mlq == PutMlqProc(s, proc).mlq
    ensures r.slot == s.slot && r.marked == s.marked && r.flag == s.flag && r.count == s.count
    ensures r.readyQueue == s.readyQueue && r.runQueue == s.runQueue
  {
    PutMlqProc(s.(runningList := Enqueue(s.runningList, proc)), proc)
  }

  /** A process put on a level with room is the last entry of that level. */
  lemma PutProcQueuesAtItsLevel(s: Sched, proc: Pcb)
    requires WellFormed(s) && proc.prio < MAX_PRIO
    requires |s.mlq[proc.prio].procs| < MAX_QUEUE_SIZE
    ensures var q := PutProc(s, proc).mlq[proc.prio].procs;
            q == s.mlq[proc.prio].procs + [proc]
  {
  }

  /** queue_empty in the MLQ build: -1 as soon as some level holds a
      process; otherwise 1 when the ready and run queues are both empty, 0
      if not. */
  function QueueEmpty(s: Sched): (r: int)
    requires |s.mlq| == MAX_PRIO
    ensures r == -1 <==> exists p :: 0 <= p < MAX_PRIO && s.mlq[p].procs != []
    ensures r == 1 <==>
              && (forall p :: 0 <= p < MAX_PRIO ==> s.mlq[p].procs == [])
              && s.readyQueue.procs == [] && s.runQueue.procs == []
    ensures r in {-1, 0, 1}
  {
    if exists p :: 0 <= p < MAX_PRIO && !IsEmpty(Some(s.mlq[p])) then -1
    else if IsEmpty(Some(s.readyQueue)) && IsEmpty(Some(s.runQueue)) then 1
    else 0
  }

  /** Whenever queue_empty does not report -1, get_mlq_proc returns NULL. */
  lemma QueueEmptyAgreesWithPick(s: Sched)
    requires WellFormed(s)
    requires QueueEmpty(s) != -1
    ensures GetMlqProc(s).proc.None?
  {
    EmptyMlqPicksNull(s);
  }
}
