/** The bounded process queue of queue.c: an array of at most MAX_QUEUE_SIZE
    process records plus a size, from which dequeue removes the entry with
    the highest priority value, the earliest one among equals. The queue is
    the sequence of its first `size` slots. */
module ProcQueue {
  import opened Config
  import Regions

  /** The instruction kinds of a process's code segment. */
  datatype Opcode = CalcOp | AllocOp | FreeOp | ReadOp | WriteOp | SyscallOp

  /** One instruction; the kill system call's free pass uses `arg0` of an
      ALLOC as the region id. */
  datatype Instr = Instr(opcode: Opcode, arg0: int)

  /** A process control block: the fields the scheduler and the kill
      system call look at. A process is finished once `pc` reaches the
      length of its code. */
  datatype Pcb = Pcb(pid: int, prio: nat, path: string, pc: nat, code: seq<Instr>, mm: Regions.AddrSpace)

  datatype Queue = Queue(procs: seq<Pcb>)

  /** The queue never holds more than its array capacity. */
  predicate Bounded(q: Queue)
  {
    |q.procs| <= MAX_QUEUE_SIZE
  }

  /** empty: a missing queue counts as empty. */
  function IsEmpty(q: Option<Queue>): (r: bool)
    ensures r <==> q.None? || q.value.procs == []
  {
    q.None? || |q.value.procs| == 0
  }

  /** enqueue: a full queue drops the process; otherwise it goes into slot
      `size` and every earlier slot is kept. */
  function Enqueue(q: Queue, p: Pcb): (r: Queue)
    requires Bounded(q)
    ensures Bounded(r)
    ensures |q.procs| == MAX_QUEUE_SIZE ==> r == q
    ensures |q.procs| < MAX_QUEUE_SIZE ==>
              |r.procs| == |q.procs| + 1 && r.procs[..|q.procs|] == q.procs && r.procs[|q.procs|] == p
  {
    if |q.procs| == MAX_QUEUE_SIZE then q else Queue(q.procs + [p])
  }

  /** Index `i` holds a highest priority value of `s`, and no earlier entry
      holds that value: the entry dequeue's strict `>` comparison settles on. */
  predicate IsFirstMax(s: seq<Pcb>, i: int)
  {
    && 0 <= i < |s|
    && (forall j :: 0 <= j < |s| ==> s[j].prio <= s[i].prio)
    && (forall j :: 0 <= j < i ==> s[j].prio < s[i].prio)
  }

  /** At most one index is the first maximum. */
  lemma FirstMaxUnique(s: seq<Pcb>, i: int, k: int)
    requires IsFirstMax(s, i) && IsFirstMax(s, k)
    ensures i == k
  {
    assert s[i].prio == s[k].prio;
  }

  /** The index the priority scan of dequeue ends on, defined over the
      prefix it has looked at. */
  function FirstMax(s: seq<Pcb>): (r: nat)
    requires |s| > 0
    ensures IsFirstMax(s, r)
  {
    if |s| == 1 then 0
    else
      var k := FirstMax(s[..|s| - 1]);
      if s[|s| - 1].prio > s[k].prio then |s| - 1 else k
  }

  /** `s` without its entry at `i`, the others in their original order. */
  function RemoveAt<T>(s: seq<T>, i: nat): (r: seq<T>)
    requires i < |s|
    ensures |r| == |s| - 1
    ensures forall k :: 0 <= k < i ==> r[k] == s[k]
    ensures forall k :: i <= k < |r| ==> r[k] == s[k + 1]
  {
    s[..i] + s[i + 1..]
  }

  /** dequeue: nothing from an empty queue; otherwise the first entry of
      highest priority, and the queue without it. */
  function Dequeue(q: Queue): (r: Option<(Pcb, Queue)>)
    ensures r.None? <==> |q.procs| == 0
    ensures r.Some? ==> exists i :: IsFirstMax(q.procs, i) && r.value == (q.procs[i], Queue(RemoveAt(q.procs, i)))
  {
    if |q.procs| == 0 then None
    else
      var i := FirstMax(q.procs);
      Some((q.procs[i], Queue(RemoveAt(q.procs, i))))
  }

  /** Removes index `i` the way queue.c and sys_killall.c do it: every later
      slot is copied one place down, then the size shrinks by one. */
  method ShiftDown<T>(s: seq<T>, i: nat) returns (t: seq<T>)
    requires i < |s|
    ensures t == RemoveAt(s, i)
  {
    var a := s;
    var j := i;
    while j < |s| - 1
      invariant i <= j <= |s| - 1
      invariant |a| == |s|
      invariant forall k :: 0 <= k < i ==> a[k] == s[k]
      invariant forall k :: i <= k < j ==> a[k] == s[k + 1]
      invariant forall k :: j <= k < |s| ==> a[k] == s[k]
    {
      a := a[j := a[j + 1]];
      j := j + 1;
    }
    t := a[..|s| - 1];
  }

  /** dequeue with its two loops: the scan for the highest priority with a
      strict comparison, then the shift that closes the gap. */
  method DequeueLoop(q: Queue) returns (r: Option<(Pcb, Queue)>)
    ensures r.None? <==> |q.procs| == 0
    ensures r.Some? ==> exists i :: IsFirstMax(q.procs, i) && r.value == (q.procs[i], Queue(RemoveAt(q.procs, i)))
  {
    if |q.procs| == 0 {
      return None;
    }
    var s := q.procs;
    var best := s[0];
    var index := 0;
    var i := 0;
    while i < |s|
      invariant 0 <= i <= |s|
      invariant 0 <= index < |s| && best == s[index]
      invariant index <= i
      invariant forall j :: 0 <= j < i ==> s[j].prio <= best.prio
      invariant forall j :: 0 <= j < index ==> s[j].prio < best.prio
    {
      if s[i].prio > best.prio {
        best := s[i];
        index := i;
      }
      i := i + 1;
    }
    var rest := ShiftDown(s, index);
    return Some((best, Queue(rest)));
  }

  /** Dequeue hands out an entry of the queue. */
  lemma DequeuedIsQueued(q: Queue)
    ensures Dequeue(q).Some? ==> exists i :: 0 <= i < |q.procs| && q.procs[i] == Dequeue(q).value.0
  {
  }

  /** The queue is empty exactly when dequeue has nothing to hand out. */
  lemma DequeueNoneIffEmpty(q: Queue)
    ensures IsEmpty(Some(q)) <==> Dequeue(q).None?
  {
  }

  /** Dequeue removes exactly one entry, and the returned one. */
  lemma DequeueRemovesOne(q: Queue)
    requires |q.procs| > 0
    ensures var (p, q') := Dequeue(q).value;
            && |q'.procs| == |q.procs| - 1
            && multiset(q'.procs) + multiset{p} == multiset(q.procs)
  {
    var i := FirstMax(q.procs);
    var s := q.procs;
    assert s == s[..i] + [s[i]] + s[i + 1..];
  }

  /** Within one priority level every entry has the same priority, and
      dequeue behaves as a FIFO: it takes the head. */
  lemma DequeueEqualPrioIsFifo(q: Queue)
    requires |q.procs| > 0
    requires forall j :: 0 <= j < |q.procs| ==> q.procs[j].prio == q.procs[0].prio
    ensures Dequeue(q) == Some((q.procs[0], Queue(q.procs[1..])))
  {
    var i := FirstMax(q.procs);
    assert q.procs[i].prio == q.procs[0].prio;
    assert RemoveAt(q.procs, 0) == q.procs[1..];
  }

  /** A process enqueued on an empty queue is the one dequeued next,
      leaving the queue empty again. */
  lemma EnqueueThenDequeue(p: Pcb)
    ensures Dequeue(Enqueue(Queue([]), p)) == Some((p, Queue([])))
  {
    var q := Enqueue(Queue([]), p);
    assert q.procs == [p];
    assert FirstMax(q.procs) == 0;
  }

  /** A process with a priority above every queued one is dequeued before
      any of them, whatever its position. */
  lemma EnqueueHigherIsNext(q: Queue, p: Pcb)
    requires Bounded(q) && |q.procs| < MAX_QUEUE_SIZE
    requires forall j :: 0 <= j < |q.procs| ==> q.procs[j].prio < p.prio
    ensures Dequeue(Enqueue(q, p)) == Some((p, q))
  {
    var s := Enqueue(q, p).procs;
    var n := |q.procs|;
    assert IsFirstMax(s, n);
    FirstMaxUnique(s, FirstMax(s), n);
    assert RemoveAt(s, n) == q.procs;
  }
}
