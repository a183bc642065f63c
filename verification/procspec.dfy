// The process manager as a state machine over slots, a ready queue and the kernel heap.
module ProcessSpec {
  import opened Bytes
  import opened ProcessTable
  import opened HeapBlocks
  import opened UniformStacks
  import HeapMemory

  // created counts the slots ever given out; next_pid is created + 1 in 64 bits.
  datatype Sys = Sys(slots: seq<Slot>, current: int, queue: seq<int>, created: nat, heap: seq<Block>)

  datatype Op =
    | Create(rip: nat) | Destroy(proc: int)
    | Yield | Exit | Sleep | Wakeup(proc: int)
    | HeapAlloc(size: nat) | HeapCalloc(num: nat, size: nat) | HeapFree(ptr: nat)   // other users of the heap
    | Write(ptr: nat, offset: nat, value: byte)   // into a stack or another block in use

  const ZERO: Slot := Slot(0, UNUSED, 0, 0, 0)

  const BOOT: Sys := Sys(seq(MAX_PROCS, _ => ZERO), NULL, [], 0, [])

  // ---------------------------------------------------------------- operations

  predicate Vacant(s: Slot) { s.state == UNUSED || s.state == DEAD }

  function At(slots: seq<Slot>, i: int): Slot {
    if 0 <= i < |slots| then slots[i] else ZERO
  }

  function SetState(slots: seq<Slot>, i: int, st: ProcState): (r: seq<Slot>)
    ensures |r| == |slots|
  {
    if 0 <= i < |slots| then slots[i := slots[i].(state := st)] else slots
  }

  function FindFree(slots: seq<Slot>, i: nat): (r: nat)
    requires i <= |slots|
    ensures i <= r <= |slots|
    ensures r < |slots| ==> Vacant(slots[r])
    ensures forall k :: i <= k < r ==> !Vacant(slots[k])
    decreases |slots| - i
  {
    if i == |slots| || Vacant(slots[i]) then i else FindFree(slots, i + 1)
  }

  function NextPid(created: nat): nat { (created + 1) % WORD }

  function DoCreate(s: Sys, rip: nat): (Sys, int) {
    var i := FindFree(s.slots, 0);
    if i == |s.slots| then (s, NULL)
    else
      var (h, p) := Kmalloc(s.heap, STACK);
      if p == 0 then
        (s.(slots := s.slots[i := Slot(NextPid(s.created), READY, 0, 0, 0)], created := s.created + 1, heap := h), NULL)
      else
        (Sys(s.slots[i := Slot(NextPid(s.created), READY, p, p + STACK, rip)],
             s.current, [i as int] + s.queue, s.created + 1, h), i)
  }

  function DoDestroy(s: Sys, i: int): Sys {
    if i == NULL then s
    else
      var stack := At(s.slots, i).stack;
      s.(slots := SetState(s.slots, i, DEAD), heap := if stack == 0 then s.heap else Kfree(s.heap, stack))
  }

  // A running current process goes to the end of the queue.
  function Requeue(s: Sys): Sys {
    if At(s.slots, s.current).state != RUNNING then s
    else s.(slots := SetState(s.slots, s.current, READY), queue := s.queue + [s.current])
  }

  // The head of the queue becomes the running current process.
  function Dispatch(s: Sys): Sys
    requires s.queue != []
  {
    s.(slots := SetState(s.slots, s.queue[0], RUNNING), current := s.queue[0], queue := s.queue[1..])
  }

  function DoYield(s: Sys): Sys {
    if s.queue == [] then s else Dispatch(Requeue(s))
  }

  // process_exit and process_sleep: take the state st, then yield.
  function Leave(s: Sys, st: ProcState): Sys {
    if s.current == NULL then s else DoYield(s.(slots := SetState(s.slots, s.current, st)))
  }

  function DoWakeup(s: Sys, i: int): Sys {
    if At(s.slots, i).state != SLEEPING then s
    else s.(slots := SetState(s.slots, i, READY), queue := [i] + s.queue)
  }

  function Step(s: Sys, op: Op): Sys {
    match op
    case Create(rip) => DoCreate(s, rip).0
    case Destroy(i) => DoDestroy(s, i)
    case Yield => DoYield(s)
    case Exit => Leave(s, ZOMBIE)
    case Sleep => Leave(s, SLEEPING)
    case Wakeup(i) => DoWakeup(s, i)
    case HeapAlloc(size) => s.(heap := Kmalloc(s.heap, size).0)
    case HeapCalloc(num, size) => s.(heap := Kmalloc(s.heap, Product(num, size)).0)
    case HeapFree(p) => s.(heap := Kfree(s.heap, p))
    case Write(_, _, _) => s
  }

  // First slot at or after i that was ever created and carries pid, or NULL.
  function GetByPid(slots: seq<Slot>, pid: nat, i: nat): (r: int)
    requires i <= |slots|
    decreases |slots| - i
  {
    if i == |slots| then NULL
    else if slots[i].pid == pid && slots[i].state != UNUSED then i
    else GetByPid(slots, pid, i + 1)
  }

  // ---------------------------------------------------------------- calling discipline

  predicate HasStack(s: Slot) { !Vacant(s) && s.stack != 0 }

  ghost function Stacks(slots: seq<Slot>): set<nat> {
    set i | 0 <= i < |slots| && HasStack(slots[i]) :: slots[i].stack
  }

  // The current process may exit or go to sleep as long as it still has its slot and is not on
  // the queue itself.
  predicate MayLeave(s: Sys) {
    s.current == NULL || (HasStack(At(s.slots, s.current)) && s.current !in s.queue)
  }

  // Destroy is called only on a live slot that is not queued; other heap users free only what is
  // theirs, call kcalloc without a fault, and everybody writes inside blocks in use.
  ghost predicate Legal(s: Sys, op: Op) {
    match op
    case Create(_) => true
    case Yield => true
    case Exit => MayLeave(s)
    case Sleep => MayLeave(s)
    case Wakeup(i) => true
    case Destroy(i) => i == NULL || (0 <= i < |s.slots| && !Vacant(s.slots[i]) && i !in s.queue)
    case HeapAlloc(size) => size < WORD
    case HeapCalloc(num, size) => num < WORD && size < WORD && !HeapMemory.Faults(s.heap, Product(num, size))
    case HeapFree(p) => p == 0 || (p in Live(s.heap) && p !in Stacks(s.slots))
    case Write(p, offset, _) => Owns(s.heap, p, offset + 1)
  }

  // ---------------------------------------------------------------- invariants

  // What a slot's state says about its membership in the queue.
  ghost predicate SlotInv(s: Sys, i: nat)
    requires i < |s.slots|
  {
    var p := s.slots[i];
    && p.state in {UNUSED, READY, RUNNING, SLEEPING, ZOMBIE, DEAD}
    && (p.state == READY ==> (i in s.queue <==> p.stack != 0))
    && (i in s.queue ==> p.state == READY)
    && (p.state == RUNNING ==> i == s.current)
    && (p.state in {RUNNING, SLEEPING, ZOMBIE} ==> p.stack != 0)
  }

  // The queue has no duplicates and holds READY slots only; a READY slot is queued exactly
  // when it has a stack (the others are orphans of a failed stack allocation); the running
  // slot is the current one and is not queued.
  ghost predicate QueueInv(s: Sys) {
    && |s.slots| == MAX_PROCS
    && NULL <= s.current < MAX_PROCS
    && Distinct(s.queue)
    && (forall i :: i in s.queue ==> 0 <= i < MAX_PROCS)
    && (forall i: nat :: i < |s.slots| ==> SlotInv(s, i))
  }

  // Slots ever created carry distinct PIDs from 1 to created, until the counter wraps.
  ghost predicate PidInv(s: Sys) {
    && (forall i :: 0 <= i < |s.slots| ==> s.slots[i].state == UNUSED ==> s.slots[i].pid == 0)
    && (s.created < WORD ==>
          && (forall i :: 0 <= i < |s.slots| ==> s.slots[i].state != UNUSED ==> 1 <= s.slots[i].pid <= s.created)
          && (forall i, j :: 0 <= i < j < |s.slots| ==>
                s.slots[i].state != UNUSED && s.slots[j].state != UNUSED ==> s.slots[i].pid != s.slots[j].pid))
  }

  // Every occupied slot with a stack owns a used heap block of its own, and its initial stack
  // pointer is the end of the stack inside that block.
  ghost predicate StackInv(s: Sys) {
    && Heap(s.heap)
    && (forall i :: 0 <= i < |s.slots| ==> HasStack(s.slots[i]) ==>
          Owns(s.heap, s.slots[i].stack, STACK) && s.slots[i].rsp == s.slots[i].stack + STACK)
    && (forall i, j :: 0 <= i < j < |s.slots| ==>
          HasStack(s.slots[i]) && HasStack(s.slots[j]) ==> s.slots[i].stack != s.slots[j].stack)
  }

  ghost predicate Inv(s: Sys) { QueueInv(s) && PidInv(s) && StackInv(s) }

  lemma BootInv()
    ensures Inv(BOOT)
  {
  }

  // ---------------------------------------------------------------- queue safety

  lemma RequeueQueue(s: Sys)
    requires QueueInv(s)
    ensures QueueInv(Requeue(s)) && At(Requeue(s).slots, s.current).state != RUNNING
  {
    var t := Requeue(s);
    if t != s {
      assert SlotInv(s, s.current);
      assert forall i :: i in t.queue <==> i in s.queue || i == s.current;
      forall i: nat | i < |t.slots| ensures SlotInv(t, i) {
        assert SlotInv(s, i);
      }
    }
  }

  lemma DispatchQueue(s: Sys)
    requires QueueInv(s) && s.queue != [] && At(s.slots, s.current).state != RUNNING
    ensures QueueInv(Dispatch(s))
  {
    var t, x := Dispatch(s), s.queue[0];
    assert x in s.queue && x !in t.queue;
    assert forall i :: i in s.queue <==> i in t.queue || i == x by { assert s.queue == [x] + t.queue; }
    assert SlotInv(s, x);
    forall i: nat | i < |t.slots| ensures SlotInv(t, i) {
      assert SlotInv(s, i);
    }
  }

  lemma YieldQueue(s: Sys)
    requires QueueInv(s)
    ensures QueueInv(DoYield(s))
  {
    if s.queue != [] {
      RequeueQueue(s);
      DispatchQueue(Requeue(s));
    }
  }

  lemma LeaveQueue(s: Sys, st: ProcState)
    requires QueueInv(s) && MayLeave(s)
    requires st == ZOMBIE || st == SLEEPING
    ensures QueueInv(Leave(s, st))
  {
    if s.current != NULL {
      var t := s.(slots := SetState(s.slots, s.current, st));
      forall i: nat | i < |t.slots| ensures SlotInv(t, i) {
        assert SlotInv(s, i);
      }
      YieldQueue(t);
    }
  }

  lemma PushQueue(s: Sys, t: Sys, x: nat)
    requires QueueInv(s) && x < MAX_PROCS && x !in s.queue
    requires t.queue == [x as int] + s.queue && t.current == s.current && |t.slots| == |s.slots|
    requires t.slots[x].state == READY && t.slots[x].stack != 0
    requires forall i :: 0 <= i < |s.slots| && i != x ==> t.slots[i] == s.slots[i]
    ensures QueueInv(t)
  {
    assert forall i :: i in t.queue <==> i == x || i in s.queue;
    forall i: nat | i < |t.slots| ensures SlotInv(t, i) {
      assert SlotInv(s, i);
    }
  }

  lemma StepQueue(s: Sys, op: Op)
    requires QueueInv(s) && Legal(s, op)
    ensures QueueInv(Step(s, op))
  {
    hide Kmalloc, Kfree;
    var t := Step(s, op);
    match op {
      case Yield => YieldQueue(s);
      case Exit => LeaveQueue(s, ZOMBIE);
      case Sleep => LeaveQueue(s, SLEEPING);
      case Create(_) =>
        var x := FindFree(s.slots, 0);
        if x < |s.slots| { assert SlotInv(s, x); }
        if t.queue != s.queue {
          PushQueue(s, t, x);
        } else if t.slots != s.slots {
          UnqueuedChange(s, t, x);
        }
      case Wakeup(x) =>
        if t != s {
          assert SlotInv(s, x);
          PushQueue(s, t, x);
        }
      case Destroy(x) =>
        if x != NULL { UnqueuedChange(s, t, x); }
      case HeapAlloc(_) => UnqueuedChange(s, t, 0);
      case HeapCalloc(_, _) => UnqueuedChange(s, t, 0);
      case HeapFree(_) => UnqueuedChange(s, t, 0);
      case Write(_, _, _) =>
    }
  }

  // A change to one slot that is not queued and ends up DEAD or an orphan, or no change.
  lemma UnqueuedChange(s: Sys, t: Sys, x: nat)
    requires QueueInv(s) && t.queue == s.queue && t.current == s.current
    requires |t.slots| == |s.slots| && x < |s.slots|
    requires t.slots == s.slots
          || (x !in s.queue && (t.slots[x].state == DEAD || (t.slots[x].state == READY && t.slots[x].stack == 0)))
    requires forall i :: 0 <= i < |s.slots| && i != x ==> t.slots[i] == s.slots[i]
    ensures QueueInv(t)
  {
    forall i: nat | i < |t.slots| ensures SlotInv(t, i) {
      assert SlotInv(s, i);
    }
  }

  // ---------------------------------------------------------------- identity and stacks

  // Same PID and same stack: only a move between occupied states.
  predicate SameIdentity(a: Slot, b: Slot) {
    a.pid == b.pid && a.stack == b.stack && a.rsp == b.rsp && a.rip == b.rip
    && (Vacant(a) <==> Vacant(b)) && (a.state == UNUSED <==> b.state == UNUSED)
  }

  // Scheduling operations touch neither PIDs nor stacks.
  lemma SchedulingKeepsIdentity(s: Sys, op: Op)
    requires QueueInv(s) && Legal(s, op) && (op.Yield? || op.Exit? || op.Sleep? || op.Wakeup?)
    ensures var t := Step(s, op);
            && t.heap == s.heap && t.created == s.created && |t.slots| == |s.slots|
            && forall i :: 0 <= i < |s.slots| ==> SameIdentity(t.slots[i], s.slots[i])
  {
    forall i | i in s.queue ensures s.slots[i].state == READY { assert SlotInv(s, i); }
    if op.Exit? || op.Sleep? {
      if s.current != NULL { assert SlotInv(s, s.current); }
    }
    var q := Requeue(s);
    if s.queue != [] { assert s.queue[0] in s.queue && q.queue[0] == s.queue[0]; }
  }

  lemma StepPids(s: Sys, op: Op)
    requires QueueInv(s) && PidInv(s) && Legal(s, op)
    ensures PidInv(Step(s, op))
  {
    hide Kmalloc, Kfree;
    match op {
      case Yield => SchedulingKeepsIdentity(s, op); hide Step;
      case Exit => SchedulingKeepsIdentity(s, op); hide Step;
      case Sleep => SchedulingKeepsIdentity(s, op); hide Step;
      case Wakeup(_) => SchedulingKeepsIdentity(s, op); hide Step;
      case Create(rip) => CreatePids(s, rip); hide PidInv, DoCreate;
      case _ =>
    }
  }

  lemma CreatePids(s: Sys, rip: nat)
    requires PidInv(s)
    ensures PidInv(DoCreate(s, rip).0)
  {
    hide Kmalloc;
    var i, t := FindFree(s.slots, 0), DoCreate(s, rip).0;
    if i < |s.slots| {
      assert t.slots[i].pid == NextPid(s.created) && t.slots[i].state == READY;
      assert forall k :: 0 <= k < |s.slots| && k != i ==> t.slots[k] == s.slots[k];
      hide FindFree;
    }
  }

  // Every used block but the one at `gone` is still there, and no stack starts at `gone`.
  ghost predicate HeapKeeps(s: Sys, h: seq<Block>, gone: nat) {
    && Heap(h)
    && (forall b :: b in s.heap && b.used && b.Payload() != gone ==> b in h)
  }

  lemma StacksKept(s: Sys, t: Sys, x: int, gone: nat)
    requires StackInv(s) && |t.slots| == |s.slots| && HeapKeeps(s, t.heap, gone)
    requires forall i :: 0 <= i < |s.slots| && i != x ==> SameIdentity(t.slots[i], s.slots[i])
    requires forall i :: 0 <= i < |s.slots| && i != x && HasStack(s.slots[i]) ==> s.slots[i].stack != gone
    requires 0 <= x < |s.slots| && HasStack(t.slots[x]) ==>
               && Owns(t.heap, t.slots[x].stack, STACK) && t.slots[x].rsp == t.slots[x].stack + STACK
               && t.slots[x].stack !in Live(s.heap)
    ensures StackInv(t)
  {
  }

  lemma StepStacks(s: Sys, op: Op)
    requires QueueInv(s) && StackInv(s) && Legal(s, op)
    ensures StackInv(Step(s, op))
  {
    hide Kmalloc, Kfree, Owns, Live;
    var t := Step(s, op);
    match op {
      case Create(_) =>
        KmallocKeeps(s.heap, STACK);
        Tiling(s.heap, STACK, 0);
        var p := Kmalloc(s.heap, STACK).1;
        if p != 0 { GrantOwns(s.heap, STACK); }
        StacksKept(s, t, FindFree(s.slots, 0), 0);
      case Destroy(x) =>
        if x != NULL {
          var p := s.slots[x].stack;
          if p != 0 {
            OwnsLive(s.heap, p);
            KfreeKeeps(s.heap, p);
            Tiling(s.heap, 0, p);
          }
          StacksKept(s, t, x, p);
        }
      case HeapAlloc(size) =>
        KmallocKeeps(s.heap, size);
        Tiling(s.heap, size, 0);
        StacksKept(s, t, NULL, 0);
      case HeapCalloc(num, size) =>
        KmallocKeeps(s.heap, Product(num, size));
        Tiling(s.heap, Product(num, size), 0);
        StacksKept(s, t, NULL, 0);
      case HeapFree(p) =>
        KfreeKeeps(s.heap, p);
        Tiling(s.heap, 0, p);
        StacksKept(s, t, NULL, p);
      case Write(_, _, _) =>
      case _ =>
        SchedulingKeepsIdentity(s, op);
        hide Step;
        StacksKept(s, t, NULL, 0);
    }
  }

  lemma GrantOwns(bs: seq<Block>, size: nat)
    requires Heap(bs) && 0 < size <= WORD - 8 && Kmalloc(bs, size).1 != 0
    ensures Owns(Kmalloc(bs, size).0, Kmalloc(bs, size).1, size)
  {
    Capacity(bs, size);
  }

  lemma OwnsLive(bs: seq<Block>, p: nat)
    requires Owns(bs, p, STACK)
    ensures p in Live(bs)
  {
  }

  // Every legal operation keeps the whole invariant.
  lemma StepInv(s: Sys, op: Op)
    requires Inv(s) && Legal(s, op)
    ensures Inv(Step(s, op))
  {
    hide Step;
    StepQueue(s, op);
    StepPids(s, op);
    StepStacks(s, op);
  }
}
