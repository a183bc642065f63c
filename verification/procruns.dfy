// Whole runs of the process manager: safety, dispatch order, PIDs, and the heap beneath.
module ProcessRuns {
  import opened Bytes
  import opened ProcessTable
  import opened HeapBlocks
  import opened UniformStacks
  import opened ProcessSpec

  function Run(s: Sys, ops: seq<Op>): Sys {
    if ops == [] then s else Step(Run(s, ops[..|ops| - 1]), ops[|ops| - 1])
  }

  ghost predicate LegalRun(s: Sys, ops: seq<Op>) {
    ops != [] ==> LegalRun(s, ops[..|ops| - 1]) && Legal(Run(s, ops[..|ops| - 1]), ops[|ops| - 1])
  }

  lemma LastStep(s: Sys, ops: seq<Op>)
    requires ops != [] && LegalRun(s, ops)
    ensures var front, op := ops[..|ops| - 1], ops[|ops| - 1];
            LegalRun(s, front) && Legal(Run(s, front), op) && Run(s, ops) == Step(Run(s, front), op)
  {
    hide Step, Legal;
  }

  lemma RunSnoc(s: Sys, ops: seq<Op>, op: Op)
    requires LegalRun(s, ops) && Legal(Run(s, ops), op)
    ensures LegalRun(s, ops + [op]) && Run(s, ops + [op]) == Step(Run(s, ops), op)
  {
    hide Step, Legal;
    assert (ops + [op])[..|ops|] == ops;
  }

  // Queue safety, PIDs and stack ownership hold in every reachable state.
  lemma {:induction false} Safety(s: Sys, ops: seq<Op>)
    requires Inv(s) && LegalRun(s, ops)
    ensures Inv(Run(s, ops))
  {
    hide Inv, Step;
    if ops != [] {
      LastStep(s, ops);
      Safety(s, ops[..|ops| - 1]);
      StepInv(Run(s, ops[..|ops| - 1]), ops[|ops| - 1]);
    }
  }

  lemma {:induction false} QueueSafety(s: Sys, ops: seq<Op>)
    requires QueueInv(s) && LegalRun(s, ops)
    ensures QueueInv(Run(s, ops))
  {
    hide QueueInv, Step;
    if ops != [] {
      LastStep(s, ops);
      QueueSafety(s, ops[..|ops| - 1]);
      StepQueue(Run(s, ops[..|ops| - 1]), ops[|ops| - 1]);
    }
  }

  // ---------------------------------------------------------------- dispatch order

  // The operation hands the processor to the head of the queue.
  predicate Dispatches(s: Sys, op: Op) {
    s.queue != [] && (op.Yield? || ((op.Exit? || op.Sleep?) && s.current != NULL))
  }

  // The operation puts a process in front of the queue.
  predicate PushesFront(s: Sys, op: Op) {
    match op
    case Create(rip) => DoCreate(s, rip).1 != NULL
    case Wakeup(i) => At(s.slots, i).state == SLEEPING
    case _ => false
  }

  function DispatchCount(s: Sys, ops: seq<Op>): nat {
    if ops == [] then 0
    else DispatchCount(s, ops[..|ops| - 1])
         + if Dispatches(Run(s, ops[..|ops| - 1]), ops[|ops| - 1]) then 1 else 0
  }

  function PushCount(s: Sys, ops: seq<Op>): nat {
    if ops == [] then 0
    else PushCount(s, ops[..|ops| - 1])
         + if PushesFront(Run(s, ops[..|ops| - 1]), ops[|ops| - 1]) then 1 else 0
  }

  lemma StepIndex(s: Sys, op: Op, i: nat)
    requires QueueInv(s) && Legal(s, op) && i < |s.queue|
    ensures var t, x := Step(s, op), s.queue[i];
            if Dispatches(s, op) then
              if i == 0 then t.current == x && At(t.slots, x).state == RUNNING
              else i - 1 < |t.queue| && t.queue[i - 1] == x
            else if PushesFront(s, op) then i + 1 < |t.queue| && t.queue[i + 1] == x
            else i < |t.queue| && t.queue[i] == x
  {
    hide Kmalloc, Kfree;
    assert forall x :: x in s.queue ==> 0 <= x < |s.slots|;
    assert s.queue[0] in s.queue;
  }

  // Where a process that started at queue index i stands after a run.
  function Index(s: Sys, ops: seq<Op>, i: nat): int {
    i + PushCount(s, ops) - DispatchCount(s, ops)
  }

  lemma IndexStep(s: Sys, ops: seq<Op>, i: nat)
    requires ops != []
    ensures var front, op := ops[..|ops| - 1], ops[|ops| - 1];
            var u := Run(s, front);
            Index(s, ops, i) == Index(s, front, i)
              + if Dispatches(u, op) then -1 else if PushesFront(u, op) then 1 else 0
  {
  }

  // The process stands at index j, or has just been dispatched.
  predicate Stands(t: Sys, x: int, j: int) {
    if j >= 0 then j < |t.queue| && t.queue[j] == x
    else j == -1 && t.current == x && At(t.slots, x).state == RUNNING
  }

  lemma StandsStep(u: Sys, op: Op, x: int, j: int)
    requires QueueInv(u) && Legal(u, op) && j >= 0 && Stands(u, x, j)
    ensures Stands(Step(u, op), x, j + if Dispatches(u, op) then -1 else if PushesFront(u, op) then 1 else 0)
  {
    StepIndex(u, op, j);
    hide Step, Dispatches, PushesFront, QueueInv, Legal;
  }

  // Its turn has not come before the last operation of the run.
  predicate NotYet(s: Sys, ops: seq<Op>, i: nat) {
    forall k :: 0 <= k < |ops| ==> Index(s, ops[..k], i) >= 0
  }

  lemma NotYetFront(s: Sys, ops: seq<Op>, i: nat)
    requires ops != [] && NotYet(s, ops, i)
    ensures NotYet(s, ops[..|ops| - 1], i) && Index(s, ops[..|ops| - 1], i) >= 0
  {
    hide Index;
    var n := |ops| - 1;
    forall k | 0 <= k < n ensures Index(s, ops[..n][..k], i) >= 0 {
      assert ops[..n][..k] == ops[..k];
    }
  }

  // As long as it has not had its turn, a process that was at queue index i has index
  // i + p - d after p pushes in front of it and d dispatches; its turn is exactly the
  // (i + 1 + p)-th dispatch.
  lemma {:induction false} DispatchBound(s: Sys, ops: seq<Op>, i: nat)
    requires QueueInv(s) && LegalRun(s, ops) && i < |s.queue|
    requires NotYet(s, ops, i)
    ensures Stands(Run(s, ops), s.queue[i], Index(s, ops, i))
  {
    hide *;
    if ops == [] {
      StandsFirst(s, i);
    } else {
      var front, op := ops[..|ops| - 1], ops[|ops| - 1];
      LastStep(s, ops);
      NotYetFront(s, ops, i);
      DispatchBound(s, front, i);
      QueueSafety(s, front);
      IndexStep(s, ops, i);
      StandsStep(Run(s, front), op, s.queue[i], Index(s, front, i));
    }
  }

  lemma StandsFirst(s: Sys, i: nat)
    requires i < |s.queue|
    ensures Stands(Run(s, []), s.queue[i], Index(s, [], i))
  {
  }

  // A created or woken process is at the head of the queue, the others one place further; a
  // created one is READY with a PID of its own, its entry point, and a stack nobody else has.
  lemma PushedInFront(s: Sys, op: Op)
    requires Inv(s) && Legal(s, op) && PushesFront(s, op)
    ensures var t := Step(s, op);
            && |t.queue| == |s.queue| + 1 && t.queue[1..] == s.queue && t.queue[0] !in s.queue
            && (op.Wakeup? ==> t.queue[0] == op.proc)
            && (op.Create? ==>
                  var x := t.queue[0];
                  && DoCreate(s, op.rip).1 == x && 0 <= x < |t.slots| && Vacant(s.slots[x])
                  && t.slots[x].state == READY && t.slots[x].rip == op.rip && t.slots[x].pid == NextPid(s.created)
                  && t.slots[x].stack !in Live(s.heap) && Owns(t.heap, t.slots[x].stack, STACK))
  {
    hide Kmalloc, Live, Owns;
    KmallocKeeps(s.heap, STACK);
    var x := Step(s, op).queue[0];
    assert SlotInv(s, x);
    if op.Create? { GrantOwns(s.heap, STACK); }
  }

  // ---------------------------------------------------------------- exit, sleep, wakeup

  // A process that exits or sleeps is parked in that state, whether or not another one could
  // take over; waking a sleeper makes it READY at the head of the queue.
  lemma LeaveParks(s: Sys, op: Op)
    requires QueueInv(s) && Legal(s, op) && s.current != NULL && (op.Exit? || op.Sleep?)
    ensures var t, x := Step(s, op), s.current;
            && t.slots[x] == s.slots[x].(state := if op.Exit? then ZOMBIE else SLEEPING)
            && (if s.queue == [] then t.current == x else t.current == s.queue[0] && t.queue == s.queue[1..])
            && (op.Sleep? ==> var u := Step(t, Wakeup(x));
                              u.slots[x] == s.slots[x].(state := READY) && u.queue == [x] + t.queue)
  {
    assert SlotInv(s, s.current);
    if s.queue != [] { assert s.queue[0] in s.queue; }
  }

  // A current process that still has its slot is parked by an exit or sleep exactly when it is not
  // on the queue. If it heads the queue it runs on at once; if it stands further back, it stays
  // queued in a state that no queued process may have.
  lemma LeaveExactly(s: Sys, st: ProcState)
    requires QueueInv(s) && s.current != NULL && HasStack(s.slots[s.current]) && (st == ZOMBIE || st == SLEEPING)
    ensures var t, x := Leave(s, st), s.current;
            && |t.slots| == |s.slots|
            && (t.slots[x].state == st && x !in t.queue <==> x !in s.queue)
            && (QueueInv(t) <==> x !in s.queue || s.queue[0] == x)
            && (s.queue != [] && s.queue[0] == x ==> t.current == x && t.slots[x].state == RUNNING)
  {
    var t, x, u := Leave(s, st), s.current, s.(slots := SetState(s.slots, s.current, st));
    assert SlotInv(s, x);
    if x !in s.queue {
      LeaveQueue(s, st);
    } else {
      assert s.queue[0] in s.queue;
      assert s.queue == [s.queue[0]] + t.queue;
      if s.queue[0] == x {
        assert t.queue == s.queue[1..] && x !in t.queue && t.slots == s.slots[x := s.slots[x].(state := RUNNING)];
        assert forall i :: i in s.queue <==> i in t.queue || i == x;
        forall i: nat | i < |t.slots| ensures SlotInv(t, i) { assert SlotInv(s, i); }
      } else {
        assert x in t.queue && !SlotInv(t, x);
      }
    }
  }

  // A run that gets there: the only process sleeps with nobody else ready, so it stays current;
  // it is woken, which queues it, and when it exits it is dispatched again.
  lemma ExitedRunsOn()
    ensures var ops := [Create(0), Yield, Sleep, Wakeup(0)];
            && LegalRun(BOOT, ops) && !MayLeave(Run(BOOT, ops))
            && var t := Step(Run(BOOT, ops), Exit);
               t.current == 0 && |t.slots| == MAX_PROCS && t.slots[0].state == RUNNING
  {
    var ops := [Create(0), Yield, Sleep, Wakeup(0)];
    BootGrants();
    hide Kmalloc;
    var s1 := Step(BOOT, Create(0));
    assert FindFree(BOOT.slots, 0) == 0;
    assert s1.queue == [0] && s1.slots[0].state == READY && HasStack(s1.slots[0]);
    var s2 := Step(s1, Yield);
    assert s2.current == 0 && s2.queue == [] && s2.slots[0] == s1.slots[0].(state := RUNNING);
    var s3 := Step(s2, Sleep);
    assert s3 == s2.(slots := SetState(s2.slots, 0, SLEEPING));
    var s4 := Step(s3, Wakeup(0));
    assert s4.current == 0 && s4.queue == [0] && s4.slots[0].state == READY;
    hide Step, Run, LegalRun;
    assert LegalRun(BOOT, []) && Run(BOOT, []) == BOOT;
    RunSnoc(BOOT, [], Create(0));
    RunSnoc(BOOT, [] + [Create(0)], Yield);
    RunSnoc(BOOT, [] + [Create(0)] + [Yield], Sleep);
    RunSnoc(BOOT, [] + [Create(0)] + [Yield] + [Sleep], Wakeup(0));
    assert ops == [] + [Create(0)] + [Yield] + [Sleep] + [Wakeup(0)];
  }

  lemma BootGrants()
    ensures Kmalloc([], STACK).1 != 0
  {
    BootExclusive(BOOT);
    NeverOutOfStacks(BOOT);
  }

  // What disturbs a parked process: its destruction, waking a sleeper, and, as long as it is
  // still current because nobody else was ready, its own going to sleep or exiting.
  predicate Disturbs(s: Sys, op: Op, i: nat)
    requires i < |s.slots|
  {
    || op == Destroy(i)
    || (s.slots[i].state == SLEEPING && (op == Wakeup(i) || (op.Exit? && s.current == i)))
    || (s.slots[i].state == ZOMBIE && op.Sleep? && s.current == i)
  }

  lemma ParkedExactly(s: Sys, op: Op, i: nat)
    requires QueueInv(s) && Legal(s, op) && i < |s.slots|
    requires s.slots[i].state == ZOMBIE || s.slots[i].state == SLEEPING
    ensures |Step(s, op).slots| == |s.slots|
    ensures Step(s, op).slots[i] == s.slots[i] <==> !Disturbs(s, op, i)
  {
    hide Kmalloc, Kfree;
    assert SlotInv(s, i);
    if s.queue != [] { assert s.queue[0] in s.queue; }
  }

  ghost predicate Undisturbed(s: Sys, ops: seq<Op>, i: nat) {
    ops != [] ==>
      var front := ops[..|ops| - 1];
      Undisturbed(s, front, i) && i < |Run(s, front).slots| && !Disturbs(Run(s, front), ops[|ops| - 1], i)
  }

  // An exited process never runs again, and its slot is untouched until it is destroyed; a
  // sleeping one stays as it is until it is woken or destroyed. Either may also undo its own
  // parking while it is still current.
  lemma {:induction false} ParkedStays(s: Sys, ops: seq<Op>, i: nat)
    requires QueueInv(s) && LegalRun(s, ops) && i < |s.slots|
    requires s.slots[i].state == ZOMBIE || s.slots[i].state == SLEEPING
    requires Undisturbed(s, ops, i)
    ensures |Run(s, ops).slots| == |s.slots| && Run(s, ops).slots[i] == s.slots[i]
  {
    hide QueueInv, Step, Legal, LegalRun, Disturbs;
    if ops != [] {
      var front, op := ops[..|ops| - 1], ops[|ops| - 1];
      LastStep(s, ops);
      ParkedStays(s, front, i);
      QueueSafety(s, front);
      ParkedExactly(Run(s, front), op, i);
    }
  }

  // ---------------------------------------------------------------- orphans

  // A creation that finds a slot but no memory for the stack returns NULL and leaves behind a
  // READY slot with a PID, without a stack and outside the queue.
  lemma OrphanLeft(s: Sys, rip: nat)
    requires Inv(s) && FindFree(s.slots, 0) < |s.slots| && Kmalloc(s.heap, 8192).1 == 0
    ensures var (t, proc), i := DoCreate(s, rip), FindFree(s.slots, 0);
            && proc == NULL && t.queue == s.queue && i !in t.queue && t.current == s.current
            && t.created == s.created + 1 && |t.slots| == |s.slots|
            && t.slots[i] == Slot((s.created + 1) % WORD, READY, 0, 0, 0)
            && forall k :: 0 <= k < |s.slots| && k != i ==> t.slots[k] == s.slots[k]
  {
    hide Kmalloc;
    assert SlotInv(s, FindFree(s.slots, 0));
  }

  lemma OrphanStep(s: Sys, op: Op, i: nat)
    requires QueueInv(s) && Legal(s, op) && i < |s.slots| && s.slots[i].state == READY && s.slots[i].stack == 0
    ensures |Step(s, op).slots| == |s.slots|
    ensures Step(s, op).slots[i] == s.slots[i] <==> op != Destroy(i)
  {
    hide Kmalloc, Kfree;
    assert SlotInv(s, i);
    if s.queue != [] { assert s.queue[0] in s.queue; }
  }

  // An orphan is never dispatched: it stays as it is until it is destroyed.
  lemma {:induction false} OrphanStays(s: Sys, ops: seq<Op>, i: nat)
    requires QueueInv(s) && LegalRun(s, ops) && i < |s.slots| && s.slots[i].state == READY && s.slots[i].stack == 0
    requires Destroy(i) !in ops
    ensures |Run(s, ops).slots| == |s.slots| && Run(s, ops).slots[i] == s.slots[i]
  {
    hide QueueInv, Step, Legal, LegalRun;
    if ops != [] {
      var front, op := ops[..|ops| - 1], ops[|ops| - 1];
      assert op in ops && forall o :: o in front ==> o in ops;
      LastStep(s, ops);
      OrphanStays(s, front, i);
      QueueSafety(s, front);
      OrphanStep(Run(s, front), op, i);
    }
  }

  // A run that leaves one: the whole arena is allocated, then a process is created.
  lemma OrphanReached()
    ensures var ops := [HeapAlloc(0x80_0000), Create(0)];
            && LegalRun(BOOT, ops)
            && var t := Run(BOOT, ops);
               |t.slots| == MAX_PROCS && t.slots[0] == Slot(1, READY, 0, 0, 0) && t.queue == []
  {
    ArenaTaken();
    BootInv();
    assert LegalRun(BOOT, []) && Run(BOOT, []) == BOOT;
    var s := Step(BOOT, HeapAlloc(0x80_0000));
    assert s.heap == Kmalloc([], 0x80_0000).0 && s.slots == BOOT.slots && s.queue == [] && s.created == 0;
    assert FindFree(s.slots, 0) == 0;
    hide Kmalloc;
    StepInv(BOOT, HeapAlloc(0x80_0000));
    OrphanLeft(s, 0);
    hide Step, Run, LegalRun, Inv;
    RunSnoc(BOOT, [], HeapAlloc(0x80_0000));
    RunSnoc(BOOT, [] + [HeapAlloc(0x80_0000)], Create(0));
    StepCreate(s);
    assert [HeapAlloc(0x80_0000), Create(0)] == [] + [HeapAlloc(0x80_0000)] + [Create(0)];
  }

  lemma StepCreate(s: Sys)
    ensures Step(s, Create(0)) == DoCreate(s, 0).0
  {
  }

  lemma ArenaTaken()
    ensures Kmalloc(Kmalloc([], 0x80_0000).0, 8192).1 == 0
  {
    var h := Kmalloc([], 0x80_0000).0;
    assert RoundUp(0x80_0000) == 0x80_0000 && RoundUp(8192) == 8192;
    assert FirstFit([FRESH], 0x80_0000, 0) == 0;
    assert h == [FRESH.(used := true)];
    assert FirstFit(h, 8192, 0) == FirstFit(h, 8192, 1) == 1;
  }

  // ---------------------------------------------------------------- round robin

  // The running process followed by the queue.
  function Ring(s: Sys): seq<int> { [s.current] + s.queue }

  function Yields(s: Sys, n: nat): Sys {
    if n == 0 then s else DoYield(Yields(s, n - 1))
  }

  // The slots when the head of the ring runs and the rest of it is ready.
  ghost predicate RingStates(s: Sys, slots: seq<Slot>, ring: seq<int>) {
    && |slots| == |s.slots|
    && forall i :: 0 <= i < |s.slots| ==>
         slots[i] == s.slots[i].(state :=
           if i !in ring then s.slots[i].state else if i == ring[0] then RUNNING else READY)
  }

  lemma YieldTurnsRing(s: Sys, t: Sys)
    requires QueueInv(s) && At(s.slots, s.current).state == RUNNING
    requires RingStates(s, t.slots, Ring(t)) && Distinct(Ring(t)) && (forall i :: i in Ring(t) <==> i in Ring(s))
    ensures var u := DoYield(t);
            && Ring(u) == Rotate(Ring(t)) && RingStates(s, u.slots, Ring(u)) && Distinct(Ring(u))
            && (forall i :: i in Ring(u) <==> i in Ring(s))
            && u.heap == t.heap && u.created == t.created
  {
    RotateKeeps(Ring(t));
    assert Ring(t)[0] == t.current && t.current in Ring(t);
    if t.queue == [] {
      assert Rotate(Ring(t)) == Ring(t);
    } else {
      assert t.queue[0] == Ring(t)[1] && t.queue[0] in Ring(t);
      YieldRotates(t);
      var u := DoYield(t);
      hide DoYield, QueueInv, Rotate;
      assert u.current == Ring(u)[0];
      forall i | 0 <= i < |s.slots| && i in Ring(t)
        ensures u.slots[i] == s.slots[i].(state := if i == u.current then RUNNING else READY)
      {
        assert t.slots[i] == s.slots[i].(state := if i == t.current then RUNNING else READY);
      }
    }
  }

  lemma RotateKeeps(q: seq<int>)
    requires Distinct(q)
    ensures Distinct(Rotate(q)) && forall i :: i in Rotate(q) <==> i in q
  {
    if q != [] { assert q == [q[0]] + q[1..]; }
  }

  lemma YieldRotates(t: Sys)
    requires At(t.slots, t.current).state == RUNNING && t.queue != []
    ensures var u := DoYield(t);
            && Ring(u) == Rotate(Ring(t)) && u.current == t.queue[0] && u.heap == t.heap && u.created == t.created
            && u.slots == SetState(SetState(t.slots, t.current, READY), t.queue[0], RUNNING)
  {
    assert Ring(DoYield(t)) == t.queue + [t.current] == Ring(t)[1..] + [Ring(t)[0]];
  }

  lemma {:induction false} YieldsTurnRing(s: Sys, n: nat)
    requires QueueInv(s) && At(s.slots, s.current).state == RUNNING
    ensures var t := Yields(s, n);
            && Ring(t) == Rotations(Ring(s), n) && RingStates(s, t.slots, Ring(t)) && Distinct(Ring(t))
            && (forall i :: i in Ring(t) <==> i in Ring(s))
            && t.heap == s.heap && t.created == s.created
  {
    if n == 0 {
      forall i: nat | i < |s.slots| ensures i in s.queue ==> s.slots[i].state == READY { assert SlotInv(s, i); }
    } else {
      YieldsTurnRing(s, n - 1);
      YieldTurnsRing(s, Yields(s, n - 1));
    }
  }

  // With nothing but yields, a running process and n queued ones are back where they were,
  // states included, after n + 1 yields.
  lemma RoundRobin(s: Sys)
    requires QueueInv(s) && At(s.slots, s.current).state == RUNNING
    ensures Yields(s, |s.queue| + 1) == s
  {
    var n := |s.queue| + 1;
    YieldsTurnRing(s, n);
    YieldsTurnRing(s, 0);
    FullTurn(Ring(s));
    var t := Yields(s, n);
    assert Ring(t) == Ring(s);
    hide Yields, Rotations, QueueInv;
    SameRing(s, t);
  }

  lemma SameRing(s: Sys, t: Sys)
    requires Ring(t) == Ring(s) && RingStates(s, s.slots, Ring(s)) && RingStates(s, t.slots, Ring(t))
    ensures t.current == s.current && t.queue == s.queue && t.slots == s.slots
  {
    assert t.current == Ring(t)[0] && t.queue == Ring(t)[1..];
    assert s.current == Ring(s)[0] && s.queue == Ring(s)[1..];
  }

  // ---------------------------------------------------------------- process identifiers

  lemma {:induction false} GetByPidFirst(slots: seq<Slot>, pid: nat, i: nat)
    requires i <= |slots|
    ensures var r := GetByPid(slots, pid, i);
            if r == NULL then forall k :: i <= k < |slots| ==> slots[k].state == UNUSED || slots[k].pid != pid
            else
              && i <= r < |slots| && slots[r].state != UNUSED && slots[r].pid == pid
              && forall k :: i <= k < r ==> slots[k].state == UNUSED || slots[k].pid != pid
    decreases |slots| - i
  {
    if i < |slots| && !(slots[i].pid == pid && slots[i].state != UNUSED) { GetByPidFirst(slots, pid, i + 1); }
  }

  // A lookup finds the first created slot that carries the PID, or NULL when there is none. While
  // the counter has not wrapped that slot is the only one, and 0 is no PID.
  lemma LookupUnique(s: Sys, pid: nat)
    requires Inv(s)
    ensures var r := GetByPid(s.slots, pid, 0);
            && NULL <= r < MAX_PROCS
            && (r != NULL ==> s.slots[r].state != UNUSED && s.slots[r].pid == pid)
            && (forall k :: 0 <= k < |s.slots| ==>
                  s.slots[k].state != UNUSED && s.slots[k].pid == pid ==> NULL < r <= k)
            && (s.created < WORD ==>
                  && (pid == 0 ==> r == NULL)
                  && (forall k :: 0 <= k < |s.slots| ==>
                        (s.slots[k].state != UNUSED && s.slots[k].pid == pid <==> r == k)))
  {
    GetByPidFirst(s.slots, pid, 0);
  }

  // The PID of a new process leads back to it exactly when no slot below carries the same PID,
  // which before the counter wraps is always the case.
  lemma CreatedFoundExactly(s: Sys, rip: nat)
    requires Inv(s) && FindFree(s.slots, 0) < |s.slots|
    ensures var i, pid := FindFree(s.slots, 0), NextPid(s.created);
            && (GetByPid(Step(s, Create(rip)).slots, pid, 0) == i <==> forall k :: 0 <= k < i ==> s.slots[k].pid != pid)
            && (s.created + 1 < WORD ==> GetByPid(Step(s, Create(rip)).slots, pid, 0) == i)
  {
    hide Kmalloc, StackInv, QueueInv;
    var i, pid, t := FindFree(s.slots, 0), NextPid(s.created), Step(s, Create(rip));
    GetByPidFirst(t.slots, pid, 0);
    assert t.slots[i].pid == pid && t.slots[i].state == READY;
    assert forall k :: 0 <= k < i ==> t.slots[k] == s.slots[k] && !Vacant(s.slots[k]);
    hide GetByPid, FindFree;
  }

  // The 2^64-th process gets PID 0 again, and then a lookup of 0 finds it.
  lemma PidZeroAfterWrap(s: Sys, rip: nat)
    requires Inv(s) && s.created == WORD - 1 && FindFree(s.slots, 0) < |s.slots|
    ensures GetByPid(Step(s, Create(rip)).slots, 0, 0) != NULL
  {
    hide Kmalloc;
    var t := Step(s, Create(rip));
    var i := FindFree(s.slots, 0);
    assert t.slots[i].pid == 0 && t.slots[i].state == READY;
    GetByPidFirst(t.slots, 0, 0);
  }

  lemma StepPidHistory(s: Sys, op: Op, i: nat)
    requires Inv(s) && Legal(s, op) && Step(s, op).created < WORD && i < |s.slots|
    ensures var t := Step(s, op);
            && s.created <= t.created <= s.created + 1 && |t.slots| == |s.slots|
            && (SameLife(t.slots[i], s.slots[i]) || t.slots[i].pid == t.created == s.created + 1)
  {
    hide Kmalloc, Kfree;
    match op {
      case Yield => SchedulingKeepsIdentity(s, op); hide Step;
      case Exit => SchedulingKeepsIdentity(s, op); hide Step;
      case Sleep => SchedulingKeepsIdentity(s, op); hide Step;
      case Wakeup(_) => SchedulingKeepsIdentity(s, op); hide Step;
      case _ =>
    }
  }

  // The same process, or still no process, occupies the slot.
  predicate SameLife(a: Slot, b: Slot) {
    a.pid == b.pid && (a.state == UNUSED <==> b.state == UNUSED)
  }

  // Recycling slots never revives an old PID: whatever carries a PID handed out before the
  // run is the process that carried it then, in the same slot.
  lemma {:induction false} OldPidsNeverRevive(s: Sys, ops: seq<Op>, i: nat)
    requires Inv(s) && LegalRun(s, ops) && Run(s, ops).created < WORD && i < |s.slots|
    ensures var t := Run(s, ops);
            && s.created <= t.created && |t.slots| == |s.slots|
            && (SameLife(t.slots[i], s.slots[i]) || t.slots[i].pid > s.created)
  {
    if ops != [] {
      var n := |ops| - 1;
      var u := Run(s, ops[..n]);
      LastStep(s, ops);
      Safety(s, ops[..n]);
      CreatedGrows(u, ops[n]);
      OldPidsNeverRevive(s, ops[..n], i);
      hide Inv, Step, Run, Legal, LegalRun;
      StepPidHistory(u, ops[n], i);
    }
  }

  lemma CreatedGrows(s: Sys, op: Op)
    ensures s.created <= Step(s, op).created
  {
  }

  // ---------------------------------------------------------------- stack ownership

  // Distinct occupied slots own disjoint, aligned stacks inside the arena, each followed by
  // the initial stack pointer of its process.
  lemma StacksDisjoint(s: Sys, i: nat, j: nat)
    requires Inv(s) && i < |s.slots| && j < |s.slots| && i != j
    requires HasStack(s.slots[i]) && HasStack(s.slots[j])
    ensures var (p, q) := (s.slots[i], s.slots[j]);
            && p.stack % 8 == 0 && HEAP_START < p.stack && p.rsp == p.stack + STACK <= HEAP_END
            && (p.rsp + HEADER <= q.stack || q.rsp + HEADER <= p.stack)
  {
    var p, q := s.slots[i].stack, s.slots[j].stack;
    hide QueueInv, PidInv;
    assert Owns(s.heap, p, STACK) && Owns(s.heap, q, STACK);
    var b :| b in s.heap && b.used && b.Payload() == p && b.size >= STACK;
    var c :| c in s.heap && c.used && c.Payload() == q && c.size >= STACK;
    PayloadsDisjoint(s.heap, b, c);
  }

  // ---------------------------------------------------------------- the heap beneath

  predicate OnlyStacks(op: Op) { !op.HeapAlloc? && !op.HeapCalloc? && !op.HeapFree? }

  // The heap serves stacks only: each block in use is the stack of an occupied slot, and no
  // occupied slot lacks one.
  ghost predicate Exclusive(s: Sys) {
    && Uniform(Boot(s.heap))
    && Live(s.heap) == Stacks(s.slots)
    && forall i :: 0 <= i < |s.slots| && !Vacant(s.slots[i]) ==> s.slots[i].stack != 0
  }

  ghost function Occupied(slots: seq<Slot>): set<int> {
    set i | 0 <= i < |slots| && HasStack(slots[i])
  }

  lemma {:induction false} StacksCount(slots: seq<Slot>)
    requires forall i, j :: 0 <= i < j < |slots| ==>
               HasStack(slots[i]) && HasStack(slots[j]) ==> slots[i].stack != slots[j].stack
    ensures |Stacks(slots)| == |Occupied(slots)| <= |slots|
  {
    if slots != [] {
      var n := |slots| - 1;
      var front := slots[..n];
      assert slots == front + [slots[n]];
      assert HasStack(slots[n]) ==> slots[n].stack !in Stacks(front);
      hide Stacks, Occupied, HasStack;
      StacksCount(front);
      StacksSnoc(front, slots[n]);
    }
  }

  lemma StacksSnoc(front: seq<Slot>, last: Slot)
    ensures Stacks(front + [last]) == Stacks(front) + (if HasStack(last) then {last.stack} else {})
    ensures Occupied(front + [last]) == Occupied(front) + (if HasStack(last) then {|front|} else {})
    ensures |front| !in Occupied(front)
  {
    var slots := front + [last];
    forall p | p in Stacks(front) ensures p in Stacks(slots) {
      var i :| 0 <= i < |front| && HasStack(front[i]) && front[i].stack == p;
      assert slots[i] == front[i];
    }
    if HasStack(last) { assert slots[|front|] == last; }
  }

  lemma BootLive(bs: seq<Block>)
    ensures Live(Boot(bs)) == Live(bs)
  {
  }

  // Under exclusive use there are as many blocks in use as occupied slots, and the heap always
  // has room for another stack.
  lemma NeverOutOfStacks(s: Sys)
    requires Inv(s) && Exclusive(s)
    ensures |Live(s.heap)| == |Occupied(s.slots)|
    ensures Kmalloc(s.heap, STACK).1 != 0
  {
    StacksCount(s.slots);
    BootLive(s.heap);
    FullExactly(Boot(s.heap));
    assert Kmalloc(s.heap, STACK) == Kmalloc(Boot(s.heap), STACK);
  }

  // process_create returns NULL exactly when all 256 slots are occupied.
  lemma CreateFailsExactly(s: Sys, rip: nat)
    requires Inv(s) && Exclusive(s)
    ensures DoCreate(s, rip).1 == NULL <==> forall i :: 0 <= i < MAX_PROCS ==> !Vacant(s.slots[i])
  {
    NeverOutOfStacks(s);
    hide Kmalloc, Exclusive;
  }

  lemma StepExclusive(s: Sys, op: Op)
    requires Inv(s) && Exclusive(s) && Legal(s, op) && OnlyStacks(op)
    ensures Exclusive(Step(s, op))
  {
    hide Kmalloc, Kfree, Uniform, Live;
    var t := Step(s, op);
    match op {
      case Create(_) =>
        NeverOutOfStacks(s);
        KmallocKeeps(s.heap, STACK);
        assert Uniform(Boot(t.heap)) by {
          AllocUniform(Boot(s.heap));
          if t != s { SameBoot(s.heap); }
        }
        CreateStacks(s, t);
      case Destroy(x) =>
        if x != NULL {
          var p := s.slots[x].stack;
          assert p in Stacks(s.slots);
          KfreeKeeps(s.heap, p);
          DestroyStacks(s, t, x);
          assert Uniform(Boot(t.heap)) by { FreeBoot(s.heap, p); }
        }
      case Yield => SchedulingExclusive(s, op);
      case Exit => SchedulingExclusive(s, op);
      case Sleep => SchedulingExclusive(s, op);
      case Wakeup(_) => SchedulingExclusive(s, op);
      case Write(_, _, _) =>
      case HeapAlloc(_) => assert false;
      case HeapCalloc(_, _) => assert false;
      case HeapFree(_) => assert false;
    }
  }

  lemma SchedulingExclusive(s: Sys, op: Op)
    requires Inv(s) && Exclusive(s) && Legal(s, op) && (op.Yield? || op.Exit? || op.Sleep? || op.Wakeup?)
    ensures Exclusive(Step(s, op))
  {
    SchedulingKeepsIdentity(s, op);
    hide Step, Uniform, Live;
    assert Stacks(Step(s, op).slots) == Stacks(s.slots);
  }

  lemma SameBoot(bs: seq<Block>)
    ensures Boot(Kmalloc(bs, STACK).0) == Kmalloc(Boot(bs), STACK).0
  {
  }

  lemma FreeBoot(bs: seq<Block>, p: nat)
    requires Uniform(Boot(bs)) && p in Live(bs)
    ensures Uniform(Boot(Kfree(bs, p)))
  {
    if bs != [] { FreeUniform(bs, p); }
  }

  lemma CreateStacks(s: Sys, t: Sys)
    requires QueueInv(s) && (forall i :: 0 <= i < |s.slots| && !Vacant(s.slots[i]) ==> s.slots[i].stack != 0)
    requires exists rip :: t == Step(s, Create(rip))
    requires Kmalloc(s.heap, STACK).1 != 0
    ensures forall i :: 0 <= i < |t.slots| && !Vacant(t.slots[i]) ==> t.slots[i].stack != 0
    ensures FindFree(s.slots, 0) < |s.slots| ==> Stacks(t.slots) == Stacks(s.slots) + {Kmalloc(s.heap, STACK).1}
    ensures FindFree(s.slots, 0) == |s.slots| ==> t == s
  {
    hide Kmalloc;
    var x := FindFree(s.slots, 0);
    if x < |s.slots| {
      forall p | p in Stacks(s.slots) ensures p in Stacks(t.slots) {
        var i :| 0 <= i < |s.slots| && HasStack(s.slots[i]) && s.slots[i].stack == p;
        assert t.slots[i] == s.slots[i];
      }
      assert t.slots[x].stack == Kmalloc(s.heap, STACK).1 && HasStack(t.slots[x]);
    }
  }

  lemma DestroyStacks(s: Sys, t: Sys, x: int)
    requires Inv(s) && 0 <= x < |s.slots| && HasStack(s.slots[x]) && t == Step(s, Destroy(x))
    ensures Stacks(t.slots) == Stacks(s.slots) - {s.slots[x].stack}
    ensures forall i :: 0 <= i < |t.slots| && !Vacant(t.slots[i]) ==> !Vacant(s.slots[i]) && t.slots[i] == s.slots[i]
  {
    hide Kfree;
    forall p | p in Stacks(s.slots) && p != s.slots[x].stack ensures p in Stacks(t.slots) {
      var i :| 0 <= i < |s.slots| && HasStack(s.slots[i]) && s.slots[i].stack == p;
      assert t.slots[i] == s.slots[i];
    }
  }

  lemma BootExclusive(s: Sys)
    requires s == BOOT || s == BOOT.(heap := [FRESH])
    ensures Inv(s) && Exclusive(s)
  {
    BootInv();
    FreshUniform();
    assert Live([]) == {} && Live([FRESH]) == {} && Stacks(BOOT.slots) == {};
  }

  // From boot (whether or not the heap has been touched by a test allocation that was freed),
  // with the heap used by process stacks only, no creation ever fails for lack of memory.
  lemma {:induction false} NoStackFailure(s: Sys, ops: seq<Op>)
    requires s == BOOT || s == BOOT.(heap := [FRESH])
    requires LegalRun(s, ops) && forall k :: 0 <= k < |ops| ==> OnlyStacks(ops[k])
    ensures Inv(Run(s, ops)) && Exclusive(Run(s, ops))
  {
    if ops == [] {
      BootExclusive(s);
    } else {
      var n := |ops| - 1;
      LastStep(s, ops);
      NoStackFailure(s, ops[..n]);
      assert OnlyStacks(ops[n]);
      hide Inv, Step, Exclusive, Legal;
      StepInv(Run(s, ops[..n]), ops[n]);
      StepExclusive(Run(s, ops[..n]), ops[n]);
    }
  }

  // ---------------------------------------------------------------- the PID counter in runs

  // A state in which a process can be created, run and destroyed any number of times.
  ghost predicate Churning(s: Sys) {
    && Inv(s) && Exclusive(s)
    && FindFree(s.slots, 0) < |s.slots| && At(s.slots, s.current).state != RUNNING
  }

  // The state after n such lives: the other slots and the queue are as they were.
  ghost predicate Churned(s: Sys, t: Sys, n: nat) {
    && Churning(t) && t.created == s.created + n && |t.slots| == |s.slots|
    && FindFree(t.slots, 0) == FindFree(s.slots, 0) && t.queue == s.queue
    && forall i :: 0 <= i < |s.slots| && i != FindFree(s.slots, 0) ==> t.slots[i] == s.slots[i]
  }

  // One life: create, dispatch, destroy.
  lemma OneLife(s: Sys)
    requires Churning(s)
    ensures var s1 := Step(s, Create(0));
            var s2 := Step(s1, Yield);
            var x := FindFree(s.slots, 0);
            Legal(s, Create(0)) && Legal(s1, Yield) && Legal(s2, Destroy(x)) && Churned(s, Step(s2, Destroy(x)), 1)
  {
    hide *;
    ChurningMeans(s);
    var x := FindFree(s.slots, 0);
    NeverOutOfStacks(s);
    var s1 := LifeBegins(s, x);
    assert s1.queue[0] == x && s1.queue[1..] == s.queue;
    var s2, t := LifeEnds(s1, x);
    StepsKeep(s, Create(0));
    StepsKeep(s1, Yield);
    StepsKeep(s2, Destroy(x));
    LifeOver(s, t, x);
  }

  lemma ChurningMeans(s: Sys)
    requires Churning(s)
    ensures Inv(s) && Exclusive(s) && FindFree(s.slots, 0) < |s.slots| && At(s.slots, s.current).state != RUNNING
  {
  }

  lemma LifeOver(s: Sys, t: Sys, x: nat)
    requires Inv(t) && Exclusive(t) && t.created == s.created + 1 && t.queue == s.queue
    requires x == FindFree(s.slots, 0) < |s.slots| == |t.slots| && t.slots[x].state == DEAD
    requires At(t.slots, t.current).state != RUNNING
    requires forall i :: 0 <= i < |s.slots| && i != x ==> t.slots[i] == s.slots[i]
    ensures Churned(s, t, 1)
  {
    FindFreeKept(s.slots, t.slots, x);
    hide Inv, Exclusive, FindFree;
  }

  lemma StepsKeep(s: Sys, op: Op)
    requires Inv(s) && Exclusive(s) && Legal(s, op) && OnlyStacks(op)
    ensures Inv(Step(s, op)) && Exclusive(Step(s, op))
  {
    StepInv(s, op);
    StepExclusive(s, op);
  }

  lemma LifeBegins(s: Sys, x: nat) returns (t: Sys)
    requires Inv(s) && x == FindFree(s.slots, 0) < |s.slots| && At(s.slots, s.current).state != RUNNING
    requires Kmalloc(s.heap, STACK).1 != 0
    ensures Legal(s, Create(0)) && OnlyStacks(Create(0))
    ensures t == Step(s, Create(0)) && t.queue == [x as int] + s.queue && x !in s.queue
    ensures |t.slots| == |s.slots| && t.current == s.current && t.created == s.created + 1
    ensures t.slots[x].state == READY && !Vacant(t.slots[x]) && At(t.slots, t.current).state != RUNNING
    ensures forall i :: 0 <= i < |s.slots| && i != x ==> t.slots[i] == s.slots[i]
  {
    t := Step(s, Create(0));
    assert SlotInv(s, x);
  }

  lemma LifeEnds(s: Sys, x: nat) returns (u: Sys, t: Sys)
    requires s.queue != [] && s.queue[0] == x < |s.slots| && x !in s.queue[1..]
    requires !Vacant(s.slots[x]) && At(s.slots, s.current).state != RUNNING
    ensures Legal(s, Yield) && OnlyStacks(Yield) && Legal(u, Destroy(x)) && OnlyStacks(Destroy(x))
    ensures u == Step(s, Yield) && t == Step(u, Destroy(x))
    ensures t.queue == s.queue[1..] && t.created == s.created
    ensures |t.slots| == |s.slots| && t.slots[x].state == DEAD && At(t.slots, t.current).state != RUNNING
    ensures forall i :: 0 <= i < |s.slots| && i != x ==> t.slots[i] == s.slots[i]
  {
    hide Kfree;
    u := Step(s, Yield);
    t := Step(u, Destroy(x));
  }

  lemma {:induction false} FindFreeIs(slots: seq<Slot>, i: nat, x: nat)
    requires i <= x < |slots| && Vacant(slots[x]) && forall k :: i <= k < x ==> !Vacant(slots[k])
    ensures FindFree(slots, i) == x
    decreases x - i
  {
    if i < x { FindFreeIs(slots, i + 1, x); }
  }

  lemma FindFreeKept(slots: seq<Slot>, after: seq<Slot>, x: nat)
    requires x == FindFree(slots, 0) < |slots| == |after| && Vacant(after[x])
    requires forall i :: 0 <= i < |slots| && i != x ==> after[i] == slots[i]
    ensures FindFree(after, 0) == x
  {
    FindFreeIs(after, 0, x);
  }

  // Any number of processes can be created, one after the other in the same slot.
  lemma {:induction false} Lives(s: Sys, ops: seq<Op>, n: nat) returns (all: seq<Op>)
    requires LegalRun(s, ops) && Churning(Run(s, ops))
    ensures LegalRun(s, all) && Churned(Run(s, ops), Run(s, all), n)
  {
    hide *;
    if n == 0 {
      all := ops;
      ChurnedStart(Run(s, ops));
    } else {
      var front := Lives(s, ops, n - 1);
      var u := Run(s, front);
      ChurnedAgain(Run(s, ops), u, n - 1);
      OneLife(u);
      all := front + [Create(0)] + [Yield] + [Destroy(FindFree(u.slots, 0))];
      RunSnoc(s, front, Create(0));
      RunSnoc(s, front + [Create(0)], Yield);
      RunSnoc(s, front + [Create(0)] + [Yield], Destroy(FindFree(u.slots, 0)));
      ChurnedThen(Run(s, ops), u, Run(s, all), n - 1);
    }
  }

  lemma ChurnedStart(s: Sys)
    requires Churning(s)
    ensures Churned(s, s, 0)
  {
  }

  lemma ChurnedAgain(s: Sys, t: Sys, n: nat)
    requires Churned(s, t, n)
    ensures Churning(t)
  {
  }

  lemma ChurnedThen(s: Sys, t: Sys, u: Sys, n: nat)
    requires Churned(s, t, n) && Churned(t, u, 1)
    ensures Churned(s, u, n + 1)
  {
    hide Churning, FindFree;
  }

  // A legal run from boot in which the 2^64-th creation gets PID 0 and a lookup of 0 finds it.
  lemma PidZeroReached() returns (ops: seq<Op>)
    ensures LegalRun(BOOT, ops) && GetByPid(Run(BOOT, ops).slots, 0, 0) != NULL
  {
    BootExclusive(BOOT);
    assert FindFree(BOOT.slots, 0) == 0;
    assert LegalRun(BOOT, []) && Run(BOOT, []) == BOOT;
    var front := Lives(BOOT, [], WORD - 1);
    hide *;
    var u := Run(BOOT, front);
    CounterAtEnd(u);
    RunSnoc(BOOT, front, Create(0));
    ops := front + [Create(0)];
  }

  lemma CounterAtEnd(u: Sys)
    requires Churned(BOOT, u, WORD - 1)
    ensures Legal(u, Create(0)) && GetByPid(Step(u, Create(0)).slots, 0, 0) != NULL
  {
    hide Kmalloc, FindFree;
    PidZeroAfterWrap(u, 0);
  }

  // A legal run in which a lookup of the PID of the newest process finds an older one: the first
  // process stays in slot 0, and 2^64 creations later PID 1 comes round again in slot 1.
  lemma StalePidReached() returns (ops: seq<Op>)
    ensures LegalRun(BOOT, ops)
    ensures var t := Run(BOOT, ops);
            && |t.slots| == MAX_PROCS && t.slots[0].pid == 1 == t.slots[1].pid
            && t.slots[0].state == READY == t.slots[1].state && GetByPid(t.slots, 1, 0) == 0
  {
    var s := FirstCreated();
    assert LegalRun(BOOT, []) && Run(BOOT, []) == BOOT;
    assert Legal(BOOT, Create(0));
    RunSnoc(BOOT, [], Create(0));
    var front := Lives(BOOT, [] + [Create(0)], WORD - 1);
    hide *;
    var u := Run(BOOT, front);
    PidOneAgain(s, u);
    RunSnoc(BOOT, front, Create(0));
    ops := front + [Create(0)];
  }

  lemma FirstCreated() returns (s: Sys)
    ensures s == Step(BOOT, Create(0)) && Churning(s) && FindFree(s.slots, 0) == 1 && s.created == 1
    ensures s.slots[0].pid == 1 && s.slots[0].state == READY
  {
    BootExclusive(BOOT);
    BootGrants();
    StepsKeep(BOOT, Create(0));
    assert FindFree(BOOT.slots, 0) == 0;
    hide Kmalloc, Inv, Exclusive;
    s := Step(BOOT, Create(0));
    FindFreeIs(s.slots, 0, 1);
  }

  lemma PidOneAgain(s: Sys, u: Sys)
    requires Churned(s, u, WORD - 1) && FindFree(s.slots, 0) == 1 < |s.slots| && s.created == 1
    requires s.slots[0].pid == 1 && s.slots[0].state == READY
    ensures Legal(u, Create(0))
    ensures var t := Step(u, Create(0));
            && |t.slots| == MAX_PROCS && t.slots[0].pid == 1 == t.slots[1].pid
            && t.slots[0].state == READY == t.slots[1].state && GetByPid(t.slots, 1, 0) == 0
  {
    assert u.slots[0] == s.slots[0];
    assert |u.slots| == MAX_PROCS;
    hide Kmalloc, FindFree, Inv, Exclusive;
  }
}
