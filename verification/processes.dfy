// The process manager of process.c: a static slot table, an intrusive ready queue, a current
// pointer and a PID counter over the kernel heap, refining ProcessSpec step by step.
module Processes {
  import opened Bytes
  import opened HeapBlocks
  import opened UniformStacks
  import opened ProcessTable
  import opened ProcessSpec
  import opened StackBytes
  import HeapMemory
  import KernelHeap

  class Manager {
    const heap: KernelHeap.Heap
    const processes: array<Proc>
    var current: int
    var readyQueue: int
    var nextPid: nat
    ghost var queue: seq<int>
    ghost var created: nat

    ghost function Abs(): Sys
      reads this, processes, heap
    {
      Sys(Slots(processes[..]), current, queue, created, heap.blocks)
    }

    // The fields, the links and the memory spell out some state.
    ghost predicate Formed()
      reads this, processes, heap, heap.ram
    {
      && heap.Valid()
      && Linked(processes[..], readyQueue, queue)
      && nextPid == NextPid(created)
      && processes.Length == MAX_PROCS && NULL <= current < MAX_PROCS
    }

    // And that state is a good one.
    ghost predicate Valid()
      reads this, processes, heap, heap.ram
    {
      Formed() && Inv(Abs())
    }

    // What Formed says, piece by piece, for methods that keep the definitions hidden.
    lemma Opened()
      requires Valid() || Formed()
      ensures Formed() && heap.Valid() && Linked(processes[..], Nth(queue, 0), queue) && readyQueue == Nth(queue, 0)
      ensures nextPid == NextPid(created) && (Valid() <==> Inv(Abs())) && processes.Length == MAX_PROCS
      ensures NULL <= current < MAX_PROCS && forall i :: i in queue ==> 0 <= i < MAX_PROCS
      ensures Abs() == Sys(Slots(processes[..]), current, queue, created, heap.blocks)
      ensures |heap.ram[..]| == HeapMemory.RAM_SIZE && HeapBlocks.Heap(heap.blocks)
      ensures NULL == -1 && MAX_PROCS == 256 && STACK == 8192 && WORD == 0x1_0000_0000_0000_0000
    {
    }

    lemma Closed(s: Sys)
      requires heap.Valid() && Linked(processes[..], readyQueue, queue) && nextPid == NextPid(created)
      requires processes.Length == MAX_PROCS && NULL <= current < MAX_PROCS
      requires s == Sys(Slots(processes[..]), current, queue, created, heap.blocks)
      ensures Abs() == s && Formed() && (Valid() <==> Inv(s))
    {
    }

    // The zeroed static state.
    constructor (heap: KernelHeap.Heap)
      requires heap.Valid() && heap.blocks == []
      ensures Valid() && Abs() == BOOT && this.heap == heap && fresh(processes)
    {
      this.heap := heap;
      processes := new Proc[MAX_PROCS](_ => Proc(ZERO, NULL));
      current, readyQueue, nextPid := NULL, NULL, 1;
      queue, created := [], 0;
      new;
      assert Slots(processes[..]) == BOOT.slots;
      BootInv();
    }

    // Every slot is cleared, and so is its link; the head of the queue stays where it was. Hence
    // the state is a good one again exactly when nothing was queued.
    method ProcessInit()
      requires Valid()
      modifies this`queue, processes
      ensures queue == old(queue)[..if old(queue) == [] then 0 else 1]
      ensures Linked(processes[..], readyQueue, queue)
      ensures Abs() == old(Abs()).(slots := BOOT.slots, queue := queue)
      ensures Valid() <==> old(queue) == []
    {
      Opened();
      ghost var s, q := Abs(), queue[..if queue == [] then 0 else 1];
      EmptyTable(s, q);
      hide *;
      var i := 0;
      while i < MAX_PROCS
        invariant i <= MAX_PROCS == processes.Length && forall k :: 0 <= k < i ==> processes[k] == Proc(ZERO, NULL)
        invariant queue == old(queue)
      {
        processes[i] := Proc(ZERO, NULL);
        i := i + 1;
      }
      ClearedTable(processes[..], q);
      queue := q;
      Closed(s.(slots := BOOT.slots, queue := q));
    }

    method FindFreeProcess() returns (proc: int)
      requires processes.Length == MAX_PROCS
      ensures var i := FindFree(Slots(processes[..]), 0);
              proc == if i == MAX_PROCS then NULL else i
    {
      var i := 0;
      ghost var slots := Slots(processes[..]);
      while i < MAX_PROCS
        invariant i <= MAX_PROCS && FindFree(slots, 0) == FindFree(slots, i)
      {
        if processes[i].slot.state == UNUSED || processes[i].slot.state == DEAD { return i; }
        i := i + 1;
      }
      return NULL;
    }

    method Create(entry: nat) returns (proc: int)
      requires Valid()
      modifies this, processes, heap, heap.ram
      ensures Valid() && (Abs(), proc) == DoCreate(old(Abs()), entry)
      ensures heap.ram[..] == StepRam(old(Abs()), old(heap.ram[..]), ProcessSpec.Create(entry))
    {
      hide *;
      ghost var s, ps, q := Abs(), processes[..], queue;
      Opened();
      CreateCases(s, entry);
      RamCases(s, heap.ram[..], entry, NULL);
      proc := FindFreeProcess();
      if proc == NULL { return NULL; }
      processes[proc] := Proc(ZERO, NULL);
      processes[proc] := processes[proc].(slot := Slot(nextPid, READY, 0, 0, 0));
      nextPid := (nextPid + 1) % WORD;
      created := created + 1;
      PidAdvances(created - 1);
      var stack := heap.Kmalloc(STACK);
      if stack == 0 {
        ChangeSlot(ps, q, proc, processes[proc]);
        assert processes[..] == ps[proc := processes[proc]];
        Closed(DoCreate(s, entry).0);
        return NULL;
      }
      var slot := processes[proc].slot.(stack := stack, rsp := stack + STACK, rip := entry);
      processes[proc] := Proc(slot, readyQueue);
      readyQueue := proc;
      PushSlot(ps, q, proc, slot);
      assert processes[..] == ps[proc := Proc(slot, Nth(q, 0))];
      queue := [proc] + queue;
      Closed(DoCreate(s, entry).0);
    }

    method Destroy(proc: int)
      requires Valid() && Legal(Abs(), ProcessSpec.Destroy(proc))
      modifies processes, heap, heap.ram
      ensures Valid() && Abs() == DoDestroy(old(Abs()), proc)
      ensures heap.ram[..] == StepRam(old(Abs()), old(heap.ram[..]), ProcessSpec.Destroy(proc))
    {
      hide *;
      ghost var s, ps := Abs(), processes[..];
      Opened();
      DestroyCases(s, proc);
      RamCases(s, heap.ram[..], 0, proc);
      if proc == NULL { return; }
      if processes[proc].slot.stack != 0 {
        heap.Kfree(processes[proc].slot.stack);
      }
      processes[proc] := processes[proc].(slot := processes[proc].slot.(state := DEAD));
      ChangeSlot(ps, queue, proc, processes[proc]);
      assert processes[..] == ps[proc := processes[proc]];
      Closed(DoDestroy(s, proc));
    }

    // Called in a good state, or right after the current process has stopped running.
    method Yield()
      requires Formed() && (At(Abs().slots, current).state == RUNNING ==> current !in queue)
      modifies this, processes
      ensures Formed() && Abs() == DoYield(old(Abs()))
      ensures old(Valid()) ==> Valid()
    {
      hide *;
      ghost var s, ps, q := Abs(), processes[..], queue;
      Opened();
      YieldCases(s);
      if readyQueue == NULL { return; }
      if current != NULL && processes[current].slot.state == RUNNING {
        var last := FindLast(processes, readyQueue, queue);
        processes[current] := processes[current].(slot := processes[current].slot.(state := READY));
        processes[last] := processes[last].(next := current);
        processes[current] := processes[current].(next := NULL);
        AppendSlot(ps, processes[..], q, current);
        queue := queue + [current];
      }
      Resume();
      Closed(DoYield(s));
    }

    // The second half of process_yield: the head of the queue runs.
    method Resume()
      requires processes.Length == MAX_PROCS && Linked(processes[..], Nth(queue, 0), queue) && queue != []
      requires readyQueue == Nth(queue, 0)
      modifies this, processes
      ensures Linked(processes[..], readyQueue, queue)
      ensures queue == old(queue)[1..] && current == old(queue)[0]
      ensures Slots(processes[..]) == SetState(old(Slots(processes[..])), current, RUNNING)
      ensures created == old(created) && nextPid == old(nextPid)
    {
      ghost var ps, q := processes[..], queue;
      current := readyQueue;
      readyQueue := processes[readyQueue].next;
      processes[current] := processes[current].(next := NULL);
      processes[current] := processes[current].(slot := processes[current].slot.(state := RUNNING));
      assert current == q[0] && current !in q[1..];
      PopLinked(ps, processes[..], q);
      queue := queue[1..];
      assert Slots(processes[..]) == SetState(Slots(ps), current, RUNNING);
    }

    // The current process takes state st, and stays where it is on the queue if it is there.
    method Stop(st: ProcState)
      requires Formed() && current != NULL
      modifies processes
      ensures Formed() && Abs() == old(Abs()).(slots := SetState(old(Abs()).slots, current, st))
    {
      hide *;
      ghost var s, ps := Abs(), processes[..];
      Opened();
      StopCases(ps, current, st);
      processes[current] := processes[current].(slot := processes[current].slot.(state := st));
      ChangeSlot(ps, queue, current, processes[current]);
      assert processes[..] == ps[current := processes[current]];
      Closed(s.(slots := SetState(s.slots, current, st)));
    }

    // Any process may call it; what the state is good for afterwards is said by LeaveExactly.
    method Exit()
      requires Valid()
      modifies this, processes
      ensures Formed() && Abs() == Leave(old(Abs()), ZOMBIE)
      ensures MayLeave(old(Abs())) ==> Valid()
    {
      hide *;
      ghost var s := Abs();
      Opened();
      LeaveCases(s, ZOMBIE);
      if current == NULL { return; }
      Stop(ZOMBIE);
      Yield();
      Opened();
    }

    method Sleep()
      requires Valid()
      modifies this, processes
      ensures Formed() && Abs() == Leave(old(Abs()), SLEEPING)
      ensures MayLeave(old(Abs())) ==> Valid()
    {
      hide *;
      ghost var s := Abs();
      Opened();
      LeaveCases(s, SLEEPING);
      if current == NULL { return; }
      Stop(SLEEPING);
      Yield();
      Opened();
    }

    method Wakeup(proc: int)
      requires Valid() && NULL <= proc < processes.Length
      modifies this, processes
      ensures Valid() && Abs() == DoWakeup(old(Abs()), proc)
    {
      hide *;
      ghost var s, ps := Abs(), processes[..];
      Opened();
      WakeupCases(s, proc);
      if proc == NULL || processes[proc].slot.state != SLEEPING { return; }
      processes[proc] := processes[proc].(slot := processes[proc].slot.(state := READY));
      processes[proc] := processes[proc].(next := readyQueue);
      readyQueue := proc;
      PushSlot(ps, queue, proc, processes[proc].slot);
      assert processes[..] == ps[proc := processes[proc]];
      queue := [proc] + queue;
      Closed(DoWakeup(s, proc));
    }

    method GetProcessByPid(pid: nat) returns (proc: int)
      requires Valid()
      ensures proc == GetByPid(Abs().slots, pid, 0)
    {
      InvFacts(Abs());
      hide KernelHeap.Heap.Valid, Inv;
      ghost var slots := Abs().slots;
      var i := 0;
      while i < MAX_PROCS
        invariant i <= MAX_PROCS && GetByPid(slots, pid, 0) == GetByPid(slots, pid, i)
      {
        if processes[i].slot.pid == pid && processes[i].slot.state != UNUSED { return i; }
        i := i + 1;
      }
      return NULL;
    }
  }

  // ---------------------------------------------------------------- what the invariant gives the code

  lemma InvFacts(s: Sys)
    requires Inv(s)
    ensures |s.slots| == MAX_PROCS && NULL <= s.current < MAX_PROCS
  {
  }

  // process_create by cases; the slot it picks is not on the queue.
  lemma CreateCases(s: Sys, entry: nat)
    requires Inv(s)
    ensures |s.slots| == MAX_PROCS && Inv(DoCreate(s, entry).0)
    ensures var i, (h, p), pid := FindFree(s.slots, 0), Kmalloc(s.heap, STACK), NextPid(s.created);
            if i == MAX_PROCS then DoCreate(s, entry) == (s, NULL)
            else
              && i !in s.queue
              && DoCreate(s, entry) ==
                   if p == 0 then
                     (Sys(s.slots[i := Slot(pid, READY, 0, 0, 0)], s.current, s.queue, s.created + 1, h), NULL)
                   else
                     (Sys(s.slots[i := Slot(pid, READY, p, p + STACK, entry)],
                          s.current, [i as int] + s.queue, s.created + 1, h), i)
  {
    hide Kmalloc;
    StepInv(s, ProcessSpec.Create(entry));
    var i := FindFree(s.slots, 0);
    if i < |s.slots| { assert SlotInv(s, i); }
  }

  lemma RamCases(s: Sys, m: seq<byte>, entry: nat, x: int)
    requires |m| == HeapMemory.RAM_SIZE && HeapBlocks.Heap(s.heap)
    ensures StepRam(s, m, ProcessSpec.Create(entry)) ==
              if FindFree(s.slots, 0) == |s.slots| then m else HeapMemory.KmallocImage(m, s.heap, STACK)
    ensures StepRam(s, m, ProcessSpec.Destroy(x)) ==
              if x == NULL || At(s.slots, x).stack == 0 then m
              else HeapMemory.KfreeImage(m, s.heap, At(s.slots, x).stack)
  {
    KfreeNull(m, s.heap);
  }

  lemma PidAdvances(created: nat)
    ensures NextPid(created + 1) == (NextPid(created) + 1) % WORD
  {
  }

  lemma DestroyCases(s: Sys, x: int)
    requires Inv(s) && Legal(s, ProcessSpec.Destroy(x))
    ensures Inv(DoDestroy(s, x))
    ensures x == NULL ==> DoDestroy(s, x) == s
    ensures x != NULL ==>
              var stack := At(s.slots, x).stack;
              && 0 <= x < |s.slots| && x !in s.queue
              && At(s.slots, x) == s.slots[x]
              && (stack == 0 || stack in Live(s.heap))
              && DoDestroy(s, x) ==
                   Sys(s.slots[x := s.slots[x].(state := DEAD)], s.current, s.queue, s.created,
                       if stack == 0 then s.heap else Kfree(s.heap, stack))
  {
    hide Kfree, Live;
    StepInv(s, ProcessSpec.Destroy(x));
    if x != NULL && s.slots[x].stack != 0 { OwnsLive(s.heap, s.slots[x].stack); }
  }

  lemma YieldCases(s: Sys)
    requires |s.slots| == MAX_PROCS && NULL <= s.current < MAX_PROCS && forall i :: i in s.queue ==> 0 <= i < MAX_PROCS
    requires At(s.slots, s.current).state == RUNNING ==> s.current !in s.queue
    ensures Inv(s) ==> Inv(DoYield(s))
    ensures s.queue == [] ==> DoYield(s) == s
    ensures Nth(s.queue, 0) == NULL <==> s.queue == []
    ensures var again := s.current != NULL && At(s.slots, s.current).state == RUNNING;
            var slots := if again then SetState(s.slots, s.current, READY) else s.slots;
            var queue := if again then s.queue + [s.current] else s.queue;
            && (0 <= s.current < |s.slots| ==> At(s.slots, s.current) == s.slots[s.current])
            && (s.queue != [] ==>
                  && Nth(queue, 0) == Nth(s.queue, 0)
                  && DoYield(s) == Sys(SetState(slots, queue[0], RUNNING), queue[0], queue[1..], s.created, s.heap))
  {
    if Inv(s) { StepInv(s, ProcessSpec.Yield); }
    if s.queue != [] { assert s.queue[0] in s.queue; }
  }

  lemma LeaveCases(s: Sys, st: ProcState)
    requires Inv(s) && (st == ZOMBIE || st == SLEEPING)
    ensures MayLeave(s) ==> Inv(Leave(s, st))
    ensures s.current == NULL ==> Leave(s, st) == s
    ensures s.current != NULL ==>
              var t := s.(slots := SetState(s.slots, s.current, st));
              Leave(s, st) == DoYield(t) && At(t.slots, s.current).state == st
  {
    if MayLeave(s) { StepInv(s, if st == ZOMBIE then ProcessSpec.Exit else ProcessSpec.Sleep); }
  }

  lemma StopCases(ps: seq<Proc>, x: int, st: ProcState)
    requires 0 <= x < |ps|
    ensures SetState(Slots(ps), x, st) == Slots(ps)[x := ps[x].slot.(state := st)]
  {
  }

  lemma WakeupCases(s: Sys, x: int)
    requires Inv(s) && NULL <= x < |s.slots|
    ensures Inv(DoWakeup(s, x))
    ensures x == NULL || s.slots[x].state != SLEEPING ==> DoWakeup(s, x) == s
    ensures x != NULL && s.slots[x].state == SLEEPING ==>
              && x !in s.queue
              && DoWakeup(s, x) ==
                   Sys(s.slots[x := s.slots[x].(state := READY)], s.current, [x] + s.queue, s.created, s.heap)
  {
    StepInv(s, ProcessSpec.Wakeup(x));
    if x != NULL { assert SlotInv(s, x); }
  }

  // The running process goes behind the last one in the queue.
  lemma AppendSlot(ps: seq<Proc>, r: seq<Proc>, q: seq<int>, x: int)
    requires Linked(ps, Nth(q, 0), q) && q != [] && 0 <= x < |ps| && x !in q
    requires var last := q[|q| - 1];
             0 <= last < |ps| && r == ps[x := Proc(ps[x].slot.(state := READY), NULL)][last := ps[last].(next := x)]
    ensures Linked(r, Nth(q, 0), q + [x]) && Nth(q + [x], 0) == Nth(q, 0)
    ensures Slots(r) == SetState(Slots(ps), x, READY)
  {
    AppendLinked(ps, r, q, x);
  }

  lemma ClearedTable(ps: seq<Proc>, q: seq<int>)
    requires |ps| == MAX_PROCS && forall k :: 0 <= k < |ps| ==> ps[k] == Proc(ZERO, NULL)
    requires |q| <= 1 && forall i :: i in q ==> 0 <= i < MAX_PROCS
    ensures Slots(ps) == BOOT.slots && Linked(ps, Nth(q, 0), q)
  {
    assert Slots(ps) == BOOT.slots;
    if q != [] { assert q[0] in q; }
  }

  // With every slot UNUSED the invariant holds exactly for an empty queue.
  lemma EmptyTable(s: Sys, q: seq<int>)
    requires Inv(s) && (forall i :: i in q ==> 0 <= i < MAX_PROCS)
    ensures Inv(s.(slots := BOOT.slots, queue := q)) <==> q == []
  {
    var t := s.(slots := BOOT.slots, queue := q);
    if q != [] {
      assert q[0] in q && !SlotInv(t, q[0]);
    }
  }
}
