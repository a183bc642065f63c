// The process manager together with the memory under its heap: what a process keeps on its
// stack survives whatever the other processes do.
module StackBytes {
  import opened Bytes
  import opened ProcessTable
  import opened HeapBlocks
  import opened UniformStacks
  import opened ProcessSpec
  import opened ProcessRuns
  import HeapMemory
  import HeapRuns

  // The memory after an operation, as Processes.Manager leaves it.
  ghost function StepRam(s: Sys, m: seq<byte>, op: Op): (r: seq<byte>)
    requires |m| == HeapMemory.RAM_SIZE && Heap(s.heap)
    ensures |r| == |m|
  {
    match op
    case Create(_) => if FindFree(s.slots, 0) == |s.slots| then m else HeapMemory.KmallocImage(m, s.heap, STACK)
    case Destroy(i) => if i == NULL then m else HeapMemory.KfreeImage(m, s.heap, At(s.slots, i).stack)
    case HeapAlloc(size) => HeapMemory.KmallocImage(m, s.heap, size)
    case HeapCalloc(num, size) => HeapMemory.KcallocImage(m, s.heap, Product(num, size))
    case HeapFree(p) => HeapMemory.KfreeImage(m, s.heap, p)
    case Write(p, offset, value) => if p + offset < |m| then m[p + offset := value] else m
    case _ => m
  }

  ghost function RunRam(s: Sys, m: seq<byte>, ops: seq<Op>): (r: seq<byte>)
    requires |m| == HeapMemory.RAM_SIZE && Inv(s) && LegalRun(s, ops)
    ensures |r| == |m|
  {
    if ops == [] then m
    else
      var front := ops[..|ops| - 1];
      LastStep(s, ops); Safety(s, front);
      StepRam(Run(s, front), RunRam(s, m, front), ops[|ops| - 1])
  }

  // The 8192 bytes from p.
  function StackAt(m: seq<byte>, p: nat): seq<byte>
    requires p + STACK <= |m|
  {
    m[p..p + STACK]
  }

  lemma StackBlock(s: Sys, i: nat) returns (b: Block)
    requires Inv(s) && i < |s.slots| && HasStack(s.slots[i])
    ensures b in s.heap && b.used && b.Payload() == s.slots[i].stack && b.size >= STACK
    ensures b.Payload() + STACK <= b.End() <= HeapMemory.RAM_SIZE
  {
    assert Owns(s.heap, s.slots[i].stack, STACK);
    b :| b in s.heap && b.used && b.Payload() == s.slots[i].stack && b.size >= STACK;
    var j :| 0 <= j < |s.heap| && s.heap[j] == b;
    InArena(s.heap, j);
  }

  // Only the destruction of its process gives a stack away.
  lemma StackStays(s: Sys, op: Op, i: nat)
    requires Inv(s) && i < |s.slots| && HasStack(s.slots[i]) && op != Destroy(i)
    ensures var t := Step(s, op);
            i < |t.slots| && HasStack(t.slots[i]) && t.slots[i].stack == s.slots[i].stack
  {
    hide Kmalloc, Kfree, StackInv, PidInv;
    assert SlotInv(s, i);
  }

  lemma LegalMeans(s: Sys, op: Op)
    requires Inv(s) && Legal(s, op)
    ensures Heap(s.heap)
    ensures op.HeapCalloc? ==> Asked(s, op) < WORD && !HeapMemory.Faults(s.heap, Asked(s, op))
    ensures op.Write? ==> Owns(s.heap, op.ptr, op.offset + 1)
  {
  }

  // The pointer an operation frees is not the stack of a process that it does not destroy.
  lemma FreesAnother(s: Sys, op: Op, i: nat)
    requires Inv(s) && Legal(s, op) && i < |s.slots| && HasStack(s.slots[i]) && op != Destroy(i)
    ensures Freed(s, op) != s.slots[i].stack
  {
    hide QueueInv, PidInv, Live;
    assert s.slots[i].stack in Stacks(s.slots);
  }

  lemma SameStack(m: seq<byte>, r: seq<byte>, b: Block)
    requires b.size >= STACK && b.End() <= |m| == |r| && r[b.Payload()..b.End()] == m[b.Payload()..b.End()]
    ensures StackAt(r, b.Payload()) == StackAt(m, b.Payload())
  {
    assert r[b.Payload()..b.End()][..STACK] == StackAt(r, b.Payload());
    assert m[b.Payload()..b.End()][..STACK] == StackAt(m, b.Payload());
  }

  predicate WritesTo(op: Op, p: nat) { op.Write? && op.ptr == p }

  // A write inside a block in use stays inside its payload.
  lemma WriteInside(bs: seq<Block>, q: nat, offset: nat) returns (c: Block)
    requires Heap(bs) && Owns(bs, q, offset + 1)
    ensures c in bs && c.used && c.Payload() == q && q + offset < c.End() <= HEAP_END < HeapMemory.RAM_SIZE
  {
    c :| c in bs && c.used && c.Payload() == q && c.size >= offset + 1;
    var j :| 0 <= j < |bs| && bs[j] == c;
    InArena(bs, j);
  }

  lemma WriteSpares(m: seq<byte>, bs: seq<Block>, q: nat, offset: nat, v: byte, b: Block)
    requires |m| == HeapMemory.RAM_SIZE && Heap(bs) && Owns(bs, q, offset + 1) && b in bs && b.Payload() != q
    ensures b.End() <= HeapMemory.RAM_SIZE && q + offset < |m|
    ensures m[q + offset := v][b.Payload()..b.End()] == m[b.Payload()..b.End()]
  {
    var c := WriteInside(bs, q, offset);
    PayloadsDisjoint(bs, b, c);
  }

  lemma WriteHolds(m: seq<byte>, bs: seq<Block>, q: nat, offset: nat, v: byte)
    requires |m| == HeapMemory.RAM_SIZE && Heap(bs) && HeapMemory.Holds(m, bs) && Owns(bs, q, offset + 1)
    ensures q + offset < |m| && HeapMemory.Holds(m[q + offset := v], bs)
  {
    hide HeapMemory.Holds, Owns;
    var c := WriteInside(bs, q, offset);
    HeapMemory.PayloadWriteHolds(m, m[q + offset := v], bs, c);
  }

  lemma StepSparesStack(s: Sys, m: seq<byte>, op: Op, i: nat)
    requires Inv(s) && Legal(s, op) && |m| == HeapMemory.RAM_SIZE
    requires i < |s.slots| && HasStack(s.slots[i]) && op != Destroy(i) && !WritesTo(op, s.slots[i].stack)
    ensures s.slots[i].stack + STACK <= HeapMemory.RAM_SIZE
    ensures StackAt(StepRam(s, m, op), s.slots[i].stack) == StackAt(m, s.slots[i].stack)
  {
    var b := StackBlock(s, i);
    FreesAnother(s, op, i);
    LegalMeans(s, op);
    HeapAfter(s, m, op);
    var size, q := Asked(s, op), Freed(s, op);
    hide *;
    match op {
      case Create(_) => HeapRuns.KmallocSpares(m, s.heap, size, b);
      case HeapAlloc(_) => HeapRuns.KmallocSpares(m, s.heap, size, b);
      case Destroy(_) => HeapRuns.KfreeSpares(m, s.heap, q, b);
      case HeapCalloc(_, _) => HeapRuns.KcallocSpares(m, s.heap, size, b);
      case HeapFree(_) => HeapRuns.KfreeSpares(m, s.heap, q, b);
      case Write(q, offset, v) => WriteSpares(m, s.heap, q, offset, v, b);
      case _ =>
    }
    SameStack(m, StepRam(s, m, op), b);
  }

  // Until its process is destroyed, a stack stays where it is and, as long as nobody writes to
  // it, keeps every byte, whatever else is created, destroyed, allocated, zeroed, written and freed.
  lemma {:induction false} StackSurvives(s: Sys, m: seq<byte>, ops: seq<Op>, i: nat)
    requires Inv(s) && LegalRun(s, ops) && |m| == HeapMemory.RAM_SIZE
    requires i < |s.slots| && HasStack(s.slots[i])
    requires Destroy(i) !in ops && forall o :: o in ops ==> !WritesTo(o, s.slots[i].stack)
    ensures var t, p := Run(s, ops), s.slots[i].stack;
            && i < |t.slots| && HasStack(t.slots[i]) && t.slots[i].stack == p
            && p + STACK <= HeapMemory.RAM_SIZE && StackAt(RunRam(s, m, ops), p) == StackAt(m, p)
  {
    if ops == [] {
      var b := StackBlock(s, i);
    } else {
      var front, op := ops[..|ops| - 1], ops[|ops| - 1];
      LastStep(s, ops);
      Safety(s, front);
      assert op in ops && forall o :: o in front ==> o in ops;
      StackSurvives(s, m, front, i);
      hide *;
      StackStays(Run(s, front), op, i);
      StepSparesStack(Run(s, front), RunRam(s, m, front), op, i);
    }
  }

  // The headers in memory spell out the heap of the state after every run.
  lemma {:induction false} HeadersHold(s: Sys, m: seq<byte>, ops: seq<Op>)
    requires Inv(s) && LegalRun(s, ops) && |m| == HeapMemory.RAM_SIZE && HeapMemory.Holds(m, s.heap)
    ensures HeapMemory.Holds(RunRam(s, m, ops), Run(s, ops).heap)
  {
    if ops != [] {
      var front, op := ops[..|ops| - 1], ops[|ops| - 1];
      LastStep(s, ops);
      Safety(s, front);
      HeadersHold(s, m, front);
      StepHolds(Run(s, front), RunRam(s, m, front), op);
    }
  }

  lemma KfreeNull(m: seq<byte>, bs: seq<Block>)
    requires |m| == HeapMemory.RAM_SIZE && Heap(bs)
    ensures HeapMemory.KfreeImage(m, bs, 0) == m
  {
  }

  // The size kmalloc is called with, 0 for none, and the pointer kfree is called with.
  function Asked(s: Sys, op: Op): nat {
    match op
    case Create(_) => if FindFree(s.slots, 0) == |s.slots| then 0 else STACK
    case HeapAlloc(size) => size
    case HeapCalloc(num, size) => Product(num, size)
    case _ => 0
  }

  function Freed(s: Sys, op: Op): nat {
    match op
    case Destroy(i) => if i == NULL then 0 else At(s.slots, i).stack
    case HeapFree(p) => p
    case _ => 0
  }

  lemma HeapAfter(s: Sys, m: seq<byte>, op: Op)
    requires |m| == HeapMemory.RAM_SIZE && Heap(s.heap)
    ensures var size, p := Asked(s, op), Freed(s, op);
            && (op.Create? || op.HeapAlloc? ==>
                  && Step(s, op).heap == Kmalloc(s.heap, size).0
                  && StepRam(s, m, op) == HeapMemory.KmallocImage(m, s.heap, size))
            && (op.HeapCalloc? ==>
                  && Step(s, op).heap == Kmalloc(s.heap, size).0
                  && StepRam(s, m, op) == HeapMemory.KcallocImage(m, s.heap, size))
            && (op.Destroy? || op.HeapFree? ==>
                  && Step(s, op).heap == Kfree(s.heap, p)
                  && StepRam(s, m, op) == HeapMemory.KfreeImage(m, s.heap, p))
            && (op.Write? ==> Step(s, op).heap == s.heap)
            && (op.Write? && op.ptr + op.offset < |m| ==> StepRam(s, m, op) == m[op.ptr + op.offset := op.value])
            && (op.Yield? || op.Exit? || op.Sleep? || op.Wakeup? ==>
                  Step(s, op).heap == s.heap && StepRam(s, m, op) == m)
  {
    KfreeNull(m, s.heap);
    NothingAsked(m, s.heap);
    hide HeapMemory.KmallocImage, HeapMemory.KcallocImage, HeapMemory.KfreeImage;
    hide Kmalloc, Kfree, Heap, Product, FindFree;
  }

  lemma NothingAsked(m: seq<byte>, bs: seq<Block>)
    requires |m| == HeapMemory.RAM_SIZE && Heap(bs)
    ensures Kmalloc(bs, 0) == (bs, 0) && Kfree(bs, 0) == bs && HeapMemory.KmallocImage(m, bs, 0) == m
  {
  }

  lemma StepHolds(s: Sys, m: seq<byte>, op: Op)
    requires Inv(s) && Legal(s, op) && |m| == HeapMemory.RAM_SIZE && HeapMemory.Holds(m, s.heap)
    ensures HeapMemory.Holds(StepRam(s, m, op), Step(s, op).heap)
  {
    hide *;
    LegalMeans(s, op);
    HeapAfter(s, m, op);
    var size, p := Asked(s, op), Freed(s, op);
    match op
    case Create(_) => HeapMemory.KmallocHolds(m, s.heap, size);
    case HeapAlloc(_) => HeapMemory.KmallocHolds(m, s.heap, size);
    case HeapCalloc(_, _) => HeapRuns.KcallocHolds(m, s.heap, size);
    case Destroy(_) => HeapMemory.KfreeHolds(m, s.heap, p);
    case HeapFree(_) => HeapMemory.KfreeHolds(m, s.heap, p);
    case Write(q, offset, v) => WriteHolds(m, s.heap, q, offset, v);
    case _ =>
  }
}
