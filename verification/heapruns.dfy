// Whole runs of the heap with client writes in between: every live allocation keeps its
// block and every byte of it until its owner frees it.
module HeapRuns {
  import opened Bytes
  import opened HeapBlocks
  import opened HeapMemory

  datatype Op =
    | Malloc(size: nat)
    | Calloc(num: nat, size: nat)
    | Free(ptr: nat)
    | Write(ptr: nat, offset: nat, value: byte)

  // live maps each pointer handed out and not yet freed to the size its client asked for, which
  // for kcalloc is the product before it wraps.
  datatype State = State(ram: seq<byte>, blocks: seq<Block>, live: map<nat, nat>)

  ghost predicate Inv(s: State) {
    && |s.ram| == RAM_SIZE && Heap(s.blocks) && Holds(s.ram, s.blocks)
    && s.live.Keys == Live(s.blocks)
    && forall p :: p in s.live ==> s.live[p] <= WORD - 8 ==> Owns(s.blocks, p, s.live[p])
  }

  // Requests are 64-bit, kcalloc does not fault, frees name a live pointer, and clients write
  // inside what they asked for.
  predicate Legal(s: State, op: Op) {
    match op
    case Malloc(size) => size < WORD
    case Calloc(num, size) => num < WORD && size < WORD && !Faults(s.blocks, Product(num, size))
    case Free(p) => p == 0 || p in s.live
    case Write(p, k, _) => p in s.live && k < s.live[p] <= WORD - 8
  }

  function Grant(live: map<nat, nat>, p: nat, size: nat): map<nat, nat> {
    if p == 0 then live else live[p := size]
  }

  ghost function Step(s: State, op: Op): State
    requires Inv(s) && Legal(s, op)
  {
    match op
    case Malloc(size) =>
      var (r, p) := Kmalloc(s.blocks, size);
      State(KmallocImage(s.ram, s.blocks, size), r, Grant(s.live, p, size))
    case Calloc(num, size) =>
      var bytes := Product(num, size);
      var (r, p) := Kmalloc(s.blocks, bytes);
      State(KcallocImage(s.ram, s.blocks, bytes), r, Grant(s.live, p, num * size))
    case Free(p) =>
      State(KfreeImage(s.ram, s.blocks, p), Kfree(s.blocks, p), s.live - {p})
    case Write(p, k, v) =>
      assert p + k < |s.ram| by { OwnedRange(s.blocks, p, s.live[p]); }
      State(s.ram[p + k := v], s.blocks, s.live)
  }

  lemma OwnedRange(bs: seq<Block>, p: nat, n: nat)
    requires Heap(bs) && Owns(bs, p, n)
    ensures HEAP_START < p && p + n <= HEAP_END && p % 8 == 0
  {
    var b :| b in bs && b.used && b.Payload() == p && b.size >= n;
    var i :| 0 <= i < |bs| && bs[i] == b;
    InArena(bs, i);
    Aligned(bs, i);
  }

  // ---------------------------------------------------------------- one step

  // kmalloc writes no byte of a payload in use.
  lemma KmallocSpares(m: seq<byte>, bs: seq<Block>, size: nat, b: Block)
    requires |m| == RAM_SIZE && Heap(bs) && b in bs && b.used
    ensures b.End() <= RAM_SIZE
    ensures KmallocImage(m, bs, size)[b.Payload()..b.End()] == m[b.Payload()..b.End()]
  {
    var j :| 0 <= j < |bs| && bs[j] == b;
    InArena(bs, j);
    var n := RoundUp(size);
    hide RoundUp;
    var i := FirstFit(bs, n, 0);
    if size != 0 && i < |bs| {
      InArena(bs, i);
      Apart(bs, i, j);
      hide AllocImage, Tiled, Chain;
      AllocImageElsewhere(m, bs, i, n, b.Payload(), b.End());
    }
  }

  lemma KfreeSpares(m: seq<byte>, bs: seq<Block>, p: nat, b: Block)
    requires |m| == RAM_SIZE && Heap(bs) && b in bs && b.Payload() != p
    ensures b.End() <= RAM_SIZE
    ensures KfreeImage(m, bs, p)[b.Payload()..b.End()] == m[b.Payload()..b.End()]
  {
    var j :| 0 <= j < |bs| && bs[j] == b;
    InArena(bs, j);
    var i := BlockAt(bs, p, 0);
    if p != 0 && i < |bs| {
      InArena(bs, i);
      Apart(bs, i, j);
      hide FreeImage, Tiled, Chain;
      FreeImageElsewhere(m, bs, i, b.Payload(), b.End());
    }
  }

  lemma ClearedElsewhere(m: seq<byte>, p: nat, n: nat, lo: nat, hi: nat)
    requires p + n <= |m| && lo <= hi <= |m| && (hi <= p || p + n <= lo)
    ensures Cleared(m, p, n)[lo..hi] == m[lo..hi]
  {
    var r := Cleared(m, p, n);
    forall k | lo <= k < hi ensures r[k] == m[k] {
      if k >= p + n { assert r[k] == m[p + n..][k - (p + n)]; }
    }
  }

  lemma KcallocSpares(m: seq<byte>, bs: seq<Block>, bytes: nat, b: Block)
    requires |m| == RAM_SIZE && Heap(bs) && b in bs && b.used && bytes < WORD && !Faults(bs, bytes)
    ensures b.End() <= RAM_SIZE
    ensures KcallocImage(m, bs, bytes)[b.Payload()..b.End()] == m[b.Payload()..b.End()]
  {
    hide KmallocImage, Kmalloc, Heap;
    KmallocSpares(m, bs, bytes, b);
    var p := Kmalloc(bs, bytes).1;
    if p != 0 {
      var c := Granted(bs, bytes);
      GrantedApart(bs, bytes, b, c);
      ClearedElsewhere(KmallocImage(m, bs, bytes), p, bytes, b.Payload(), b.End());
    }
  }

  // The block just granted does not meet a block that was in use.
  lemma GrantedApart(bs: seq<Block>, bytes: nat, b: Block, c: Block)
    requires Heap(bs) && b in bs && b.used && Kmalloc(bs, bytes).1 == c.Payload()
    requires c in Kmalloc(bs, bytes).0
    ensures b.End() <= c.addr || c.End() <= b.addr
  {
    hide Kmalloc;
    KmallocKeeps(bs, bytes);
    Tiling(bs, bytes, 0);
    assert b.Payload() in Live(bs);
    assert b in Kmalloc(bs, bytes).0;
    PayloadsDisjoint(Kmalloc(bs, bytes).0, b, c);
  }

  lemma KcallocHolds(m: seq<byte>, bs: seq<Block>, bytes: nat)
    requires |m| == RAM_SIZE && Heap(bs) && Holds(m, bs) && bytes < WORD && !Faults(bs, bytes)
    ensures Holds(KcallocImage(m, bs, bytes), Kmalloc(bs, bytes).0)
  {
    KmallocHolds(m, bs, bytes);
    Tiling(bs, bytes, 0);
    var (r, p) := Kmalloc(bs, bytes);
    if p != 0 {
      var b := Granted(bs, bytes);
      hide KmallocImage, Kmalloc;
      ClearedInside(KmallocImage(m, bs, bytes), b, bytes);
      PayloadWriteHolds(KmallocImage(m, bs, bytes), KcallocImage(m, bs, bytes), r, b);
    }
  }

  lemma OwnsKept(bs: seq<Block>, r: seq<Block>, p: nat, n: nat, except: nat)
    requires Owns(bs, p, n) && p != except
    requires forall b :: b in bs && b.used && b.Payload() != except ==> b in r
    ensures Owns(r, p, n)
  {
  }

  // The client asked for `asked` bytes and kmalloc was called with `size`: the same number, unless
  // the client's is too large to be kept.
  lemma GrantKeeps(bs: seq<Block>, live: map<nat, nat>, size: nat, asked: nat)
    requires Heap(bs) && live.Keys == Live(bs) && size < WORD
    requires asked <= WORD - 8 ==> asked == size
    requires forall p :: p in live ==> live[p] <= WORD - 8 ==> Owns(bs, p, live[p])
    ensures var (r, p) := Kmalloc(bs, size);
            var live' := Grant(live, p, asked);
            && Heap(r) && live'.Keys == Live(r)
            && forall q :: q in live' ==> live'[q] <= WORD - 8 ==> Owns(r, q, live'[q])
  {
    KmallocKeeps(bs, size);
    Tiling(bs, size, 0);
    var (r, p) := Kmalloc(bs, size);
    if p != 0 && size <= WORD - 8 {
      var b := Granted(bs, size);
    }
    assert 0 !in Live(bs);
    var live' := Grant(live, p, asked);
    hide Kmalloc, Heap, Live;
    forall q | q in live' && live'[q] <= WORD - 8 ensures Owns(r, q, live'[q]) {
      if q in live && (p == 0 || q != p) { OwnsKept(bs, r, q, live[q], 0); }
    }
  }

  lemma WriteHolds(s: State, p: nat, k: nat, v: byte)
    requires Inv(s) && Legal(s, Write(p, k, v))
    ensures p + k < |s.ram| && Holds(s.ram[p + k := v], s.blocks)
  {
    hide Holds, Chain;
    OwnedRange(s.blocks, p, s.live[p]);
    var b :| b in s.blocks && b.used && b.Payload() == p && b.size >= s.live[p];
    var i :| 0 <= i < |s.blocks| && s.blocks[i] == b;
    InArena(s.blocks, i);
    PayloadWriteHolds(s.ram, s.ram[p + k := v], s.blocks, b);
  }

  lemma StepKeeps(s: State, op: Op)
    requires Inv(s) && Legal(s, op)
    ensures Inv(Step(s, op))
  {
    hide KmallocImage, KcallocImage, KfreeImage, Kmalloc, Kfree, Holds, Live, Owns;
    match op
    case Malloc(size) =>
      KmallocHolds(s.ram, s.blocks, size);
      GrantKeeps(s.blocks, s.live, size, size);
    case Calloc(num, size) =>
      KcallocHolds(s.ram, s.blocks, Product(num, size));
      GrantKeeps(s.blocks, s.live, Product(num, size), num * size);
    case Free(p) =>
      KfreeHolds(s.ram, s.blocks, p);
      KfreeKeeps(s.blocks, p);
      Tiling(s.blocks, 0, p);
      forall q | q in s.live && q != p && s.live[q] <= WORD - 8
        ensures Owns(Kfree(s.blocks, p), q, s.live[q])
      {
        OwnsKept(s.blocks, Kfree(s.blocks, p), q, s.live[q], p);
      }
    case Write(p, k, v) =>
      WriteHolds(s, p, k, v);
  }

  // ---------------------------------------------------------------- runs

  ghost predicate LegalRun(s: State, ops: seq<Op>)
    requires Inv(s)
    decreases ops
  {
    ops != [] ==> Legal(s, ops[0]) && (StepKeeps(s, ops[0]); LegalRun(Step(s, ops[0]), ops[1..]))
  }

  // The invariant holds in every reachable state: headers, tiling, live pointers, capacity.
  ghost function Run(s: State, ops: seq<Op>): (t: State)
    requires Inv(s) && LegalRun(s, ops)
    ensures Inv(t)
    decreases ops
  {
    if ops == [] then s else StepKeeps(s, ops[0]); Run(Step(s, ops[0]), ops[1..])
  }

  predicate Touches(op: Op, p: nat) {
    (op.Free? && op.ptr == p) || (op.Write? && op.ptr == p)
  }

  // The block is in use in t as it was in s, with the same bytes in its payload.
  ghost predicate Untouched(s: State, t: State, b: Block) {
    && b.End() <= |s.ram| == |t.ram| && b in t.blocks
    && t.ram[b.Payload()..b.End()] == s.ram[b.Payload()..b.End()]
  }

  lemma StepSpares(s: State, op: Op, b: Block)
    requires Inv(s) && Legal(s, op) && b in s.blocks && b.used && !Touches(op, b.Payload())
    ensures Untouched(s, Step(s, op), b)
  {
    hide KmallocImage, KcallocImage, KfreeImage, Kmalloc, Kfree, Holds;
    match op
    case Malloc(size) =>
      KmallocKeeps(s.blocks, size);
      KmallocSpares(s.ram, s.blocks, size, b);
    case Calloc(num, size) =>
      KmallocKeeps(s.blocks, Product(num, size));
      KcallocSpares(s.ram, s.blocks, Product(num, size), b);
    case Free(p) =>
      KfreeKeeps(s.blocks, p);
      KfreeSpares(s.ram, s.blocks, p, b);
    case Write(p, k, v) =>
      OwnedRange(s.blocks, p, s.live[p]);
      var c :| c in s.blocks && c.used && c.Payload() == p && c.size >= s.live[p];
      PayloadsDisjoint(s.blocks, b, c);
  }

  // Until its owner writes to it or frees it, a block in use keeps its place, its size and
  // every byte of its payload, whatever else the run does.
  lemma {:induction false} Isolation(s: State, ops: seq<Op>, b: Block)
    requires Inv(s) && LegalRun(s, ops)
    ensures b in s.blocks && b.used && (forall k :: 0 <= k < |ops| ==> !Touches(ops[k], b.Payload()))
            ==> Untouched(s, Run(s, ops), b)
    decreases ops
  {
    hide Inv, Step, Legal, Touches;
    if ops != [] {
      StepKeeps(s, ops[0]);
      if b in s.blocks && b.used && !Touches(ops[0], b.Payload()) { StepSpares(s, ops[0], b); }
      Isolation(Step(s, ops[0]), ops[1..], b);
    } else if b in s.blocks {
      BlockInRam(s, b);
    }
  }

  lemma BlockInRam(s: State, b: Block)
    requires Inv(s) && b in s.blocks
    ensures b.End() <= |s.ram|
  {
    hide Holds, Owns, Live;
    var i :| 0 <= i < |s.blocks| && s.blocks[i] == b;
    InArena(s.blocks, i);
  }

  // ---------------------------------------------------------------- what a client reads back

  // The byte a client last wrote at offset k of p, or v if it wrote none.
  function LastWritten(ops: seq<Op>, p: nat, k: nat, v: byte): byte {
    if ops == [] then v
    else LastWritten(ops[1..], p, k, match ops[0] case Write(q, j, x) => if q == p && j == k then x else v case _ => v)
  }

  lemma StepReadsBack(s: State, op: Op, p: nat, k: nat)
    requires Inv(s) && Legal(s, op) && op != Free(p)
    requires p in s.live && k < s.live[p] <= WORD - 8
    ensures var t := Step(s, op);
            && p in t.live && t.live[p] == s.live[p]
            && p + k < |s.ram| == |t.ram| && t.ram[p + k] == LastWritten([op], p, k, s.ram[p + k])
  {
    hide Inv, Step, Legal, LastWritten;
    StepKeepsLive(s, op, p);
    LiveInRam(s, p);
    if Touches(op, p) {
      OwnWrite(s, p, op.offset, op.value, k);
    } else {
      var b := LiveBlock(s, p);
      StepSpares(s, op, b);
      NotWritten(op, p, k, s.ram[p + k]);
      SliceAt(s.ram, Step(s, op).ram, b.Payload(), b.End(), k);
    }
  }

  lemma LiveBlock(s: State, p: nat) returns (b: Block)
    requires Inv(s) && p in s.live && s.live[p] <= WORD - 8
    ensures b in s.blocks && b.used && b.Payload() == p && p + s.live[p] <= b.End()
  {
    b :| b in s.blocks && b.used && b.Payload() == p && b.size >= s.live[p];
  }

  lemma SliceAt(m: seq<byte>, r: seq<byte>, lo: nat, hi: nat, k: nat)
    requires lo <= hi <= |m| == |r| && r[lo..hi] == m[lo..hi] && lo + k < hi
    ensures r[lo + k] == m[lo + k]
  {
    assert r[lo..hi][k] == m[lo..hi][k];
  }

  lemma NotWritten(op: Op, p: nat, k: nat, v: byte)
    requires !Touches(op, p)
    ensures LastWritten([op], p, k, v) == v
  {
  }

  lemma OwnWrite(s: State, p: nat, j: nat, v: byte, k: nat)
    requires Inv(s) && Legal(s, Write(p, j, v)) && p in s.live && k < s.live[p] && p + k < |s.ram|
    ensures var t := Step(s, Write(p, j, v));
            |t.ram| == |s.ram| && t.ram[p + k] == LastWritten([Write(p, j, v)], p, k, s.ram[p + k])
  {
    hide Inv, LastWritten, KmallocImage, KcallocImage, KfreeImage, Kmalloc, Kfree, Product;
    WriteHolds(s, p, j, v);
    OneWrite(p, j, v, k, s.ram[p + k]);
    assert Step(s, Write(p, j, v)).ram == s.ram[p + j := v];
    hide Step;
  }

  lemma OneWrite(p: nat, j: nat, v: byte, k: nat, before: byte)
    ensures LastWritten([Write(p, j, v)], p, k, before) == if j == k then v else before
  {
  }

  lemma StepKeepsLive(s: State, op: Op, p: nat)
    requires Inv(s) && Legal(s, op) && op != Free(p) && p in s.live
    ensures p in Step(s, op).live && Step(s, op).live[p] == s.live[p]
  {
    hide KmallocImage, KcallocImage, KfreeImage, Kmalloc, Kfree, Holds, Live, Owns;
    match op
    case Malloc(size) => KmallocKeeps(s.blocks, size);
    case Calloc(num, size) => KmallocKeeps(s.blocks, Product(num, size));
    case Free(_) =>
    case Write(_, _, _) =>
  }

  // The heap is a memory of its own for each client: until it frees the allocation, it reads
  // back at every offset what it last wrote there, whatever the others do.
  lemma {:induction false} ReadsBack(s: State, ops: seq<Op>, p: nat, k: nat)
    requires Inv(s) && LegalRun(s, ops) && Free(p) !in ops
    requires p in s.live && k < s.live[p] <= WORD - 8
    ensures var t := Run(s, ops);
            && p in t.live && t.live[p] == s.live[p]
            && p + k < |s.ram| == |t.ram| && t.ram[p + k] == LastWritten(ops, p, k, s.ram[p + k])
    decreases ops
  {
    hide Inv, Step, Legal;
    if ops == [] {
      LiveInRam(s, p);
    } else {
      StepKeeps(s, ops[0]);
      StepReadsBack(s, ops[0], p, k);
      ReadsBack(Step(s, ops[0]), ops[1..], p, k);
    }
  }

  lemma LiveInRam(s: State, p: nat)
    requires Inv(s) && p in s.live && s.live[p] <= WORD - 8
    ensures p + s.live[p] <= |s.ram|
  {
    OwnedRange(s.blocks, p, s.live[p]);
  }

  // What kcalloc hands out reads as zero until its client writes to it.
  lemma CallocReadsZero(s: State, num: nat, size: nat, ops: seq<Op>, k: nat)
    requires Inv(s) && Legal(s, Calloc(num, size)) && k < num * size <= WORD - 8
    ensures Inv(Step(s, Calloc(num, size)))
    ensures var u, p := Step(s, Calloc(num, size)), Kmalloc(s.blocks, Product(num, size)).1;
            p != 0 && LegalRun(u, ops) && Free(p) !in ops ==>
              p + k < |Run(u, ops).ram| && Run(u, ops).ram[p + k] == LastWritten(ops, p, k, 0)
  {
    StepKeeps(s, Calloc(num, size));
    CallocClears(s, num, size, k);
    hide *;
    var u, p := Step(s, Calloc(num, size)), Kmalloc(s.blocks, Product(num, size)).1;
    if p != 0 && LegalRun(u, ops) && Free(p) !in ops { ReadsBack(u, ops, p, k); }
  }

  lemma CallocStep(s: State, num: nat, size: nat)
    requires Inv(s) && Legal(s, Calloc(num, size))
    ensures |s.ram| == RAM_SIZE && Heap(s.blocks) && Product(num, size) < WORD
    ensures var u, bytes := Step(s, Calloc(num, size)), Product(num, size);
            && u.ram == KcallocImage(s.ram, s.blocks, bytes)
            && u.live == Grant(s.live, Kmalloc(s.blocks, bytes).1, num * size)
  {
  }

  lemma ProductFits(num: nat, size: nat)
    ensures num * size < WORD ==> Product(num, size) == num * size
  {
  }

  lemma CallocClears(s: State, num: nat, size: nat, k: nat)
    requires Inv(s) && Legal(s, Calloc(num, size)) && k < num * size <= WORD - 8
    ensures var u, p := Step(s, Calloc(num, size)), Kmalloc(s.blocks, Product(num, size)).1;
            p != 0 ==> p in u.live && k < u.live[p] <= WORD - 8 && p + k < |u.ram| && u.ram[p + k] == 0
  {
    ProductFits(num, size);
    CallocStep(s, num, size);
    hide Inv, Legal, Step, KcallocImage, Kmalloc, Product, Heap;
    var asked, bytes := num * size, Product(num, size);
    if Kmalloc(s.blocks, bytes).1 != 0 {
      var b := Granted(s.blocks, bytes);
      KcallocZeroes(s.ram, s.blocks, bytes, b.Payload() + k);
    }
  }

  // Two live allocations whose sizes did not wrap are aligned, inside the arena and disjoint.
  lemma LiveDisjoint(s: State, p: nat, q: nat)
    requires Inv(s)
    ensures p in s.live && q in s.live && p != q && s.live[p] <= WORD - 8 && s.live[q] <= WORD - 8 ==>
              && p % 8 == 0 && HEAP_START < p && p + s.live[p] <= HEAP_END
              && (p + s.live[p] <= q || q + s.live[q] <= p)
  {
    hide Holds, Live;
    if p in s.live && q in s.live && p != q && s.live[p] <= WORD - 8 && s.live[q] <= WORD - 8 {
      OwnedRange(s.blocks, p, s.live[p]);
      var b :| b in s.blocks && b.used && b.Payload() == p && b.size >= s.live[p];
      var c :| c in s.blocks && c.used && c.Payload() == q && c.size >= s.live[q];
      PayloadsDisjoint(s.blocks, b, c);
    }
  }

  predicate NoWrap(op: Op) {
    (op.Malloc? ==> op.size <= WORD - 8) && (op.Calloc? ==> Product(op.num, op.size) <= WORD - 8)
  }

  // In every run the first-fit walk ends within 349526 headers; when no request wraps, every
  // block has room and it ends within 262144.
  lemma WalkBoundInRuns(s: State, ops: seq<Op>)
    requires Inv(s) && LegalRun(s, ops)
    ensures |Run(s, ops).blocks| <= 349526
    ensures Roomy(s.blocks) && (forall k :: 0 <= k < |ops| ==> NoWrap(ops[k])) ==>
              Roomy(Run(s, ops).blocks) && |Run(s, ops).blocks| <= 262144
  {
    WalkBound(Run(s, ops).blocks);
    if Roomy(s.blocks) && forall k :: 0 <= k < |ops| ==> NoWrap(ops[k]) { RoomyInRuns(s, ops); }
  }

  lemma {:induction false} RoomyInRuns(s: State, ops: seq<Op>)
    requires Inv(s) && Roomy(s.blocks) && LegalRun(s, ops)
    requires forall k :: 0 <= k < |ops| ==> NoWrap(ops[k])
    ensures Roomy(Run(s, ops).blocks)
    decreases ops
  {
    hide KmallocImage, KcallocImage, KfreeImage, Kmalloc, Kfree, Holds, Live, Owns;
    if ops != [] {
      StepKeeps(s, ops[0]);
      assert NoWrap(ops[0]);
      match ops[0] {
        case Malloc(size) => RoomyKept(s.blocks, size, 0);
        case Calloc(num, size) => RoomyKept(s.blocks, Product(num, size), 0);
        case Free(p) => RoomyKept(s.blocks, 0, p);
        case Write(_, _, _) =>
      }
      RoomyInRuns(Step(s, ops[0]), ops[1..]);
    }
  }

  lemma InitialState(ram: seq<byte>)
    requires |ram| == RAM_SIZE
    ensures Inv(State(ram, [], map[]))
  {
  }
}
