// The physical frame allocator: a byte-packed bitmap with two counters that stands for a set
// of frame numbers.
module FrameBits {
  const TOTAL_PAGES: nat := 16384        // 64 MiB / PAGE_SIZE
  const BITMAP_SIZE: nat := 2048         // (TOTAL_PAGES + 7) / 8
  const PAGE_SIZE: nat := 4096
  const BITMAP_ADDR: nat := 0xC0_0000
  const NONE: nat := 0xFFFF_FFFF_FFFF_FFFF
  const KERNEL_START: nat := 1024 * 1024 / PAGE_SIZE
  const KERNEL_END: nat := (BITMAP_ADDR + BITMAP_SIZE + PAGE_SIZE - 1) / PAGE_SIZE

  function Mask(bit: nat): bv8 { (1 as bv8) << (bit % 8) }

  predicate TestBit(b: seq<bv8>, bit: nat)
    requires bit / 8 < |b|
  {
    b[bit / 8] & Mask(bit) != 0
  }

  function SetBit(b: seq<bv8>, bit: nat): seq<bv8>
    requires bit / 8 < |b|
  {
    b[bit / 8 := b[bit / 8] | Mask(bit)]
  }

  function ClearBit(b: seq<bv8>, bit: nat): seq<bv8>
    requires bit / 8 < |b|
  {
    b[bit / 8 := b[bit / 8] & !Mask(bit)]
  }

  // Bit i of the bitmap is bit i modulo 8 of its byte, counted from the least significant one.
  lemma MaskTable(i: nat)
    ensures Mask(i) == [1, 2, 4, 8, 16, 32, 64, 128][i % 8]
  {
  }

  // Setting or clearing a bit changes the test of that bit only.
  lemma SetBitTests(b: seq<bv8>, i: nat, j: nat)
    requires i / 8 < |b| && j / 8 < |b|
    ensures TestBit(SetBit(b, i), j) <==> j == i || TestBit(b, j)
  {
  }

  lemma ClearBitTests(b: seq<bv8>, i: nat, j: nat)
    requires i / 8 < |b| && j / 8 < |b|
    ensures TestBit(ClearBit(b, i), j) <==> j != i && TestBit(b, j)
  {
  }
}

// What the allocator does, on the set of frames in use.
module FrameSpec {
  import opened Bytes
  import opened FrameBits
  import HeapBlocks

  datatype Frames = Frames(taken: set<nat>, used: nat, free: nat)

  predicate Between(lo: nat, i: nat, hi: nat) { lo <= i < hi }

  function Interval(lo: nat, hi: nat): set<nat> { set i: nat | i < hi && Between(lo, i, hi) }

  // Lowest frame at or above i that is not in use, or TOTAL_PAGES.
  function LeastFree(taken: set<nat>, i: nat): (r: nat)
    requires i <= TOTAL_PAGES
    ensures i <= r <= TOTAL_PAGES
    ensures r < TOTAL_PAGES ==> r !in taken
    ensures forall k :: i <= k < r ==> k in taken
    decreases TOTAL_PAGES - i
  {
    if i == TOTAL_PAGES || i !in taken then i else LeastFree(taken, i + 1)
  }

  // The state memory_init leaves, given what used_pages held before.
  function Init(used: nat): Frames {
    var u := (used + KERNEL_END - KERNEL_START) % WORD;
    Frames(Interval(KERNEL_START, KERNEL_END), u, (TOTAL_PAGES - u) % WORD)
  }

  function Alloc(s: Frames): (Frames, nat) {
    var f := LeastFree(s.taken, 0);
    if f == TOTAL_PAGES then (s, 0)
    else (Frames(s.taken + {f}, (s.used + 1) % WORD, (s.free - 1) % WORD), f * PAGE_SIZE)
  }

  function Free(s: Frames, addr: nat): Frames {
    var f := addr / PAGE_SIZE;
    if addr == 0 || f >= TOTAL_PAGES || f !in s.taken then s
    else Frames(s.taken - {f}, (s.used - 1) % WORD, (s.free + 1) % WORD)
  }

  // The counters count: used is the size of the set and the two add up to the total.
  ghost predicate Counted(s: Frames) {
    s.taken <= Interval(0, TOTAL_PAGES) && s.used == |s.taken| && s.used + s.free == TOTAL_PAGES
  }

  lemma {:induction false} IntervalSize(lo: nat, hi: nat)
    requires lo <= hi
    ensures |Interval(lo, hi)| == hi - lo
    decreases hi
  {
    if lo < hi {
      IntervalSize(lo, hi - 1);
      assert Interval(lo, hi) == Interval(lo, hi - 1) + {hi - 1};
    }
  }

  lemma SubsetSize(a: set<nat>, b: set<nat>)
    requires a <= b
    ensures |a| <= |b|
    ensures |a| == |b| ==> a == b
  {
    assert b == a + (b - a);
  }

  // memory_init takes the frames 256 to 3072 and no others.
  lemma InitExactly(used: nat, g: nat)
    ensures g in Init(used).taken <==> 256 <= g < 3073
    ensures Init(used).used == (used + 2817) % WORD
    ensures used + 2817 <= 16384 ==> Init(used).free == 16384 - (used + 2817)
  {
  }

  // alloc_frame takes the lowest frame that is not in use and returns the address of its first
  // byte; with every frame in use it changes nothing.
  lemma AllocExactly(s: Frames, g: nat)
    requires Counted(s)
    ensures var (t, addr) := Alloc(s);
            if s.used == 16384 then t == s && addr == 0
            else
              && addr % 4096 == 0 && addr < 0x400_0000 && addr / 4096 !in s.taken
              && (g < addr / 4096 ==> g in s.taken)
              && (g in t.taken <==> g in s.taken || g * 4096 == addr)
              && t.used == s.used + 1 && t.free == s.free - 1
  {
    Pigeonhole(s);
    hide LeastFree;
  }

  // free_frame gives back the frame that contains the address, whatever else is in use, and no
  // other; outside the managed memory it changes nothing.
  lemma FreeExactly(s: Frames, addr: nat, g: nat)
    requires Counted(s)
    ensures var t := Free(s, addr);
            && (0 < addr < 0x400_0000 ==> (g in t.taken <==> g in s.taken && !(g * 4096 <= addr < (g + 1) * 4096)))
            && (addr == 0 || addr >= 0x400_0000 ==> t == s)
            && t.used == s.used - (if 0 < addr < 0x400_0000 && addr / 4096 in s.taken then 1 else 0)
  {
    if addr / 4096 in s.taken { SubsetSize({addr / 4096}, s.taken); }
  }

  // memory_init leaves counters that count exactly when used_pages was zero before it.
  lemma InitCountedExactly(used: nat)
    requires used < WORD
    ensures Counted(Init(used)) <==> used == 0
  {
    IntervalSize(KERNEL_START, KERNEL_END);
  }

  // The first free frame is no further than the number of frames in use, and the search is
  // exhausted exactly when no free page is left.
  lemma Pigeonhole(s: Frames)
    requires Counted(s)
    ensures LeastFree(s.taken, 0) <= s.used
    ensures LeastFree(s.taken, 0) == TOTAL_PAGES <==> s.free == 0
  {
    var f := LeastFree(s.taken, 0);
    IntervalSize(0, f);
    SubsetSize(Interval(0, f), s.taken);
    IntervalSize(0, TOTAL_PAGES);
    SubsetSize(s.taken, Interval(0, TOTAL_PAGES));
  }

  lemma AllocCounted(s: Frames)
    requires Counted(s)
    ensures Counted(Alloc(s).0)
  {
    Pigeonhole(s);
  }

  lemma FreeCounted(s: Frames, addr: nat)
    requires Counted(s)
    ensures Counted(Free(s, addr))
  {
  }

  // ---------------------------------------------------------------- runs

  datatype Op = AllocFrame | FreeFrame(addr: nat)

  function Step(s: Frames, op: Op): Frames {
    match op
    case AllocFrame => Alloc(s).0
    case FreeFrame(addr) => Free(s, addr)
  }

  function Run(s: Frames, ops: seq<Op>): Frames
    decreases ops
  {
    if ops == [] then s else Run(Step(s, ops[0]), ops[1..])
  }

  // In every reachable state the counters count, so neither of them ever underflows.
  lemma {:induction false} CountersCount(s: Frames, ops: seq<Op>)
    requires Counted(s)
    ensures Counted(Run(s, ops))
    decreases ops
  {
    if ops != [] {
      match ops[0] {
        case AllocFrame => AllocCounted(s);
        case FreeFrame(addr) => FreeCounted(s, addr);
      }
      CountersCount(Step(s, ops[0]), ops[1..]);
    }
  }

  // The one call of memory_init starts such a run.
  lemma CountedFromInit(ops: seq<Op>)
    ensures Counted(Run(Init(0), ops))
  {
    InitCountedExactly(0);
    CountersCount(Init(0), ops);
  }

  // The frame at addr meets the heap arena at 32 MiB, which memory_init never reserves.
  predicate MeetsHeap(addr: nat) {
    addr < HeapBlocks.HEAP_END && HeapBlocks.HEAP_START < addr + PAGE_SIZE
  }

  // The frame handed out meets the heap exactly when everything below 32 MiB is in use and
  // some frame of the arena is not; so never while fewer than 8192 frames are in use.
  lemma HeapFramesExactly(s: Frames)
    requires Counted(s) && LeastFree(s.taken, 0) < TOTAL_PAGES
    ensures MeetsHeap(Alloc(s).1) <==>
              Interval(0, 8192) <= s.taken && !(Interval(8192, 10241) <= s.taken)
    ensures s.used < 8192 ==> !MeetsHeap(Alloc(s).1)
  {
    Pigeonhole(s);
    var f := LeastFree(s.taken, 0);
    if 8192 <= f < 10241 {
      assert f in Interval(8192, 10241);
    } else if f < 8192 {
      assert f in Interval(0, 8192);
    }
  }

  // A run of nothing but allocations, on the frames below the kernel and then above it.
  ghost predicate AllocsOnly(ops: seq<Op>) { forall k :: 0 <= k < |ops| ==> ops[k] == AllocFrame }

  lemma LeastFreeAfter(taken: set<nat>, m: nat)
    requires m < TOTAL_PAGES && m !in taken && Interval(0, m) <= taken
    ensures LeastFree(taken, 0) == m
  {
    hide LeastFree;
    var f := LeastFree(taken, 0);
    assert f < m ==> Between(0, f, m);
  }

  lemma {:induction false} AllocsFill(s: Frames, ops: seq<Op>, m: nat, low: bool)
    requires AllocsOnly(ops)
    requires m + |ops| <= if low then KERNEL_START else TOTAL_PAGES
    requires s.taken == Interval(0, m) + if low then Interval(KERNEL_START, KERNEL_END) else {}
    ensures Run(s, ops).taken ==
              Interval(0, m + |ops|) + if low then Interval(KERNEL_START, KERNEL_END) else {}
    decreases ops
  {
    if ops != [] {
      LeastFreeAfter(s.taken, m);
      assert Interval(0, m) + {m} == Interval(0, m + 1);
      assert ops[0] == AllocFrame;
      AllocsFill(Step(s, AllocFrame), ops[1..], m + 1, low);
    }
  }

  lemma {:induction false} RunConcat(s: Frames, a: seq<Op>, b: seq<Op>)
    ensures Run(s, a + b) == Run(Run(s, a), b)
    decreases a
  {
    if a == [] {
      assert a + b == b;
    } else {
      assert (a + b)[1..] == a[1..] + b;
      RunConcat(Step(s, a[0]), a[1..], b);
    }
  }

  // With allocations only, frames are taken from the bottom up.
  lemma FillFromInit(ops: seq<Op>)
    requires AllocsOnly(ops) && KERNEL_START <= |ops| <= TOTAL_PAGES - KERNEL_END + KERNEL_START
    ensures Run(Init(0), ops).taken == Interval(0, KERNEL_END + (|ops| - KERNEL_START))
  {
    var a, b := ops[..KERNEL_START], ops[KERNEL_START..];
    KernelGap();
    SplitRun(ops, KERNEL_START);
    hide Run, Step, Interval, LeastFree, Init;
    AllocsFill(Init(0), a, 0, true);
    AllocsFill(Run(Init(0), a), b, KERNEL_END, false);
  }

  lemma SplitRun(ops: seq<Op>, n: nat)
    requires n <= |ops|
    ensures Run(Init(0), ops) == Run(Run(Init(0), ops[..n]), ops[n..])
  {
    assert ops == ops[..n] + ops[n..];
    RunConcat(Init(0), ops[..n], ops[n..]);
  }

  lemma KernelGap()
    ensures Init(0).taken == Interval(0, 0) + Interval(KERNEL_START, KERNEL_END)
    ensures Interval(0, KERNEL_START) + Interval(KERNEL_START, KERNEL_END) == Interval(0, KERNEL_END)
    ensures Interval(0, KERNEL_END) == Interval(0, KERNEL_END) + {}
  {
  }

  // A kernel that allocates frames and frees none is handed the first page of the heap arena
  // by the allocation after 5375 others.
  lemma HeapFrameReached(ops: seq<Op>)
    requires AllocsOnly(ops) && |ops| == 5375
    ensures Alloc(Run(Init(0), ops)).1 == HeapBlocks.HEAP_START
  {
    hide Run, Init;
    FillFromInit(ops);
    LeastFreeAfter(Run(Init(0), ops).taken, 8192);
  }

  // free_frame gives frame 0 back exactly for an address inside it that is not NULL.
  lemma FrameZeroFreedExactly(s: Frames, addr: nat)
    requires 0 in s.taken
    ensures 0 !in Free(s, addr).taken <==> 1 <= addr < PAGE_SIZE
  {
  }

  // Frame 0 is left free by memory_init, so the first allocation returns NULL although it
  // takes a frame; as long as no address inside frame 0 is freed, it is never given back.
  lemma {:induction false} FrameZeroIsLost(s: Frames, ops: seq<Op>)
    requires 0 in s.taken || AllocFrame in ops
    requires forall k :: 0 <= k < |ops| && ops[k].FreeFrame? ==> !(1 <= ops[k].addr < PAGE_SIZE)
    ensures 0 in Run(s, ops).taken
    decreases ops
  {
    if ops != [] {
      if 0 !in s.taken && ops[0] == AllocFrame {
        assert LeastFree(s.taken, 0) == 0;
      }
      if ops[0] != AllocFrame && AllocFrame in ops { assert AllocFrame in ops[1..]; }
      FrameZeroIsLost(Step(s, ops[0]), ops[1..]);
    }
  }

  predicate Releases(op: Op, f: nat) { op.FreeFrame? && op.addr != 0 && op.addr / 4096 == f }

  lemma StepHolds(s: Frames, op: Op, f: nat)
    requires f in s.taken && !Releases(op, f)
    ensures f in Step(s, op).taken
  {
    hide LeastFree;
  }

  lemma {:induction false} StaysTaken(s: Frames, ops: seq<Op>, f: nat)
    requires f in s.taken && forall k :: 0 <= k < |ops| ==> !Releases(ops[k], f)
    ensures f in Run(s, ops).taken
    decreases ops
  {
    if ops != [] {
      StepHolds(s, ops[0], f);
      hide Step, Releases;
      StaysTaken(Step(s, ops[0]), ops[1..], f);
    }
  }

  // A frame in use is not handed out again before an address inside it is freed.
  lemma HeldUntilFreed(s: Frames, ops: seq<Op>, f: nat)
    requires Counted(s) && f in s.taken && forall k :: 0 <= k < |ops| ==> !Releases(ops[k], f)
    ensures f in Run(s, ops).taken
    ensures Run(s, ops).used < 16384 ==> Alloc(Run(s, ops)).1 != f * 4096
  {
    StaysTaken(s, ops, f);
    CountersCount(s, ops);
    hide Run, Alloc, Counted;
    AllocExactly(Run(s, ops), f);
  }

  // A frame freed while every lower one is in use is the next one handed out.
  lemma FreedIsNext(s: Frames, addr: nat)
    requires Counted(s) && 0 < addr < 0x400_0000 && forall g :: 0 <= g <= addr / 4096 ==> g in s.taken
    ensures Alloc(Free(s, addr)).1 == addr - addr % 4096
  {
    var f, t := addr / 4096, Free(s, addr);
    assert f !in t.taken && Interval(0, f) <= t.taken;
    LeastFreeAfter(t.taken, f);
  }

  // Freeing the frame just allocated restores the state, unless it was frame 0.
  lemma AllocThenFree(s: Frames)
    requires Counted(s) && s.free > 0
    ensures Free(Alloc(s).0, Alloc(s).1) == s <==> 0 in s.taken
  {
    Pigeonhole(s);
    var f := LeastFree(s.taken, 0);
    hide LeastFree, Interval;
    var (t, addr) := Alloc(s);
    assert t.taken - {f} == s.taken && addr / PAGE_SIZE == f;
    if f == 0 { assert 0 in t.taken; }
  }

  // NULL is returned exactly when memory is exhausted or frame 0 is the one taken.
  lemma NullExactly(s: Frames)
    ensures Alloc(s).1 == 0 <==> LeastFree(s.taken, 0) == TOTAL_PAGES || 0 !in s.taken
  {
  }
}

module FrameAllocator {
  import opened Bytes
  import opened FrameBits
  import opened FrameSpec

  class Allocator {
    const region: array<bv8>          // the bytes at BITMAP_ADDR
    var bitmap: array?<bv8>           // frame_bitmap; null until memory_init
    var totalPages: nat
    var usedPages: nat
    var freePages: nat

    ghost predicate Valid()
      reads this
    {
      && region.Length == BITMAP_SIZE && usedPages < WORD && freePages < WORD
      && (bitmap == null || (bitmap == region && totalPages == TOTAL_PAGES))
    }

    ghost function Taken(): set<nat>
      requires region.Length == BITMAP_SIZE
      reads region
    {
      Members(region[..])
    }

    ghost function Abs(): Frames
      requires region.Length == BITMAP_SIZE
      reads this, region
    {
      Frames(Taken(), usedPages, freePages)
    }

    // The statics before anything runs.
    constructor (region: array<bv8>)
      requires region.Length == BITMAP_SIZE
      ensures Valid() && bitmap == null && usedPages == 0 && this.region == region
    {
      this.region := region;
      bitmap, totalPages, usedPages, freePages := null, 0, 0, 0;
    }

    method MemoryInit()
      requires Valid()
      modifies this, region
      ensures Valid() && bitmap != null
      ensures Abs() == Init(old(usedPages))
    {
      totalPages := 64 * 1024 * 1024 / PAGE_SIZE;
      var bitmapSize := (totalPages + 7) / 8;
      bitmap := region;
      ClearBitmap(bitmapSize);
      var kernelEnd := (BITMAP_ADDR + bitmapSize + PAGE_SIZE - 1) / PAGE_SIZE;
      assert kernelEnd == KERNEL_END;
      MarkKernel(1 * 1024 * 1024 / PAGE_SIZE, kernelEnd);
      freePages := (totalPages - usedPages) % WORD;
    }

    method ClearBitmap(bitmapSize: nat)
      requires bitmapSize == BITMAP_SIZE == region.Length && bitmap == region
      modifies region
      ensures Taken() == {}
    {
      var i := 0;
      while i < bitmapSize
        invariant i <= bitmapSize && forall k :: 0 <= k < i ==> region[k] == 0
      {
        bitmap[i] := 0;
        i := i + 1;
      }
      Emptied(region[..]);
    }

    method MarkKernel(first: nat, end: nat)
      requires first <= end <= TOTAL_PAGES && Valid() && bitmap != null && Taken() == {}
      modifies this`usedPages, region
      ensures Taken() == Interval(first, end)
      ensures usedPages == (old(usedPages) + end - first) % WORD
    {
      hide Mask, TestBit, Members;
      var i := first;
      while i < end && i < totalPages
        invariant first <= i <= end && Taken() == Interval(first, i)
        invariant usedPages == (old(usedPages) + i - first) % WORD
      {
        ghost var before := region[..];
        MemberSet(before, i);
        bitmap[i / 8] := bitmap[i / 8] | Mask(i);
        assert region[..] == SetBit(before, i);
        usedPages := (usedPages + 1) % WORD;
        i := i + 1;
      }
    }

    // The first clear bit, or -1 as an unsigned 64-bit number.
    method FindFreeFrame() returns (frame: nat)
      requires Valid() && bitmap != null
      ensures frame == (if LeastFree(Taken(), 0) == TOTAL_PAGES then NONE else LeastFree(Taken(), 0))
    {
      var i := 0;
      while i < totalPages
        invariant i <= totalPages && LeastFree(Taken(), 0) == LeastFree(Taken(), i)
      {
        if !TestBit(bitmap[..], i) { return i; }
        i := i + 1;
      }
      return NONE;
    }

    method AllocFrame() returns (addr: nat)
      requires Valid()
      modifies this, region
      ensures Valid() && bitmap == old(bitmap)
      ensures bitmap == null ==> addr == 0 && Abs() == old(Abs())
      ensures bitmap != null ==> (Abs(), addr) == Alloc(old(Abs()))
    {
      hide Mask, TestBit, Members, LeastFree, Interval;
      if bitmap == null { return 0; }
      var frame := FindFreeFrame();
      if frame == NONE { return 0; }
      MemberSet(bitmap[..], frame);
      bitmap[frame / 8] := bitmap[frame / 8] | Mask(frame);
      assert bitmap[..] == SetBit(old(region[..]), frame);
      usedPages := (usedPages + 1) % WORD;
      freePages := (freePages - 1) % WORD;
      return frame * PAGE_SIZE;
    }

    method FreeFrame(addr: nat)
      requires Valid() && addr < WORD
      modifies this, region
      ensures Valid() && bitmap == old(bitmap)
      ensures Abs() == if bitmap == null then old(Abs()) else Free(old(Abs()), addr)
    {
      if bitmap == null || addr == 0 { return; }
      var frame := addr / PAGE_SIZE;
      if frame >= totalPages { return; }
      MemberTest(bitmap[..], frame);
      hide Mask, TestBit, Members, LeastFree, Interval;
      if TestBit(bitmap[..], frame) {
        MemberClear(bitmap[..], frame);
        bitmap[frame / 8] := bitmap[frame / 8] & !Mask(frame);
        assert bitmap[..] == ClearBit(old(region[..]), frame);
        usedPages := (usedPages - 1) % WORD;
        freePages := (freePages + 1) % WORD;
      }
    }
  }

  // The set of frame numbers a bitmap stands for.
  ghost function Members(b: seq<bv8>): set<nat>
    requires |b| == BITMAP_SIZE
  {
    set i: nat | i < TOTAL_PAGES && TestBit(b, i)
  }

  lemma MemberTest(b: seq<bv8>, i: nat)
    requires |b| == BITMAP_SIZE && i < TOTAL_PAGES
    ensures i in Members(b) <==> TestBit(b, i)
  {
  }

  lemma MemberSet(b: seq<bv8>, i: nat)
    requires |b| == BITMAP_SIZE && i < TOTAL_PAGES
    ensures Members(SetBit(b, i)) == Members(b) + {i}
  {
    forall j: nat | j < TOTAL_PAGES { SetBitTests(b, i, j); }
  }

  lemma MemberClear(b: seq<bv8>, i: nat)
    requires |b| == BITMAP_SIZE && i < TOTAL_PAGES
    ensures Members(ClearBit(b, i)) == Members(b) - {i}
  {
    forall j: nat | j < TOTAL_PAGES { ClearBitTests(b, i, j); }
  }

  lemma Emptied(b: seq<bv8>)
    requires |b| == BITMAP_SIZE && forall k :: 0 <= k < |b| ==> b[k] == 0
    ensures Members(b) == {}
  {
  }
}
