// kmalloc, kfree, kcalloc and heap_status over byte-addressed memory: the headers are words
// stored in the arena itself, and each call is proved to refine its step on the block list.
module HeapMemory {
  import opened Bytes
  import opened HeapBlocks

  const RAM_SIZE: nat := 64 * 1024 * 1024

  // ---------------------------------------------------------------- headers in memory

  function NextOf(bs: seq<Block>, k: nat): nat {
    if k + 1 < |bs| then bs[k + 1].addr else 0
  }

  // Offsets 0, 8 and 16 of the header hold size, used (an int, with 4 bytes of padding) and next.
  predicate HeaderAt(m: seq<byte>, b: Block, next: nat) {
    && b.addr + HEADER <= |m|
    && Load(m, b.addr, 8) == b.size
    && Load(m, b.addr + 8, 4) == (if b.used then 1 else 0)
    && Load(m, b.addr + 16, 8) == next
  }

  // The header byte by byte.
  lemma HeaderLayout(m: seq<byte>, b: Block, next: nat)
    requires HeaderAt(m, b, next)
    ensures var a := b.addr;
            && a + 24 <= |m|
            && b.size == WordAt(m, a) && next == WordAt(m, a + 16)
            && m[a + 8] == (if b.used then 1 else 0) && m[a + 9] == 0 && m[a + 10] == 0 && m[a + 11] == 0
  {
    hide Load;
    LoadBytes(m, b.addr);
    LoadHalf(m, b.addr + 8);
    LoadBytes(m, b.addr + 16);
  }

  ghost predicate Holds(m: seq<byte>, bs: seq<Block>) {
    forall k :: 0 <= k < |bs| ==> HeaderAt(m, bs[k], NextOf(bs, k))
  }

  lemma HeaderHolds(m: seq<byte>, bs: seq<Block>, k: nat)
    requires Holds(m, bs) && k < |bs|
    ensures HeaderAt(m, bs[k], NextOf(bs, k))
  {
  }

  lemma SubSlice(m: seq<byte>, r: seq<byte>, a: nat, b: nat, lo: nat, hi: nat)
    requires a <= lo <= hi <= b <= |m| && b <= |r| && m[a..b] == r[a..b]
    ensures m[lo..hi] == r[lo..hi]
  {
    forall k | lo <= k < hi ensures m[k] == r[k] {
      assert m[k] == m[a..b][k - a] == r[a..b][k - a] == r[k];
    }
  }

  lemma HeaderFromSlice(m: seq<byte>, r: seq<byte>, b: Block, next: nat)
    requires HeaderAt(m, b, next) && |r| == |m|
    requires m[b.addr..b.addr + HEADER] == r[b.addr..b.addr + HEADER]
    ensures HeaderAt(r, b, next)
  {
    hide FromLE;
    var a := b.addr;
    SubSlice(m, r, a, a + HEADER, a, a + 8);
    SubSlice(m, r, a, a + HEADER, a + 8, a + 12);
    SubSlice(m, r, a, a + HEADER, a + 16, a + 24);
  }

  // ---------------------------------------------------------------- memory after each call

  function PutHeader(m: seq<byte>, a: nat, size: nat, used: nat, next: nat): (r: seq<byte>)
    requires a + HEADER <= |m|
    ensures |r| == |m|
  {
    Store(Store(Store(m, a, 8, size), a + 8, 4, used), a + 16, 8, next)
  }

  lemma PutHeaderEffect(m: seq<byte>, b: Block, next: nat)
    requires b.addr + HEADER <= |m| && b.size < WORD && next < WORD
    ensures HeaderAt(PutHeader(m, b.addr, b.size, if b.used then 1 else 0, next), b, next)
  {
    WordSizes();
    var a, u := b.addr, if b.used then 1 else 0;
    var m1 := Store(m, a, 8, b.size);
    var m2 := Store(m1, a + 8, 4, u);
    LoadStored(m, a, 8, b.size);
    LoadStored(m1, a + 8, 4, u);
    LoadStored(m2, a + 16, 8, next);
    LoadElsewhere(m1, a + 8, 4, u, a, 8);
    LoadElsewhere(m2, a + 16, 8, next, a, 8);
    LoadElsewhere(m2, a + 16, 8, next, a + 8, 4);
  }

  lemma PutHeaderElsewhere(m: seq<byte>, a: nat, size: nat, used: nat, next: nat, lo: nat, hi: nat)
    requires a + HEADER <= |m| && lo <= hi <= |m| && (hi <= a || a + HEADER <= lo)
    ensures PutHeader(m, a, size, used, next)[lo..hi] == m[lo..hi]
  {
    SliceElsewhere(m, a, 8, size, lo, hi);
    SliceElsewhere(Store(m, a, 8, size), a + 8, 4, used, lo, hi);
    SliceElsewhere(Store(Store(m, a, 8, size), a + 8, 4, used), a + 16, 8, next, lo, hi);
  }

  function BootImage(m: seq<byte>, bs: seq<Block>): (r: seq<byte>)
    requires |m| == RAM_SIZE
    ensures |r| == |m|
  {
    if bs == [] then PutHeader(m, HEAP_START, ARENA, 0, 0) else m
  }

  // Memory after the split and the marking of block i.
  function AllocImage(m: seq<byte>, bs: seq<Block>, i: nat, n: nat): (r: seq<byte>)
    requires |m| == RAM_SIZE && i < |bs| && Fits(bs[i], n) && bs[i].End() <= HEAP_END
    ensures |r| == |m|
  {
    var b := bs[i];
    if Splits(b, n) then
      var rest := b.addr + HEADER + n;
      var m1 := PutHeader(m, rest, b.size - n - HEADER, 0, NextOf(bs, i));
      Store(Store(Store(m1, b.addr, 8, n), b.addr + 16, 8, rest), b.addr + 8, 4, 1)
    else
      Store(m, b.addr + 8, 4, 1)
  }

  // Memory after the marking of block i as free and the merge with its successor.
  function FreeImage(m: seq<byte>, bs: seq<Block>, i: nat): (r: seq<byte>)
    requires |m| == RAM_SIZE && i < |bs| && bs[i].End() <= HEAP_END
    ensures |r| == |m|
  {
    var b := bs[i];
    var m1 := Store(m, b.addr + 8, 4, 0);
    if i + 1 < |bs| && !bs[i + 1].used then
      Store(Store(m1, b.addr, 8, b.size + HEADER + bs[i + 1].size), b.addr + 16, 8, NextOf(bs, i + 1))
    else m1
  }

  function KmallocImage(m: seq<byte>, bs: seq<Block>, size: nat): (r: seq<byte>)
    requires |m| == RAM_SIZE && Heap(bs)
    ensures |r| == |m|
  {
    if size == 0 then m
    else
      var n, h, m1 := RoundUp(size), Boot(bs), BootImage(m, bs);
      var i := FirstFit(h, n, 0);
      if i == |h| then m1 else InArena(h, i); AllocImage(m1, h, i, n)
  }

  function KfreeImage(m: seq<byte>, bs: seq<Block>, p: nat): (r: seq<byte>)
    requires |m| == RAM_SIZE && Heap(bs)
    ensures |r| == |m|
  {
    var i := BlockAt(bs, p, 0);
    if p == 0 || i == |bs| then m else InArena(bs, i); FreeImage(m, bs, i)
  }

  // Memory after n bytes at p have been cleared.
  function Cleared(m: seq<byte>, p: nat, n: nat): (r: seq<byte>)
    requires p + n <= |m|
    ensures |r| == |m|
  {
    m[..p] + seq(n, _ => 0) + m[p + n..]
  }

  lemma KmallocNotEmpty(bs: seq<Block>, size: nat)
    requires Heap(bs) && Kmalloc(bs, size).1 != 0
    ensures Tiled(Kmalloc(bs, size).0)
  {
    Tiling(bs, size, 0);
    hide Tiled, RoundUp;
  }

  // Clearing the whole request runs into the end of the mapped memory: kmalloc wrapped, and
  // handed out a block without room.
  predicate Faults(bs: seq<Block>, bytes: nat) {
    bytes > WORD - 8 && Kmalloc(bs, bytes).1 != 0
  }

  // Memory after kcalloc; when clearing faults, every byte up to the end of memory is zero.
  function KcallocImage(m: seq<byte>, bs: seq<Block>, bytes: nat): (r: seq<byte>)
    requires |m| == RAM_SIZE && Heap(bs) && bytes < WORD
    ensures |r| == |m|
  {
    var p := Kmalloc(bs, bytes).1;
    if p == 0 then KmallocImage(m, bs, bytes)
    else
      assert p <= |m| by { var b := Granted(bs, bytes); }
      Cleared(KmallocImage(m, bs, bytes), p, if p + bytes <= |m| then bytes else |m| - p)
  }

  // Every byte that was asked for, up to the end of the mapped 64 MiB, is zero after kcalloc.
  lemma KcallocZeroes(m: seq<byte>, bs: seq<Block>, bytes: nat, k: nat)
    requires |m| == RAM_SIZE && Heap(bs) && bytes < WORD
    ensures var p := Kmalloc(bs, bytes).1;
            p != 0 && p <= k < p + bytes && k < 0x400_0000 ==> |m| == 0x400_0000 && KcallocImage(m, bs, bytes)[k] == 0
  {
    hide KmallocImage, Kmalloc;
    if Kmalloc(bs, bytes).1 != 0 { var b := Granted(bs, bytes); }
  }

  // ---------------------------------------------------------------- frames

  // A call writes the header of the block it takes and, when it splits, one header inside
  // that block's old payload; nothing else.
  lemma AllocImageElsewhere(m: seq<byte>, bs: seq<Block>, i: nat, n: nat, lo: nat, hi: nat)
    requires |m| == RAM_SIZE && i < |bs| && Fits(bs[i], n) && bs[i].End() <= HEAP_END
    requires lo <= hi <= |m|
    requires hi <= bs[i].addr || bs[i].addr + HEADER <= lo
    requires Splits(bs[i], n) ==> hi <= bs[i].addr + HEADER + n || bs[i].addr + HEADER + n + HEADER <= lo
    ensures AllocImage(m, bs, i, n)[lo..hi] == m[lo..hi]
  {
    hide Store, Load;
    var b := bs[i];
    if Splits(b, n) {
      var rest := b.addr + HEADER + n;
      var m1 := PutHeader(m, rest, b.size - n - HEADER, 0, NextOf(bs, i));
      PutHeaderElsewhere(m, rest, b.size - n - HEADER, 0, NextOf(bs, i), lo, hi);
      var m2 := Store(m1, b.addr, 8, n);
      SliceElsewhere(m1, b.addr, 8, n, lo, hi);
      SliceElsewhere(m2, b.addr + 16, 8, rest, lo, hi);
      SliceElsewhere(Store(m2, b.addr + 16, 8, rest), b.addr + 8, 4, 1, lo, hi);
    } else {
      SliceElsewhere(m, b.addr + 8, 4, 1, lo, hi);
    }
  }

  lemma FreeImageElsewhere(m: seq<byte>, bs: seq<Block>, i: nat, lo: nat, hi: nat)
    requires |m| == RAM_SIZE && i < |bs| && bs[i].End() <= HEAP_END
    requires lo <= hi <= |m| && (hi <= bs[i].addr || bs[i].addr + HEADER <= lo)
    ensures FreeImage(m, bs, i)[lo..hi] == m[lo..hi]
  {
    hide Store;
    var a := bs[i].addr;
    var m1 := Store(m, a + 8, 4, 0);
    SliceElsewhere(m, a + 8, 4, 0, lo, hi);
    if i + 1 < |bs| && !bs[i + 1].used {
      var size := bs[i].size + HEADER + bs[i + 1].size;
      var m2 := Store(m1, a, 8, size);
      SliceElsewhere(m1, a, 8, size, lo, hi);
      SliceElsewhere(m2, a + 16, 8, NextOf(bs, i + 1), lo, hi);
    }
  }

  // ---------------------------------------------------------------- the headers keep up

  lemma BootHolds(m: seq<byte>, bs: seq<Block>)
    requires |m| == RAM_SIZE && Heap(bs) && Holds(m, bs)
    ensures Holds(BootImage(m, bs), Boot(bs)) && Tiled(Boot(bs))
  {
    hide PutHeader, Load;
    if bs == [] { PutHeaderEffect(m, FRESH, 0); }
  }

  lemma TakenHeader(m: seq<byte>, bs: seq<Block>, i: nat, n: nat)
    requires |m| == RAM_SIZE && i < |bs| && Fits(bs[i], n) && bs[i].End() <= HEAP_END
    requires HeaderAt(m, bs[i], NextOf(bs, i)) && NextOf(bs, i) < WORD
    ensures var r, image := AllocAt(bs, i, n), AllocImage(m, bs, i, n);
            && HeaderAt(image, r[i], NextOf(r, i))
            && (Splits(bs[i], n) ==> HeaderAt(image, r[i + 1], NextOf(bs, i)))
  {
    hide Store, Load;
    WordSizes();
    var b := bs[i];
    if Splits(b, n) {
      var rest, size := b.addr + HEADER + n, b.size - n - HEADER;
      PutHeaderEffect(m, Block(rest, size, false), NextOf(bs, i));
      var m1 := PutHeader(m, rest, size, 0, NextOf(bs, i));
      var m2 := Store(m1, b.addr, 8, n);
      var m3 := Store(m2, b.addr + 16, 8, rest);
      LoadStored(m1, b.addr, 8, n);
      LoadStored(m2, b.addr + 16, 8, rest);
      LoadStored(m3, b.addr + 8, 4, 1);
      LoadElsewhere(m2, b.addr + 16, 8, rest, b.addr, 8);
      LoadElsewhere(m3, b.addr + 8, 4, 1, b.addr, 8);
      LoadElsewhere(m3, b.addr + 8, 4, 1, b.addr + 16, 8);
      SliceElsewhere(m1, b.addr, 8, n, rest, rest + HEADER);
      SliceElsewhere(m2, b.addr + 16, 8, rest, rest, rest + HEADER);
      SliceElsewhere(m3, b.addr + 8, 4, 1, rest, rest + HEADER);
      HeaderFromSlice(m1, AllocImage(m, bs, i, n), Block(rest, size, false), NextOf(bs, i));
    } else {
      LoadStored(m, b.addr + 8, 4, 1);
      LoadElsewhere(m, b.addr + 8, 4, 1, b.addr, 8);
      LoadElsewhere(m, b.addr + 8, 4, 1, b.addr + 16, 8);
    }
  }

  lemma Apart(bs: seq<Block>, i: nat, j: nat)
    requires Tiled(bs) && i < |bs| && j < |bs| && i != j
    ensures bs[j].End() <= bs[i].addr || bs[i].End() <= bs[j].addr
    ensures bs[j].End() <= HEAP_END
  {
    if j < i { Ordered(bs, j, i); } else { Ordered(bs, i, j); }
    InArena(bs, j);
  }

  // Where the blocks of the new list come from.
  lemma AllocAtOrigin(bs: seq<Block>, i: nat, n: nat, k: nat) returns (j: nat)
    requires i < |bs| && Fits(bs[i], n) && k < |AllocAt(bs, i, n)|
    requires k != i && !(Splits(bs[i], n) && k == i + 1)
    ensures j < |bs| && j != i
    ensures AllocAt(bs, i, n)[k] == bs[j] && NextOf(AllocAt(bs, i, n), k) == NextOf(bs, j)
  {
    j := if k < i || !Splits(bs[i], n) then k else k - 1;
  }

  lemma FreeAtOrigin(bs: seq<Block>, i: nat, k: nat) returns (j: nat)
    requires i < |bs| && k < |FreeAt(bs, i)| && k != i
    ensures j < |bs| && j != i
    ensures FreeAt(bs, i)[k] == bs[j] && NextOf(FreeAt(bs, i), k) == NextOf(bs, j)
  {
    j := if k < i || !(i + 1 < |bs| && !bs[i + 1].used) then k else k + 1;
  }

  lemma AllocHolds(m: seq<byte>, bs: seq<Block>, i: nat, n: nat)
    requires |m| == RAM_SIZE && Tiled(bs) && Holds(m, bs) && i < |bs| && Fits(bs[i], n)
    ensures bs[i].End() <= HEAP_END
    ensures Holds(AllocImage(m, bs, i, n), AllocAt(bs, i, n))
  {
    hide Load, AllocImage;
    InArena(bs, i);
    if i + 1 < |bs| { InArena(bs, i + 1); }
    TakenHeader(m, bs, i, n);
    var r, image := AllocAt(bs, i, n), AllocImage(m, bs, i, n);
    forall k | 0 <= k < |r| && k != i && !(Splits(bs[i], n) && k == i + 1)
      ensures HeaderAt(image, r[k], NextOf(r, k))
    {
      AllocHeaderKept(m, bs, i, n, k);
    }
    if Splits(bs[i], n) { assert NextOf(r, i + 1) == NextOf(bs, i); }
  }

  lemma AllocHeaderKept(m: seq<byte>, bs: seq<Block>, i: nat, n: nat, k: nat)
    requires |m| == RAM_SIZE && Tiled(bs) && Holds(m, bs)
    requires i < |bs| && Fits(bs[i], n) && bs[i].End() <= HEAP_END
    requires k < |AllocAt(bs, i, n)| && k != i && !(Splits(bs[i], n) && k == i + 1)
    ensures var r := AllocAt(bs, i, n); HeaderAt(AllocImage(m, bs, i, n), r[k], NextOf(r, k))
  {
    var j := AllocAtOrigin(bs, i, n, k);
    assert HeaderAt(m, bs[j], NextOf(bs, j));
    Apart(bs, i, j);
    hide AllocAt, AllocImage, Load, Holds, Tiled, Chain;
    AllocImageElsewhere(m, bs, i, n, bs[j].addr, bs[j].addr + HEADER);
    HeaderFromSlice(m, AllocImage(m, bs, i, n), bs[j], NextOf(bs, j));
  }

  lemma FreedHeader(m: seq<byte>, bs: seq<Block>, i: nat)
    requires |m| == RAM_SIZE && i < |bs| && bs[i].End() <= HEAP_END
    requires HeaderAt(m, bs[i], NextOf(bs, i)) && NextOf(bs, i + 1) < WORD
    requires i + 1 < |bs| ==> bs[i].size + HEADER + bs[i + 1].size < WORD
    ensures var r := FreeAt(bs, i); HeaderAt(FreeImage(m, bs, i), r[i], NextOf(r, i))
  {
    hide Store, Load;
    WordSizes();
    var a := bs[i].addr;
    var m1 := Store(m, a + 8, 4, 0);
    LoadStored(m, a + 8, 4, 0);
    LoadElsewhere(m, a + 8, 4, 0, a, 8);
    LoadElsewhere(m, a + 8, 4, 0, a + 16, 8);
    if i + 1 < |bs| && !bs[i + 1].used {
      var size := bs[i].size + HEADER + bs[i + 1].size;
      var m2 := Store(m1, a, 8, size);
      LoadStored(m1, a, 8, size);
      LoadElsewhere(m1, a, 8, size, a + 8, 4);
      LoadStored(m2, a + 16, 8, NextOf(bs, i + 1));
      LoadElsewhere(m2, a + 16, 8, NextOf(bs, i + 1), a, 8);
      LoadElsewhere(m2, a + 16, 8, NextOf(bs, i + 1), a + 8, 4);
    }
  }

  lemma FreeHolds(m: seq<byte>, bs: seq<Block>, i: nat)
    requires |m| == RAM_SIZE && Tiled(bs) && Holds(m, bs) && i < |bs|
    ensures bs[i].End() <= HEAP_END
    ensures Holds(FreeImage(m, bs, i), FreeAt(bs, i))
  {
    hide Load, FreeImage;
    InArena(bs, i);
    if i + 1 < |bs| { InArena(bs, i + 1); Ordered(bs, i, i + 1); }
    if i + 2 < |bs| { InArena(bs, i + 2); }
    FreedHeader(m, bs, i);
    var r, image := FreeAt(bs, i), FreeImage(m, bs, i);
    forall k | 0 <= k < |r| && k != i ensures HeaderAt(image, r[k], NextOf(r, k)) {
      FreeHeaderKept(m, bs, i, k);
    }
  }

  lemma FreeHeaderKept(m: seq<byte>, bs: seq<Block>, i: nat, k: nat)
    requires |m| == RAM_SIZE && Tiled(bs) && Holds(m, bs)
    requires i < |bs| && bs[i].End() <= HEAP_END && k < |FreeAt(bs, i)| && k != i
    ensures var r := FreeAt(bs, i); HeaderAt(FreeImage(m, bs, i), r[k], NextOf(r, k))
  {
    var j := FreeAtOrigin(bs, i, k);
    assert HeaderAt(m, bs[j], NextOf(bs, j));
    Apart(bs, i, j);
    hide FreeAt, FreeImage, Load, Holds, Tiled, Chain;
    FreeImageElsewhere(m, bs, i, bs[j].addr, bs[j].addr + HEADER);
    HeaderFromSlice(m, FreeImage(m, bs, i), bs[j], NextOf(bs, j));
  }

  // Writing to the payload of a block disturbs no header, and no byte of another payload.
  lemma PayloadWriteHolds(m: seq<byte>, r: seq<byte>, bs: seq<Block>, b: Block)
    requires |m| == RAM_SIZE == |r| && Tiled(bs) && Holds(m, bs) && b in bs
    requires b.End() <= HEAP_END && m[..b.Payload()] == r[..b.Payload()] && m[b.End()..] == r[b.End()..]
    ensures Holds(r, bs)
  {
    hide Load, HeaderAt, Tiled;
    var i :| 0 <= i < |bs| && bs[i] == b;
    forall k | 0 <= k < |bs| ensures HeaderAt(r, bs[k], NextOf(bs, k)) {
      PayloadWriteHeader(m, r, bs, i, k);
    }
  }

  lemma PayloadWriteHeader(m: seq<byte>, r: seq<byte>, bs: seq<Block>, i: nat, k: nat)
    requires |m| == RAM_SIZE == |r| && Tiled(bs) && Holds(m, bs) && i < |bs| && k < |bs|
    requires bs[i].End() <= HEAP_END
    requires m[..bs[i].Payload()] == r[..bs[i].Payload()] && m[bs[i].End()..] == r[bs[i].End()..]
    ensures HeaderAt(r, bs[k], NextOf(bs, k))
  {
    hide Load;
    HeaderHolds(m, bs, k);
    if k != i { Apart(bs, i, k); }
    hide Holds, Tiled, Chain;
    SameOutside(m, r, bs[i].Payload(), bs[i].End(), bs[k].addr, bs[k].addr + HEADER);
    HeaderFromSlice(m, r, bs[k], NextOf(bs, k));
  }

  lemma SameOutside(m: seq<byte>, r: seq<byte>, lo: nat, hi: nat, x: nat, y: nat)
    requires |m| == |r| && lo <= hi <= |m| && m[..lo] == r[..lo] && m[hi..] == r[hi..]
    requires x <= y <= |m| && (y <= lo || hi <= x)
    ensures m[x..y] == r[x..y]
  {
    forall k | x <= k < y ensures m[k] == r[k] {
      if y <= lo {
        assert m[k] == m[..lo][k] == r[..lo][k];
      } else {
        assert m[k] == m[hi..][k - hi] == r[hi..][k - hi];
      }
    }
  }

  lemma ClearedInside(m: seq<byte>, b: Block, n: nat)
    requires n <= b.size && b.End() <= |m|
    ensures var r := Cleared(m, b.Payload(), n);
            r[..b.Payload()] == m[..b.Payload()] && r[b.End()..] == m[b.End()..]
  {
  }

  // Memory holds exactly the block list before and after every call.
  lemma KmallocHolds(m: seq<byte>, bs: seq<Block>, size: nat)
    requires |m| == RAM_SIZE && Heap(bs) && Holds(m, bs)
    ensures Holds(KmallocImage(m, bs, size), Kmalloc(bs, size).0)
  {
    hide RoundUp, AllocImage, AllocAt, BootImage, HeaderAt;
    BootHolds(m, bs);
    var h := Boot(bs);
    var i := FirstFit(h, RoundUp(size), 0);
    if size != 0 && i < |h| { AllocHolds(BootImage(m, bs), h, i, RoundUp(size)); }
  }

  lemma KfreeHolds(m: seq<byte>, bs: seq<Block>, p: nat)
    requires |m| == RAM_SIZE && Heap(bs) && Holds(m, bs)
    ensures Holds(KfreeImage(m, bs, p), Kfree(bs, p))
  {
    hide FreeImage, FreeAt, HeaderAt;
    var i := BlockAt(bs, p, 0);
    if p != 0 && i < |bs| { FreeHolds(m, bs, i); }
  }
}

// The allocator itself: a static head pointer and headers kept in memory.
module KernelHeap {
  import opened Bytes
  import opened HeapBlocks
  import opened HeapMemory

  class Heap {
    const ram: array<byte>
    var head: nat                    // heap_head; 0 is NULL
    ghost var blocks: seq<Block>

    ghost predicate Valid()
      reads this, ram
    {
      && ram.Length == RAM_SIZE
      && HeapBlocks.Heap(blocks)
      && head == (if blocks == [] then 0 else HEAP_START)
      && Holds(ram[..], blocks)
    }

    constructor (ram: array<byte>)
      requires ram.Length == RAM_SIZE
      ensures Valid() && this.ram == ram && blocks == []
    {
      this.ram := ram;
      head := 0;
      blocks := [];
    }

    function Word(a: nat, n: nat): nat
      requires a + n <= ram.Length
      reads ram
    {
      Load(ram[..], a, n)
    }

    // One store of an n-byte machine word.
    method SetWord(a: nat, n: nat, v: nat)
      requires a + n <= ram.Length
      modifies ram
      ensures ram[..] == Store(old(ram[..]), a, n, v)
    {
      var bytes := ToLE(v, n);
      forall k | 0 <= k < n {
        ram[a + k] := bytes[k];
      }
    }

    // The body of the first-fit branch: split when worthwhile, then mark as used.
    method Take(current: nat, size: nat, ghost h: seq<Block>, ghost i: nat)
      requires ram.Length == RAM_SIZE && i < |h| && Fits(h[i], size) && h[i].End() <= HEAP_END
      requires current == h[i].addr && HeaderAt(ram[..], h[i], NextOf(h, i))
      modifies ram
      ensures ram[..] == AllocImage(old(ram[..]), h, i, size)
    {
      hide Store, Load;
      if Word(current, 8) >= size + HEADER + MIN_BLOCK {
        var rest := current + HEADER + size;
        var left, next := Word(current, 8) - size - HEADER, Word(current + 16, 8);
        SetWord(rest, 8, left);
        SetWord(rest + 8, 4, 0);
        SetWord(rest + 16, 8, next);
        SetWord(current, 8, size);
        SetWord(current + 16, 8, rest);
      }
      SetWord(current + 8, 4, 1);
    }

    // The first call to allocate creates the one free block.
    method Start()
      requires Valid()
      modifies this, ram
      ensures Valid() && Tiled(blocks) && blocks == Boot(old(blocks)) && head == blocks[0].addr
      ensures ram[..] == BootImage(old(ram[..]), old(blocks))
    {
      hide Store, Load, Holds;
      BootHolds(ram[..], blocks);
      if head == 0 {
        head := HEAP_START;
        SetWord(head, 8, ARENA);
        SetWord(head + 8, 4, 0);
        SetWord(head + 16, 8, 0);
        blocks := [FRESH];
      }
    }

    method Kmalloc(request: nat) returns (ptr: nat)
      requires Valid() && request < WORD
      modifies this, ram
      ensures Valid()
      ensures (blocks, ptr) == HeapBlocks.Kmalloc(old(blocks), request)
      ensures ram[..] == KmallocImage(old(ram[..]), old(blocks), request)
    {
      hide Store, Load, AllocImage, AllocAt, BootImage, Boot, Holds, Tiled;
      if request == 0 { return 0; }
      var size := (request + 7) % WORD;
      size := size - size % 8;
      assert size == RoundUp(request);
      hide RoundUp;
      Start();
      ghost var m, h := ram[..], blocks;
      var current := head;
      ghost var i := 0;
      while current != 0
        invariant Tiled(h) && Holds(m, h) && ram[..] == m && blocks == h && head == HEAP_START
        invariant i <= |h| && current == (if i < |h| then h[i].addr else 0)
        invariant FirstFit(h, size, 0) == FirstFit(h, size, i)
        decreases |h| - i
      {
        InArena(h, i);
        HeaderHolds(m, h, i);
        if Word(current + 8, 4) == 0 && Word(current, 8) >= size {
          AllocHolds(m, h, i, size);
          AllocAtTiles(h, i, size);
          Take(current, size, h, i);
          blocks := AllocAt(h, i, size);
          return current + HEADER;
        }
        current := Word(current + 16, 8);
        i := i + 1;
        if i < |h| { InArena(h, i); }
      }
      if i < |h| { InArena(h, i); }
      ptr := 0;
    }

    method Kfree(ptr: nat)
      requires Valid() && (ptr == 0 || ptr in Live(blocks))
      modifies this, ram
      ensures Valid()
      ensures blocks == HeapBlocks.Kfree(old(blocks), ptr)
      ensures ram[..] == KfreeImage(old(ram[..]), old(blocks), ptr)
    {
      hide Store, Load, FreeAt, Holds;
      if ptr == 0 { return; }
      ghost var m, h := ram[..], blocks;
      ghost var i := LiveIndex(h, ptr);
      BlockAtIndex(h, i);
      HeaderHolds(m, h, i);
      FreeHolds(m, h, i);
      FreeAtTiles(h, i);
      if i + 1 < |h| { HeaderHolds(m, h, i + 1); Apart(h, i, i + 1); }
      blocks := FreeAt(h, i);

      Release(ptr - HEADER, h, i);
    }

    // Clear the used word, then absorb the next block when that one is free.
    method Release(block: nat, ghost h: seq<Block>, ghost i: nat)
      requires ram.Length == RAM_SIZE && i < |h| && block == h[i].addr && h[i].End() <= HEAP_END
      requires HeaderAt(ram[..], h[i], NextOf(h, i))
      requires i + 1 < |h| ==> h[i].End() <= h[i + 1].addr && HeaderAt(ram[..], h[i + 1], NextOf(h, i + 1))
      requires i + 1 < |h| ==> h[i + 1].addr != 0
      modifies ram
      ensures ram[..] == FreeImage(old(ram[..]), h, i)
    {
      hide Store, Load;
      ghost var m := ram[..];
      SetWord(block + 8, 4, 0);
      LoadElsewhere(m, block + 8, 4, 0, block, 8);
      LoadElsewhere(m, block + 8, 4, 0, block + 16, 8);
      var next := Word(block + 16, 8);
      if next != 0 {
        LoadElsewhere(m, block + 8, 4, 0, next, 8);
        LoadElsewhere(m, block + 8, 4, 0, next + 8, 4);
        LoadElsewhere(m, block + 8, 4, 0, next + 16, 8);
        if Word(next + 8, 4) == 0 {
          ghost var m1 := ram[..];
          var size, after := Word(block, 8) + HEADER + Word(next, 8), Word(next + 16, 8);
          SetWord(block, 8, size);
          SetWord(block + 16, 8, after);
        }
      }
    }

    // The product wraps in 64 bits. Only when the rounding in kmalloc wraps as well does clearing
    // leave the block; it then zeroes everything behind it and ends in a page fault, as boot.asm
    // maps RAM_SIZE bytes and no more.
    method Kcalloc(num: nat, size: nat) returns (ptr: nat, fault: bool)
      requires Valid() && num < WORD && size < WORD
      modifies this, ram
      ensures fault == Faults(old(blocks), Product(num, size))
      ensures (blocks, ptr) == HeapBlocks.Kmalloc(old(blocks), Product(num, size))
      ensures ram[..] == KcallocImage(old(ram[..]), old(blocks), Product(num, size))
      ensures !fault ==> Valid()
    {
      hide KmallocImage, HeapBlocks.Kmalloc, Cleared, Holds, HeapBlocks.Heap, Tiled;
      var bytes := Product(num, size);
      ghost var before := blocks;
      fault := false;
      ptr := Kmalloc(bytes);
      if ptr != 0 {
        ghost var b := Granted(before, bytes);
        ghost var m := ram[..];
        KmallocNotEmpty(before, bytes);
        fault := Zero(ptr, bytes);
        if !fault {
          ClearedInside(m, b, bytes);
          PayloadWriteHolds(m, ram[..], blocks, b);
        }
      }
    }

    method Zero(ptr: nat, bytes: nat) returns (fault: bool)
      requires ptr <= ram.Length
      modifies ram
      ensures fault <==> ptr + bytes > ram.Length
      ensures ram[..] == Cleared(old(ram[..]), ptr, if fault then ram.Length - ptr else bytes)
    {
      var i := 0;
      while i < bytes
        invariant i <= bytes && ptr + i <= ram.Length && ram[..] == Cleared(old(ram[..]), ptr, i)
      {
        if ptr + i == ram.Length { return true; }
        ram[ptr + i] := 0;
        i := i + 1;
      }
      fault := false;
    }

    method HeapStatus() returns (count: nat, total: nat, free: nat)
      requires Valid()
      ensures count == |blocks| && total == TotalSize(blocks) && free == FreeSize(blocks)
      ensures blocks != [] ==> total + HEADER * count == HEADER + ARENA
    {
      hide Load, Holds;
      count, total, free := 0, 0, 0;
      if blocks != [] { Conservation(blocks); InArena(blocks, 0); }
      var current := head;
      while current != 0
        invariant count <= |blocks| && current == (if count < |blocks| then blocks[count].addr else 0)
        invariant count < |blocks| ==> current >= HEAP_START
        invariant total == TotalSize(blocks[..count]) && free == FreeSize(blocks[..count])
        decreases |blocks| - count
      {
        InArena(blocks, count);
        HeaderHolds(ram[..], blocks, count);
        assert blocks[..count + 1][..count] == blocks[..count];
        total := total + Word(current, 8);
        if Word(current + 8, 4) == 0 { free := free + Word(current, 8); }
        current := Word(current + 16, 8);
        count := count + 1;
        if count < |blocks| { InArena(blocks, count); }
      }
      assert blocks[..count] == blocks;
    }
  }
}
