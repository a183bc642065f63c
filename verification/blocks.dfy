// The heap as the list of blocks that its in-place headers spell out: what kmalloc and
// kfree do to that list, and what holds of it whatever the calls were.
module HeapBlocks {
  import opened Bytes

  const HEAP_START: nat := 0x200_0000
  const HEADER: nat := 24
  const ARENA: nat := 8 * 1024 * 1024
  const HEAP_END: nat := HEAP_START + HEADER + ARENA
  const MIN_BLOCK: nat := 32

  datatype Block = Block(addr: nat, size: nat, used: bool) {
    function Payload(): nat { addr + HEADER }
    function End(): nat { addr + HEADER + size }
  }

  const FRESH: Block := Block(HEAP_START, ARENA, false)

  // ---------------------------------------------------------------- operations

  // The size rounded up to a multiple of 8 in 64-bit arithmetic: for sizes above 2^64 - 8 the
  // addition wraps.
  function RoundUp(size: nat): (n: nat)
    ensures n % 8 == 0
    ensures 0 < size <= WORD - 8 ==> 8 <= n && size <= n < size + 8
    ensures WORD - 8 < size < WORD ==> n == 0
  {
    var t := (size + 7) % WORD;
    t - t % 8
  }

  predicate Fits(b: Block, n: nat) { !b.used && b.size >= n }

  predicate Splits(b: Block, n: nat) { b.size >= n + HEADER + MIN_BLOCK }

  // Index of the lowest-address block at or after i that fits, or |bs|.
  function FirstFit(bs: seq<Block>, n: nat, i: nat): (r: nat)
    requires i <= |bs|
    ensures i <= r <= |bs|
    ensures r < |bs| ==> Fits(bs[r], n)
    ensures forall k :: i <= k < r ==> !Fits(bs[k], n)
    decreases |bs| - i
  {
    if i == |bs| || Fits(bs[i], n) then i else FirstFit(bs, n, i + 1)
  }

  // The lazily created first block.
  function Boot(bs: seq<Block>): (r: seq<Block>)
    ensures r != []
  {
    if bs == [] then [FRESH] else bs
  }

  function AllocAt(bs: seq<Block>, i: nat, n: nat): (r: seq<Block>)
    requires i < |bs| && Fits(bs[i], n)
  {
    var b := bs[i];
    if Splits(b, n) then
      bs[..i] + [Block(b.addr, n, true), Block(b.addr + HEADER + n, b.size - n - HEADER, false)] + bs[i + 1..]
    else
      bs[i := b.(used := true)]
  }

  function FreeAt(bs: seq<Block>, i: nat): seq<Block>
    requires i < |bs|
  {
    var b := bs[i];
    if i + 1 < |bs| && !bs[i + 1].used then
      bs[..i] + [Block(b.addr, b.size + HEADER + bs[i + 1].size, false)] + bs[i + 2..]
    else
      bs[i := b.(used := false)]
  }

  // Index of the first block at or after i whose payload starts at p, or |bs|.
  function BlockAt(bs: seq<Block>, p: nat, i: nat): (r: nat)
    requires i <= |bs|
    ensures i <= r <= |bs|
    ensures r < |bs| ==> bs[r].Payload() == p
    ensures forall k :: i <= k < r ==> bs[k].Payload() != p
    decreases |bs| - i
  {
    if i == |bs| || bs[i].Payload() == p then i else BlockAt(bs, p, i + 1)
  }

  // kmalloc on the block list; the pointer 0 is NULL and the list [] is a NULL heap_head.
  function Kmalloc(bs: seq<Block>, size: nat): (seq<Block>, nat) {
    if size == 0 then (bs, 0)
    else
      var n, h := RoundUp(size), Boot(bs);
      var i := FirstFit(h, n, 0);
      if i == |h| then (h, 0) else (AllocAt(h, i, n), h[i].Payload())
  }

  function Kfree(bs: seq<Block>, p: nat): seq<Block> {
    var i := BlockAt(bs, p, 0);
    if p == 0 || i == |bs| then bs else FreeAt(bs, i)
  }

  // ---------------------------------------------------------------- tiling

  ghost predicate Chain(bs: seq<Block>) {
    && (bs != [] ==> bs[0].addr == HEAP_START)
    && (forall k :: 0 <= k < |bs| - 1 ==> bs[k + 1].addr == bs[k].End())
    && (forall k :: 0 <= k < |bs| ==> bs[k].size % 8 == 0)
  }

  // The blocks cover the arena from its start to its end without gap or overlap.
  ghost predicate Tiled(bs: seq<Block>) {
    Chain(bs) && bs != [] && bs[|bs| - 1].End() == HEAP_END
  }

  // A reachable list: not yet created, or tiling the arena.
  ghost predicate Heap(bs: seq<Block>) { bs == [] || Tiled(bs) }

  lemma {:induction false} Ordered(bs: seq<Block>, i: nat, j: nat)
    requires Chain(bs) && i < j < |bs|
    ensures bs[i].End() <= bs[j].addr
    decreases j
  {
    if i + 1 < j { Ordered(bs, i, j - 1); }
    assert bs[j - 1 + 1].addr == bs[j - 1].End();
  }

  lemma {:induction false} Aligned(bs: seq<Block>, i: nat)
    requires Chain(bs) && i < |bs|
    ensures bs[i].addr % 8 == 0
  {
    if i > 0 {
      Aligned(bs, i - 1);
      assert bs[i - 1 + 1].addr == bs[i - 1].End();
    }
  }

  lemma InArena(bs: seq<Block>, i: nat)
    requires Tiled(bs) && i < |bs|
    ensures HEAP_START <= bs[i].addr && bs[i].End() <= HEAP_END
  {
    if i > 0 { Ordered(bs, 0, i); }
    if i < |bs| - 1 { Ordered(bs, i, |bs| - 1); }
  }

  // Blocks are told apart by their addresses, so pointers are told apart too.
  lemma AddrInjective(bs: seq<Block>, i: nat, j: nat)
    requires Chain(bs) && i < |bs| && j < |bs| && bs[i].addr == bs[j].addr
    ensures i == j
  {
    if i < j { Ordered(bs, i, j); }
    if j < i { Ordered(bs, j, i); }
  }

  lemma BlockAtIndex(bs: seq<Block>, i: nat)
    requires Chain(bs) && i < |bs|
    ensures BlockAt(bs, bs[i].Payload(), 0) == i
  {
    AddrInjective(bs, i, BlockAt(bs, bs[i].Payload(), 0));
  }

  lemma AllocAtTiles(bs: seq<Block>, i: nat, n: nat)
    requires Tiled(bs) && i < |bs| && Fits(bs[i], n) && n % 8 == 0
    ensures Tiled(AllocAt(bs, i, n))
  {
    if Splits(bs[i], n) {
      SplitTiles(bs, i, n);
    } else {
      WholeTiles(bs, AllocAt(bs, i, n), i);
    }
  }

  // Changing the used flag of a block.
  lemma WholeTiles(bs: seq<Block>, r: seq<Block>, i: nat)
    requires Tiled(bs) && i < |bs| && (r == bs[i := bs[i].(used := true)])
    ensures Tiled(r)
  {
    assert forall k :: 0 <= k < |bs| ==> r[k].addr == bs[k].addr && r[k].size == bs[k].size;
  }

  // The k-th block of a list after a split joins the next one.
  lemma SplitJoins(bs: seq<Block>, r: seq<Block>, i: nat, n: nat, k: nat)
    requires Tiled(bs) && i < |bs| && Fits(bs[i], n) && Splits(bs[i], n) && n % 8 == 0
    requires r == AllocAt(bs, i, n) && k < |r|
    ensures |r| == |bs| + 1 && r[k].size % 8 == 0
    ensures if k < |bs| then r[k + 1].addr == r[k].End() else r[k].End() == HEAP_END
    ensures k == 0 ==> r[k].addr == HEAP_START
  {
    if k < i {
      assert r[k] == bs[k] && r[k + 1].addr == bs[k + 1].addr;
    } else if k > i {
      assert r[k].End() == bs[k - 1].End() && r[k].size % 8 == 0;
      if k < |bs| { assert r[k + 1] == bs[k] == bs[k - 1 + 1]; }
    }
  }

  lemma SplitTiles(bs: seq<Block>, i: nat, n: nat)
    requires Tiled(bs) && i < |bs| && Fits(bs[i], n) && Splits(bs[i], n) && n % 8 == 0
    ensures Tiled(AllocAt(bs, i, n))
  {
    var r := AllocAt(bs, i, n);
    hide AllocAt;
    SplitJoins(bs, r, i, n, 0);
    SplitJoins(bs, r, i, n, |bs|);
    forall k | 0 <= k < |r|
      ensures r[k].size % 8 == 0 && (k < |r| - 1 ==> r[k + 1].addr == r[k].End())
    {
      SplitJoins(bs, r, i, n, k);
    }
  }

  lemma FreeAtTiles(bs: seq<Block>, i: nat)
    requires Tiled(bs) && i < |bs|
    ensures Tiled(FreeAt(bs, i))
  {
    var r := FreeAt(bs, i);
    if i + 1 < |bs| && !bs[i + 1].used {
      assert r[i].addr == bs[i].addr && bs[i + 1].addr == bs[i].End() && r[i].End() == bs[i + 1].End();
      forall k | 0 <= k < |r| ensures r[k].size % 8 == 0 {
        assert k != i ==> r[k] == bs[if k < i then k else k + 1];
      }
      forall k | 0 <= k < |r| - 1 ensures r[k + 1].addr == r[k].End() {
        if k < i {
          assert r[k] == bs[k] && r[k + 1].addr == bs[k + 1].addr;
        } else {
          assert r[k].End() == bs[k + 1].End() && r[k + 1] == bs[k + 2] == bs[k + 1 + 1];
        }
      }
    }
  }

  // Every call keeps the tiling; hence the sum of (24 + size) never changes.
  lemma Tiling(bs: seq<Block>, size: nat, p: nat)
    requires Heap(bs)
    ensures Heap(Kmalloc(bs, size).0) && Heap(Kfree(bs, p))
  {
    hide RoundUp;
    var h := Boot(bs);
    var n := RoundUp(size);
    var i := FirstFit(h, n, 0);
    if i < |h| { AllocAtTiles(h, i, n); }
    var j := BlockAt(bs, p, 0);
    if j < |bs| { FreeAtTiles(bs, j); }
  }

  // ---------------------------------------------------------------- totals

  function TotalSize(bs: seq<Block>): nat {
    if bs == [] then 0 else TotalSize(bs[..|bs| - 1]) + bs[|bs| - 1].size
  }

  function FreeSize(bs: seq<Block>): nat {
    if bs == [] then 0
    else FreeSize(bs[..|bs| - 1]) + if bs[|bs| - 1].used then 0 else bs[|bs| - 1].size
  }

  // The free total is the free sizes added up: it takes a used block for 0 and a free one for its
  // size, wherever it stands.
  lemma {:induction false} FreeAddsUp(a: seq<Block>, b: Block, c: seq<Block>)
    ensures FreeSize(a + [b] + c) == FreeSize(a) + (if b.used then 0 else b.size) + FreeSize(c)
    ensures TotalSize(a + [b] + c) == TotalSize(a) + b.size + TotalSize(c)
    decreases |c|
  {
    var s := a + [b] + c;
    if c == [] {
      assert s == a + [b] && s[..|s| - 1] == a;
      assert FreeSize([]) == 0 && TotalSize([]) == 0;
    } else {
      assert s[..|s| - 1] == a + [b] + c[..|c| - 1];
      FreeAddsUp(a, b, c[..|c| - 1]);
    }
  }

  lemma {:induction false} ChainLength(bs: seq<Block>)
    requires Chain(bs) && bs != []
    ensures HEAP_START + TotalSize(bs) + HEADER * |bs| == bs[|bs| - 1].End()
  {
    var front := bs[..|bs| - 1];
    if front != [] {
      ChainLength(front);
      assert bs[|bs| - 2 + 1].addr == bs[|bs| - 2].End();
    } else {
      assert TotalSize(front) == 0;
    }
  }

  lemma Conservation(bs: seq<Block>)
    requires Tiled(bs)
    ensures TotalSize(bs) + HEADER * |bs| == HEADER + ARENA
  {
    ChainLength(bs);
  }

  // Every block has room for at least one 8-byte word.
  ghost predicate Roomy(bs: seq<Block>) { forall k :: 0 <= k < |bs| ==> bs[k].size >= 8 }

  lemma RoomyAlloc(bs: seq<Block>, i: nat, n: nat)
    requires Roomy(bs) && i < |bs| && Fits(bs[i], n) && n >= 8
    ensures Roomy(AllocAt(bs, i, n))
  {
  }

  lemma RoomyFree(bs: seq<Block>, i: nat)
    requires Roomy(bs) && i < |bs|
    ensures Roomy(FreeAt(bs, i))
  {
  }

  // A request that does not wrap never creates a block without room.
  lemma RoomyKept(bs: seq<Block>, size: nat, p: nat)
    requires Roomy(bs) && size <= WORD - 8
    ensures Roomy(Kmalloc(bs, size).0) && Roomy(Kfree(bs, p))
  {
    hide RoundUp, AllocAt, FreeAt;
    var h, n := Boot(bs), RoundUp(size);
    var i := FirstFit(h, n, 0);
    if size != 0 && i < |h| { RoomyAlloc(h, i, n); }
    var j := BlockAt(bs, p, 0);
    if j < |bs| { RoomyFree(bs, j); }
  }

  lemma {:induction false} RoomySize(bs: seq<Block>)
    requires Roomy(bs)
    ensures TotalSize(bs) >= 8 * |bs|
  {
    if bs != [] { RoomySize(bs[..|bs| - 1]); }
  }

  // The first-fit walk visits at most 349526 headers, and at most 262144 when every block has
  // room.
  lemma WalkBound(bs: seq<Block>)
    requires Heap(bs)
    ensures |bs| <= 349526
    ensures Roomy(bs) ==> |bs| <= 262144
  {
    if bs != [] {
      Conservation(bs);
      if Roomy(bs) { RoomySize(bs); }
    }
  }

  // ---------------------------------------------------------------- first fit and capacity

  // NULL exactly when the request is empty or nothing fits; otherwise the block handed out
  // is the lowest-address one that fits.
  lemma FirstFitComplete(bs: seq<Block>, size: nat)
    requires Heap(bs)
    ensures Kmalloc(bs, size).1 == 0 <==> size == 0 || (forall b :: b in Boot(bs) ==> b.used || b.size < RoundUp(size))
    ensures Kmalloc(bs, size).1 != 0 ==>
              exists b :: b in Boot(bs) && !b.used && b.size >= RoundUp(size) && b.addr + 24 == Kmalloc(bs, size).1
                          && forall c :: c in Boot(bs) && !c.used && c.size >= RoundUp(size) ==> b.addr <= c.addr
  {
    hide RoundUp;
    var h, n := Boot(bs), RoundUp(size);
    var i := FirstFit(h, n, 0);
    if size != 0 && i < |h| {
      assert h[i] in h;
      forall c | c in h && Fits(c, n) ensures h[i].addr <= c.addr {
        var j :| 0 <= j < |h| && h[j] == c;
        if i < j { Ordered(h, i, j); }
      }
    }
  }

  // The block handed out holds the request exactly when the rounding does not wrap, wastes
  // less than a header and a minimal block, and any other new block is a free remainder of at
  // least 32 bytes.
  lemma Capacity(bs: seq<Block>, size: nat)
    requires Heap(bs) && size < WORD && Kmalloc(bs, size).1 != 0
    ensures var (r, p) := Kmalloc(bs, size);
            exists b :: b in r && b.used && b.Payload() == p
                        && RoundUp(size) <= b.size < RoundUp(size) + 56
                        && (b.size >= size <==> size <= WORD - 8)
                        && forall c :: c in r && c !in Boot(bs) && c != b ==> !c.used && c.size >= 32
  {
    var h, n := Boot(bs), RoundUp(size);
    hide RoundUp;
    var i := FirstFit(h, n, 0);
    var r := AllocAt(h, i, n);
    InArena(h, i);
    assert r[i] in r;
    forall k | 0 <= k < |r| && k != i && !(Splits(h[i], n) && k == i + 1) ensures r[k] in h {
      assert r[k] == h[if k < i || !Splits(h[i], n) then k else k - 1];
    }
  }

  // The first allocation, byte for byte of the arena.
  lemma FirstAllocation(size: nat)
    requires 0 < size <= 0x80_0000 - 56
    ensures var n := RoundUp(size);
            Kmalloc([], size) ==
              ([Block(0x200_0000, n, true), Block(0x200_0018 + n, 0x80_0000 - n - 24, false)], 0x200_0018)
  {
    var n := RoundUp(size);
    hide RoundUp;
    assert n % 8 == 0 && n <= 0x80_0000 - 56;
    assert Boot([]) == [FRESH] && FRESH == Block(0x200_0000, 0x80_0000, false);
    assert FirstFit([FRESH], n, 0) == 0 && Splits(FRESH, n);
    assert AllocAt([FRESH], 0, n) == [Block(0x200_0000, n, true), Block(0x200_0018 + n, 0x80_0000 - n - 24, false)];
  }

  // The smallest hole that is split: 64 bytes for a request of 8 leave a remainder of 32, which
  // the next request gets.
  lemma SmallestSplit(hole: nat, last: Block)
    requires hole % 8 == 0 && hole >= 8
    ensures var h := [Block(0x200_0000, hole, false), last];
            && Kmalloc(h, 8).1 == 0x200_0018
            && (hole == 64 ==> Kmalloc(Kmalloc(h, 8).0, 8).1 == 0x200_0038)
            && (Kmalloc(h, 8).0 == [Block(0x200_0000, hole, true), last] <==> hole < 64)
  {
    var h := [Block(0x200_0000, hole, false), last];
    assert FirstFit(h, 8, 0) == 0;
    var r := Kmalloc(h, 8).0;
    if hole >= 64 {
      assert r == [Block(0x200_0000, 8, true), Block(0x200_0020, hole - 32, false), last];
      assert FirstFit(r, 8, 0) == FirstFit(r, 8, 1) == 1;
    }
  }

  // A size whose rounding wraps gets a block without any room.
  lemma WrappedSizeIsEmpty()
    ensures Kmalloc([], WORD - 1).1 == HEAP_START + HEADER
    ensures Kmalloc([], WORD - 1).0[0] == Block(HEAP_START, 0, true)
  {
  }

  // The pointer handed out is the payload of a used block inside the arena.
  lemma Granted(bs: seq<Block>, size: nat) returns (b: Block)
    requires Heap(bs) && size < WORD && Kmalloc(bs, size).1 != 0
    ensures b in Kmalloc(bs, size).0 && b.used && b.Payload() == Kmalloc(bs, size).1
    ensures b.size >= size <==> size <= WORD - 8
    ensures HEAP_START <= b.addr && b.End() <= HEAP_END
  {
    Capacity(bs, size);
    Tiling(bs, size, 0);
    hide RoundUp, Chain;
    var (r, p) := Kmalloc(bs, size);
    b :| b in r && b.used && b.Payload() == p && (b.size >= size <==> size <= WORD - 8);
    var i :| 0 <= i < |r| && r[i] == b;
    InArena(r, i);
  }

  // When kmalloc is called with a number that wrapped on the way, the block holds what was asked
  // for exactly when neither that number nor its rounding wrapped.
  lemma WrappedCapacity(bs: seq<Block>, asked: nat)
    requires Heap(bs) && Kmalloc(bs, asked % WORD).1 != 0
    ensures var (r, p) := Kmalloc(bs, asked % WORD);
            exists b :: b in r && b.used && b.Payload() == p && (b.size >= asked <==> asked <= WORD - 8)
  {
    hide Kmalloc, Tiled;
    var b := Granted(bs, asked % WORD);
  }

  // The block kcalloc hands out holds the num * size bytes asked for exactly when neither the
  // product nor its rounding wraps.
  lemma KcallocCapacity(bs: seq<Block>, num: nat, size: nat)
    requires Heap(bs) && num < WORD && size < WORD && Kmalloc(bs, Product(num, size)).1 != 0
    ensures var (r, p) := Kmalloc(bs, Product(num, size));
            exists b :: b in r && b.used && b.Payload() == p
                        && (b.size >= num * size <==> num * size <= WORD - 8)
  {
    assert Product(num, size) == (num * size) % WORD;
    hide *;
    WrappedCapacity(bs, num * size);
  }

  // A product that wraps to a small number: 2^64 + 8 bytes are asked for and 8 are granted.
  lemma WrappedProductIsShort()
    ensures var num, size := 0x8000_0000_0000_0004, 2;
            && num < WORD && num * size == WORD + 8
            && Kmalloc([], Product(num, size)).1 == HEAP_START + HEADER
            && Kmalloc([], Product(num, size)).0[0] == Block(HEAP_START, 8, true)
  {
    assert Kmalloc([], 8).0[0] == Block(HEAP_START, 8, true);
  }

  // ---------------------------------------------------------------- live pointers

  ghost function Live(bs: seq<Block>): set<nat> {
    set b | b in bs && b.used :: b.Payload()
  }

  // A used block of at least n bytes starts its payload at p.
  ghost predicate Owns(bs: seq<Block>, p: nat, n: nat) {
    exists b :: b in bs && b.used && b.Payload() == p && b.size >= n
  }

  lemma LiveIndex(bs: seq<Block>, p: nat) returns (i: nat)
    requires p in Live(bs)
    ensures i < |bs| && bs[i].used && bs[i].Payload() == p
  {
    var b :| b in bs && b.used && b.Payload() == p;
    i :| i < |bs| && bs[i] == b;
  }

  lemma AllocAtKeeps(bs: seq<Block>, i: nat, n: nat)
    requires Tiled(bs) && i < |bs| && Fits(bs[i], n)
    ensures bs[i].Payload() !in Live(bs)
    ensures Live(AllocAt(bs, i, n)) == Live(bs) + {bs[i].Payload()}
    ensures forall b :: b in bs && b.used ==> b in AllocAt(bs, i, n)
  {
    var r := AllocAt(bs, i, n);
    var p := bs[i].Payload();
    if p in Live(bs) {
      var j := LiveIndex(bs, p);
      AddrInjective(bs, i, j);
    }
    forall b | b in bs && b.used ensures b in r {
      var j :| 0 <= j < |bs| && bs[j] == b;
      assert b == r[if j < i || !Splits(bs[i], n) then j else j + 1];
    }
    forall q | q in Live(r) ensures q in Live(bs) + {p} {
      var j := LiveIndex(r, q);
      if j != i {
        assert r[j] in bs by { if j < i { assert r[j] == bs[j]; } }
      }
    }
    assert r[i].used && r[i].Payload() == p && r[i] in r;
  }

  lemma FreeAtKeeps(bs: seq<Block>, i: nat)
    requires Tiled(bs) && i < |bs| && bs[i].used
    ensures Live(FreeAt(bs, i)) == Live(bs) - {bs[i].Payload()}
    ensures forall b :: b in bs && b.used && b != bs[i] ==> b in FreeAt(bs, i)
  {
    var r := FreeAt(bs, i);
    var merged := i + 1 < |bs| && !bs[i + 1].used;
    forall b | b in bs && b.used && b != bs[i] ensures b in r {
      var j :| 0 <= j < |bs| && bs[j] == b;
      assert b == r[if j < i || !merged then j else j - 1];
    }
    assert forall j :: 0 <= j < |r| && j != i ==> r[j] == bs[if j < i || !merged then j else j + 1];
    assert !r[i].used;
    hide FreeAt;
    forall q | q in Live(r) ensures q in Live(bs) - {bs[i].Payload()} {
      var j := LiveIndex(r, q);
      var k := if j < i || !merged then j else j + 1;
      assert r[j] == bs[k];
      if bs[k].addr == bs[i].addr { AddrInjective(bs, i, k); }
    }
    forall q | q in Live(bs) - {bs[i].Payload()} ensures q in Live(r) {
      var j := LiveIndex(bs, q);
      assert bs[j] in r;
    }
  }

  // kmalloc adds one new live pointer and leaves every used block as it was.
  lemma KmallocKeeps(bs: seq<Block>, size: nat)
    requires Heap(bs)
    ensures var (r, p) := Kmalloc(bs, size);
            && (forall b :: b in bs && b.used ==> b in r)
            && (p == 0 ==> Live(r) == Live(bs))
            && (p != 0 ==> p !in Live(bs) && Live(r) == Live(bs) + {p})
  {
    hide RoundUp;
    var h, n := Boot(bs), RoundUp(size);
    var i := FirstFit(h, n, 0);
    if i < |h| { AllocAtKeeps(h, i, n); }
  }

  // kfree of a live pointer removes that pointer and leaves every other used block as it was.
  lemma KfreeKeeps(bs: seq<Block>, p: nat)
    requires Heap(bs) && (p == 0 || p in Live(bs))
    ensures Live(Kfree(bs, p)) == Live(bs) - {p}
    ensures forall b :: b in bs && b.used && b.Payload() != p ==> b in Kfree(bs, p)
  {
    if p != 0 {
      var i := LiveIndex(bs, p);
      BlockAtIndex(bs, i);
      FreeAtKeeps(bs, i);
    }
  }

  // Two live pointers own disjoint, aligned stretches of the arena.
  lemma PayloadsDisjoint(bs: seq<Block>, b: Block, c: Block)
    requires Tiled(bs) && b in bs && c in bs && b.addr != c.addr
    ensures b.addr % 8 == 0 && b.Payload() % 8 == 0
    ensures HEAP_START <= b.addr && b.End() <= HEAP_END
    ensures b.End() <= c.addr || c.End() <= b.addr
  {
    assert Chain(bs);
    hide Tiled, Chain;
    var i :| 0 <= i < |bs| && bs[i] == b;
    var j :| 0 <= j < |bs| && bs[j] == c;
    Aligned(bs, i);
    InArena(bs, i);
    if i < j { Ordered(bs, i, j); } else { Ordered(bs, j, i); }
  }

  function CountUsed(bs: seq<Block>): nat {
    if bs == [] then 0
    else CountUsed(bs[..|bs| - 1]) + if bs[|bs| - 1].used then 1 else 0
  }

  lemma {:induction false} CountUsedIsLive(bs: seq<Block>)
    requires Chain(bs)
    ensures CountUsed(bs) == |Live(bs)|
  {
    if bs != [] {
      var front, last := bs[..|bs| - 1], bs[|bs| - 1];
      CountUsedIsLive(front);
      if last.used {
        assert last.Payload() !in Live(front) by {
          if last.Payload() in Live(front) {
            var j := LiveIndex(front, last.Payload());
            AddrInjective(bs, j, |bs| - 1);
          }
        }
        assert Live(bs) == Live(front) + {last.Payload()};
      } else {
        assert Live(bs) == Live(front);
      }
    } else {
      assert Live(bs) == {};
    }
  }
}
