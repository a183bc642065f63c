// What freeing undoes: kfree after kmalloc, well-nested programs, and the exact reach of
// coalescing with the following block only.
module HeapNesting {
  import opened Bytes
  import opened HeapBlocks

  // The list with blocks i and i + 1 merged into one free block.
  function Merged(bs: seq<Block>, i: nat): seq<Block>
    requires i + 1 < |bs|
  {
    bs[..i] + [Block(bs[i].addr, bs[i].size + HEADER + bs[i + 1].size, false)] + bs[i + 2..]
  }

  lemma FreeUndoesSplit(bs: seq<Block>, i: nat, n: nat)
    requires i < |bs| && Fits(bs[i], n) && Splits(bs[i], n)
    ensures FreeAt(AllocAt(bs, i, n), i) == bs
  {
  }

  lemma FreeUndoesWhole(bs: seq<Block>, i: nat, n: nat)
    requires i < |bs| && Fits(bs[i], n) && !Splits(bs[i], n)
    ensures var r := FreeAt(AllocAt(bs, i, n), i);
            if i + 1 < |bs| && !bs[i + 1].used then r == Merged(bs, i) && r != bs else r == bs
  {
  }

  // Freeing what was just allocated restores the list exactly when the block was split or no
  // free block follows it; otherwise those two free blocks end up merged.
  lemma AllocThenFree(bs: seq<Block>, size: nat)
    requires Heap(bs)
    ensures var (r, p) := Kmalloc(bs, size);
            var h, n := Boot(bs), RoundUp(size);
            var i := FirstFit(h, n, 0);
            p != 0 ==>
              if !Splits(h[i], n) && i + 1 < |h| && !h[i + 1].used
              then Kfree(r, p) == Merged(h, i) && Kfree(r, p) != h
              else Kfree(r, p) == h
  {
    var (r, p) := Kmalloc(bs, size);
    var h, n := Boot(bs), RoundUp(size);
    var i := FirstFit(h, n, 0);
    if p != 0 {
      AllocAtTiles(h, i, n);
      assert r[i].Payload() == p;
      BlockAtIndex(r, i);
      if Splits(h[i], n) { FreeUndoesSplit(h, i, n); } else { FreeUndoesWhole(h, i, n); }
      hide AllocAt, FreeAt, RoundUp, Chain;
    }
  }

  // ---------------------------------------------------------------- coalescing

  ghost predicate Coalesced(bs: seq<Block>) {
    forall k :: 0 <= k < |bs| - 1 ==> bs[k].used || bs[k + 1].used
  }

  lemma KmallocKeepsCoalesced(bs: seq<Block>, size: nat)
    requires Coalesced(bs)
    ensures Coalesced(Kmalloc(bs, size).0)
  {
    hide RoundUp;
    var h, n := Boot(bs), RoundUp(size);
    var i := FirstFit(h, n, 0);
    if size != 0 && i < |h| && Splits(h[i], n) {
      var r := AllocAt(h, i, n);
      assert forall k :: i + 1 < k < |r| ==> r[k] == h[k - 1];
    }
  }

  // Merging forward only keeps the list coalesced exactly when the block before the freed
  // one is in use (or there is none).
  lemma KfreeCoalescedExactly(bs: seq<Block>, i: nat)
    requires Tiled(bs) && Coalesced(bs) && i < |bs| && bs[i].used
    ensures Coalesced(Kfree(bs, bs[i].Payload())) <==> i == 0 || bs[i - 1].used
  {
    BlockAtIndex(bs, i);
    var r := FreeAt(bs, i);
    if i > 0 && !bs[i - 1].used {
      assert !r[i - 1].used && !r[i - 1 + 1].used;
    } else if i + 1 < |bs| && !bs[i + 1].used {
      assert forall k :: i < k < |r| ==> r[k] == bs[k + 1];
      assert i + 2 < |bs| ==> bs[i + 1 + 1].used;
    }
  }

  // A concrete run that leaves two adjacent free blocks: allocate A and B, free A, free B.
  lemma ForwardOnlyLeavesNeighbours()
    ensures var (h1, a) := Kmalloc([], 8);
            var (h2, b) := Kmalloc(h1, 8);
            !Coalesced(Kfree(Kfree(h2, a), b))
  {
    var (h1, a) := Kmalloc([], 8);
    assert FirstFit([FRESH], 8, 0) == 0;
    var A, B := Block(HEAP_START, 8, true), Block(HEAP_START + 32, 8, true);
    var rest := Block(HEAP_START + 64, ARENA - 64, false);
    assert h1 == [A, Block(HEAP_START + 32, ARENA - 32, false)];
    assert FirstFit(h1, 8, 1) == 1;
    var (h2, b) := Kmalloc(h1, 8);
    assert h2 == [A, B, rest];
    assert BlockAt(h2, a, 0) == 0;
    var h3 := Kfree(h2, a);
    assert h3 == [A.(used := false), B, rest];
    assert BlockAt(h3, b, 1) == 1;
    var h4 := Kfree(h3, b);
    assert !h4[0].used && !h4[0 + 1].used;
  }

  // ---------------------------------------------------------------- well-nested programs

  // Programs that free in the reverse order of allocation. A bracket allocates, does what is
  // inside it, frees what it allocated and goes on with the rest.
  datatype Nest = Done | Bracket(size: nat, inner: Nest, rest: Nest)

  function Exec(t: Nest, bs: seq<Block>): seq<Block> {
    match t
    case Done => bs
    case Bracket(size, inner, rest) =>
      var (h, p) := Kmalloc(bs, size);
      Exec(rest, Kfree(Exec(inner, h), p))
  }

  lemma {:induction false} NestedUndoes(t: Nest, bs: seq<Block>)
    requires Tiled(bs) && Coalesced(bs)
    ensures Exec(t, bs) == bs
  {
    hide RoundUp;
    match t
    case Done =>
    case Bracket(size, inner, rest) =>
      var (h, p) := Kmalloc(bs, size);
      KmallocKeepsCoalesced(bs, size);
      Tiling(bs, size, 0);
      NestedUndoes(inner, h);
      AllocThenFree(bs, size);
      NestedUndoes(rest, bs);
  }

  // A request that kmalloc rounds to n; the rounding wraps for n == 0.
  function Request(n: nat): (size: nat)
    requires n % 8 == 0 && n <= ARENA
    ensures 0 < size < WORD && RoundUp(size) == n
  {
    if n == 0 then WORD - 1 else n
  }

  // Requesting the size of a free block that no earlier free block can serve takes it whole.
  lemma TakeWhole(bs: seq<Block>, i: nat)
    requires Tiled(bs) && i < |bs| && FirstFit(bs, bs[i].size, 0) == i
    ensures bs[i].size % 8 == 0 && bs[i].size <= ARENA
    ensures Kmalloc(bs, Request(bs[i].size)) == (bs[i := bs[i].(used := true)], bs[i].Payload())
    ensures Tiled(bs[i := bs[i].(used := true)])
  {
    InArena(bs, i);
    hide RoundUp;
    AllocAtTiles(bs, i, bs[i].size);
  }

  lemma KfreeShrinks(bs: seq<Block>, p: nat)
    ensures |Kfree(bs, p)| <= |bs|
  {
  }

  // When blocks k and k + 1 are both free, take every earlier block that would serve a request
  // of the size of block k, then block k itself, and free them all in the reverse order.
  lemma {:induction false} Unsettle(bs: seq<Block>, k: nat) returns (t: Nest)
    requires Tiled(bs) && k + 1 < |bs| && !bs[k].used && !bs[k + 1].used
    ensures |Exec(t, bs)| < |bs|
    decreases k - FirstFit(bs, bs[k].size, 0)
  {
    var i := FirstFit(bs, bs[k].size, 0);
    TakeWhole(bs, i);
    var size := Request(bs[i].size);
    var h, p := bs[i := bs[i].(used := true)], bs[i].Payload();
    if i == k {
      t := Bracket(size, Done, Done);
      AllocThenFree(bs, size);
      assert Exec(t, bs) == Kfree(h, p);
    } else {
      var inner := Unsettle(h, k);
      t := Bracket(size, inner, Done);
      KfreeShrinks(Exec(inner, h), p);
      assert Exec(t, bs) == Kfree(Exec(inner, h), p);
    }
  }

  // LIFO programs leave no trace exactly on the lists without two adjacent free blocks.
  lemma RestoredExactly(bs: seq<Block>)
    requires Tiled(bs)
    ensures (forall t :: Exec(t, bs) == bs) <==> Coalesced(bs)
  {
    if Coalesced(bs) {
      forall t ensures Exec(t, bs) == bs { NestedUndoes(t, bs); }
    } else {
      var k :| 0 <= k < |bs| - 1 && !bs[k].used && !bs[k + 1].used;
      var t := Unsettle(bs, k);
      assert Exec(t, bs) != bs;
    }
  }

  // From the heap as booted, every well-nested program ends in the single 8 MiB free block.
  lemma {:induction false} NestedFromBoot(t: Nest)
    ensures Boot(Exec(t, [])) == [FRESH]
    ensures Exec(t, []) == [] || Exec(t, []) == [FRESH]
  {
    hide RoundUp;
    match t
    case Done =>
    case Bracket(size, inner, rest) =>
      if size == 0 {
        NestedFromBoot(inner);
        var h := Exec(inner, []);
        assert Kfree(h, 0) == h;
        if h == [] { NestedFromBoot(rest); } else { NestedUndoes(rest, h); }
      } else {
        NestedUndoes(t, [FRESH]);
        assert Kmalloc([], size) == Kmalloc([FRESH], size);
      }
  }
}
