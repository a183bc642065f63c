// The heap when every request is one process stack: no free byte is ever lost to
// fragmentation, so an allocation fails only when the arena is full of stacks.
module UniformStacks {
  import opened HeapBlocks

  const STACK: nat := 8192
  const SPAN: nat := STACK + HEADER
  const CAPACITY: nat := 1021   // (24 + 8 MiB) == 1021 * 8216 + 96

  // A stretch that is one or more stacks with their headers, and one that is any number of
  // them followed by the 96 bytes that are left over at the end of the arena.
  predicate Whole(span: nat) { span == SPAN || (span > SPAN && Whole(span - SPAN)) }

  predicate Tail(span: nat) { span == 96 || (span > SPAN && Tail(span - SPAN)) }

  lemma {:induction false} WholeMeans(span: nat)
    ensures Whole(span) <==> span > 0 && span % SPAN == 0
    ensures Tail(span) <==> span % SPAN == 96
  {
    if span > SPAN { WholeMeans(span - SPAN); }
  }

  lemma {:induction false} JoinSpans(a: nat, b: nat)
    requires Whole(a)
    ensures Whole(b) ==> Whole(a + b)
    ensures Tail(b) ==> Tail(a + b)
  {
    if a > SPAN { JoinSpans(a - SPAN, b); }
  }

  // A block before the last spans whole stacks, and is exactly one stack when in use.
  predicate StackBlock(b: Block) {
    Whole(b.size + HEADER) && (b.used ==> b.size == STACK)
  }

  // Every block but the last spans a positive multiple of 8216 bytes, the last one is free
  // and spans 8216 * m + 96, and a block in use is exactly one stack.
  ghost predicate StackBlocks(bs: seq<Block>) {
    && bs != []
    && (forall k :: 0 <= k < |bs| - 1 ==> StackBlock(bs[k]))
    && !bs[|bs| - 1].used && Tail(bs[|bs| - 1].size + HEADER)
  }

  ghost predicate Uniform(bs: seq<Block>) { Tiled(bs) && StackBlocks(bs) }

  lemma FreshUniform()
    ensures Uniform([FRESH])
  {
    WholeMeans(HEADER + ARENA);
  }

  lemma TakeBlock(bs: seq<Block>, i: nat)
    requires StackBlocks(bs) && i < |bs| && Fits(bs[i], STACK)
    ensures StackBlocks(AllocAt(bs, i, STACK))
  {
    var r := AllocAt(bs, i, STACK);
    if Splits(bs[i], STACK) {
      assert r[i + 1].size + HEADER == bs[i].size + HEADER - SPAN;
      forall k | 0 <= k < |r| - 1 ensures StackBlock(r[k]) {
        if k < i {
          assert r[k] == bs[k];
        } else if k > i + 1 {
          assert r[k] == bs[k - 1];
        } else if i < |bs| - 1 {
          assert StackBlock(bs[i]);
        }
      }
    } else {
      var span := bs[i].size + HEADER;
      assert Tail(span) ==> Tail(span - SPAN);
      assert i < |bs| - 1;
      assert StackBlock(bs[i]);
      assert Whole(span) && span < SPAN + MIN_BLOCK + HEADER && span != SPAN ==> Whole(span - SPAN);
    }
  }

  lemma GiveBlock(bs: seq<Block>, i: nat)
    requires StackBlocks(bs) && i < |bs| - 1
    ensures StackBlocks(FreeAt(bs, i))
  {
    var r := FreeAt(bs, i);
    assert StackBlock(bs[i]);
    if !bs[i + 1].used {
      JoinSpans(bs[i].size + HEADER, bs[i + 1].size + HEADER);
      forall k | 0 <= k < |r| - 1 ensures StackBlock(r[k]) {
        if k < i {
          assert r[k] == bs[k];
        } else if k > i {
          assert r[k] == bs[k + 1];
        } else {
          assert StackBlock(bs[i + 1]);
        }
      }
    }
  }

  lemma AllocUniform(bs: seq<Block>)
    requires Uniform(bs)
    ensures Uniform(Kmalloc(bs, STACK).0)
  {
    assert RoundUp(STACK) == STACK;
    hide RoundUp, Whole, Tail, AllocAt;
    var i := FirstFit(bs, STACK, 0);
    if i < |bs| {
      AllocAtTiles(bs, i, STACK);
      TakeBlock(bs, i);
    }
  }

  lemma FreeUniform(bs: seq<Block>, p: nat)
    requires Uniform(bs) && (p == 0 || p in Live(bs))
    ensures Uniform(Kfree(bs, p))
  {
    if p != 0 {
      var i := LiveIndex(bs, p);
      BlockAtIndex(bs, i);
      FreeAtTiles(bs, i);
      GiveBlock(bs, i);
    }
  }

  // Each block in use accounts for one span below the end of the prefix; the prefix is made of
  // stacks only exactly when nothing else is left.
  lemma {:induction false} UsedBelow(bs: seq<Block>, j: nat)
    requires Uniform(bs) && j < |bs|
    ensures HEAP_START + SPAN * CountUsed(bs[..j]) <= bs[j].addr
    ensures (forall k :: 0 <= k < j ==> bs[k].used) <==> bs[j].addr == HEAP_START + SPAN * CountUsed(bs[..j])
    ensures (forall k :: 0 <= k < j ==> bs[k].used) ==> CountUsed(bs[..j]) == j
  {
    if j > 0 {
      UsedBelow(bs, j - 1);
      assert bs[..j][..j - 1] == bs[..j - 1];
      assert bs[j - 1 + 1].addr == bs[j - 1].End();
    }
  }

  // The allocation of a stack fails exactly when 1021 stacks are live.
  lemma FullExactly(bs: seq<Block>)
    requires Uniform(bs)
    ensures Kmalloc(bs, STACK).1 == 0 <==> |Live(bs)| == CAPACITY
    ensures |Live(bs)| <= CAPACITY
  {
    assert RoundUp(STACK) == STACK;
    hide RoundUp, AllocAt;
    var last := |bs| - 1;
    UsedBelow(bs, last);
    CountUsedIsLive(bs);
    var m := bs[last].size + HEADER;
    assert bs[last].addr + m == HEAP_START + SPAN * CAPACITY + 96;
    assert m == 96 || m > SPAN;
    var i := FirstFit(bs, STACK, 0);
    if i == |bs| {
      assert !Fits(bs[last], STACK);
    }
  }

  // ---------------------------------------------------------------- runs

  datatype StackOp = Take | Give(ptr: nat)

  function Apply(bs: seq<Block>, op: StackOp): seq<Block> {
    match op
    case Take => Kmalloc(bs, STACK).0
    case Give(p) => Kfree(bs, p)
  }

  function ApplyAll(bs: seq<Block>, ops: seq<StackOp>): seq<Block> {
    if ops == [] then bs else Apply(ApplyAll(bs, ops[..|ops| - 1]), ops[|ops| - 1])
  }

  // Only pointers that are live are freed.
  ghost predicate Disciplined(bs: seq<Block>, ops: seq<StackOp>) {
    forall k :: 0 <= k < |ops| ==>
      ops[k].Give? ==> ops[k].ptr == 0 || ops[k].ptr in Live(ApplyAll(bs, ops[..k]))
  }

  lemma {:induction false} NoFragmentation(ops: seq<StackOp>)
    requires Disciplined([], ops)
    ensures var bs := ApplyAll([], ops);
            && Uniform(Boot(bs))
            && (Kmalloc(bs, STACK).1 == 0 <==> |Live(bs)| == CAPACITY)
  {
    if ops == [] {
      FreshUniform();
      assert Live([]) == {} && Live([FRESH]) == {};
      FullExactly([FRESH]);
    } else {
      var front, op := ops[..|ops| - 1], ops[|ops| - 1];
      assert forall k :: 0 <= k < |front| ==> front[k] == ops[k] && front[..k] == ops[..k];
      NoFragmentation(front);
      var h := ApplyAll([], front);
      assert ops[..|ops| - 1] == front;
      match op {
        case Take =>
          AllocUniform(Boot(h));
          FullExactly(Apply(h, op));
        case Give(p) =>
          assert op.ptr == p;
          assert Live([]) == {};
          if h == [] {
            assert p == 0;
          } else {
            FreeUniform(h, p);
            FullExactly(Apply(h, op));
          }
      }
    }
  }
}
