// The process table and the singly linked lists threaded through its `next` fields.
module ProcessTable {
  const MAX_PROCS: nat := 256
  const NULL: int := -1              // a process_t* is the index of its slot, or NULL

  datatype ProcState = UNUSED | NEW | READY | RUNNING | WAITING | SLEEPING | STOPPED | ZOMBIE | DEAD

  datatype Slot = Slot(pid: nat, state: ProcState, stack: nat, rsp: nat, rip: nat)

  datatype Proc = Proc(slot: Slot, next: int)

  function Slots(ps: seq<Proc>): (s: seq<Slot>)
    ensures |s| == |ps|
    ensures forall i :: 0 <= i < |ps| ==> s[i] == ps[i].slot
  {
    seq(|ps|, i requires 0 <= i < |ps| => ps[i].slot)
  }

  function Nth(q: seq<int>, k: nat): int {
    if k < |q| then q[k] else NULL
  }

  ghost predicate Distinct(q: seq<int>) {
    forall i, j :: 0 <= i < j < |q| ==> q[i] != q[j]
  }

  // Following `next` from head visits exactly q and ends in NULL: the list is finite,
  // acyclic and without duplicates.
  ghost predicate Linked(ps: seq<Proc>, head: int, q: seq<int>) {
    && head == Nth(q, 0)
    && Distinct(q)
    && forall k :: 0 <= k < |q| ==> 0 <= q[k] < |ps| && ps[q[k]].next == Nth(q, k + 1)
  }

  lemma PushLinked(ps: seq<Proc>, r: seq<Proc>, q: seq<int>, i: int)
    requires Linked(ps, Nth(q, 0), q) && 0 <= i < |ps| == |r| && i !in q
    requires r[i].next == Nth(q, 0) && forall x :: x in q ==> r[x].next == ps[x].next
    ensures Linked(r, i, [i] + q)
  {
  }

  // Pushing an element of the list in front of it closes a cycle.
  lemma {:induction false} CycleWalk(ps: seq<Proc>, r: seq<Proc>, q: seq<int>, k: nat, w: seq<int>, j: nat)
    requires Linked(ps, Nth(q, 0), q) && j <= k < |q| && |r| == |ps| && r[q[k]].next == q[0]
    requires forall x :: 0 <= x < |ps| && x != q[k] ==> r[x].next == ps[x].next
    requires Linked(r, q[k], w)
    ensures j + 1 < |w| && w[j + 1] == q[j]
  {
    if j > 0 {
      CycleWalk(ps, r, q, k, w, j - 1);
      assert q[j - 1] != q[k];
    }
    assert r[w[j]].next == q[j];
  }

  lemma PushedTwice(ps: seq<Proc>, r: seq<Proc>, q: seq<int>, x: int)
    requires Linked(ps, Nth(q, 0), q) && x in q && |r| == |ps| && r[x].next == Nth(q, 0)
    requires forall y :: 0 <= y < |ps| && y != x ==> r[y].next == ps[y].next
    ensures forall w :: !Linked(r, x, w)
  {
    forall w ensures !Linked(r, x, w) {
      var k :| 0 <= k < |q| && q[k] == x;
      if Linked(r, x, w) {
        CycleWalk(ps, r, q, k, w, k);
        assert false;
      }
    }
  }

  lemma AppendLinked(ps: seq<Proc>, r: seq<Proc>, q: seq<int>, i: int)
    requires Linked(ps, Nth(q, 0), q) && q != [] && 0 <= i < |ps| == |r| && i !in q
    requires r[q[|q| - 1]].next == i && r[i].next == NULL
    requires forall x :: x in q && x != q[|q| - 1] ==> r[x].next == ps[x].next
    ensures Linked(r, Nth(q, 0), q + [i])
  {
  }

  lemma PopLinked(ps: seq<Proc>, r: seq<Proc>, q: seq<int>)
    requires Linked(ps, Nth(q, 0), q) && q != [] && |r| == |ps|
    requires forall x :: x in q[1..] ==> r[x].next == ps[x].next
    ensures Linked(r, Nth(q, 1), q[1..])
  {
  }

  // Unlinking the element at k: its predecessor (or the head) takes over its `next`.
  lemma UnlinkLinked(ps: seq<Proc>, r: seq<Proc>, q: seq<int>, k: nat)
    requires Linked(ps, Nth(q, 0), q) && k < |q| && |r| == |ps|
    requires k > 0 ==> r[q[k - 1]].next == Nth(q, k + 1)
    requires forall x :: x in q && x != q[k] && (k > 0 ==> x != q[k - 1]) ==> r[x].next == ps[x].next
    ensures Linked(r, if k == 0 then Nth(q, 1) else q[0], q[..k] + q[k + 1..])
  {
    var s := q[..k] + q[k + 1..];
    DistinctCut(q, k);
    forall j | 0 <= j < |s| ensures 0 <= s[j] < |r| && r[s[j]].next == Nth(s, j + 1) {
      var i := if j < k then j else j + 1;
      assert s[j] == q[i] && q[i] in q && q[i] != q[k];
      if i + 1 != k {
        assert Nth(s, j + 1) == Nth(q, i + 1);
        if k > 0 { assert q[i] != q[k - 1]; }
      }
    }
  }

  // The two stores of a deletion through the link that holds the node.
  lemma DeleteLinked(ps: seq<Proc>, r: seq<Proc>, q: seq<int>, k: nat)
    requires Linked(ps, Nth(q, 0), q) && k < |q|
    requires var x := q[k];
             var cut := if k == 0 then ps else ps[q[k - 1] := ps[q[k - 1]].(next := ps[x].next)];
             r == cut[x := cut[x].(next := NULL)]
    ensures Linked(r, if k == 0 then Nth(q, 1) else q[0], q[..k] + q[k + 1..])
    ensures OnlyRelinked(ps, r, q, q[k])
  {
    UnlinkLinked(ps, r, q, k);
    SameSlots(ps, r);
    if k > 0 { assert q[k - 1] in q; }
  }

  lemma DistinctCut(q: seq<int>, k: nat)
    requires Distinct(q) && k < |q|
    ensures Distinct(q[..k] + q[k + 1..])
  {
  }

  lemma SameSlots(ps: seq<Proc>, r: seq<Proc>)
    requires |ps| == |r| && forall i :: 0 <= i < |ps| ==> ps[i].slot == r[i].slot
    ensures Slots(ps) == Slots(r)
  {
  }

  // A slot put in front of the list, and a slot changed without touching the list.
  lemma PushSlot(ps: seq<Proc>, q: seq<int>, x: int, slot: Slot)
    requires Linked(ps, Nth(q, 0), q) && 0 <= x < |ps| && x !in q
    ensures var r := ps[x := Proc(slot, Nth(q, 0))];
            Linked(r, x, [x] + q) && Slots(r) == Slots(ps)[x := slot]
  {
  }

  lemma ChangeSlot(ps: seq<Proc>, q: seq<int>, x: int, p: Proc)
    requires Linked(ps, Nth(q, 0), q) && 0 <= x < |ps| && (x !in q || p.next == ps[x].next)
    ensures Linked(ps[x := p], Nth(q, 0), q) && Slots(ps[x := p]) == Slots(ps)[x := p.slot]
  {
  }

  // Nothing but the links of the slots in q (and of slot x) differs.
  ghost predicate OnlyRelinked(ps: seq<Proc>, r: seq<Proc>, q: seq<int>, x: int) {
    && |r| == |ps| && Slots(r) == Slots(ps)
    && forall i :: 0 <= i < |ps| && i !in q && i != x ==> r[i] == ps[i]
  }

  lemma Untouched(ps: seq<Proc>, q: seq<int>, x: int)
    requires x !in q
    ensures Without(q, x) == q && OnlyRelinked(ps, ps, q, x)
  {
    WithoutAbsent(q, x);
  }

  // Hanging the head behind the tail.
  lemma RotateLinked(ps: seq<Proc>, r: seq<Proc>, q: seq<int>)
    requires Linked(ps, Nth(q, 0), q) && |q| >= 2
    requires var (first, last) := (q[0], q[|q| - 1]);
             r == ps[last := ps[last].(next := first)][first := ps[first].(next := NULL)]
    ensures Linked(r, q[1], Rotate(q)) && OnlyRelinked(ps, r, q, NULL)
  {
    var tail := q[1..];
    PopLinked(ps, ps, q);
    assert q[0] !in tail;
    AppendLinked(ps, r, tail, q[0]);
    SameSlots(ps, r);
  }

  // The walk to the end of a list that is not empty.
  method FindLast(procs: array<Proc>, head: int, ghost q: seq<int>) returns (last: int)
    requires q != [] && Linked(procs[..], head, q)
    ensures last == q[|q| - 1]
  {
    last := head;
    ghost var k := 0;
    while procs[last].next != NULL
      invariant k < |q| && last == q[k]
      decreases |q| - k
    {
      last := procs[last].next;
      k := k + 1;
    }
  }

  // ---------------------------------------------------------------- rotation and deletion

  function Rotate<T>(q: seq<T>): (r: seq<T>)
    ensures |r| == |q|
  {
    if q == [] then q else q[1..] + [q[0]]
  }

  function Rotations<T>(q: seq<T>, n: nat): (r: seq<T>)
    ensures |r| == |q|
  {
    if n == 0 then q else Rotate(Rotations(q, n - 1))
  }

  lemma {:induction false} RotationsShift<T>(q: seq<T>, n: nat)
    requires n <= |q|
    ensures Rotations(q, n) == q[n..] + q[..n]
  {
    if n > 0 {
      RotationsShift(q, n - 1);
      var r := q[n - 1..] + q[..n - 1];
      assert r[0] == q[n - 1] && r[1..] == q[n..] + q[..n - 1];
      assert q[..n - 1] + [q[n - 1]] == q[..n];
      hide Rotations;
    }
  }

  // As many rotations as there are elements change nothing.
  lemma FullTurn<T>(q: seq<T>)
    ensures Rotations(q, |q|) == q
  {
    RotationsShift(q, |q|);
  }

  lemma {:induction false} RotationsPermute<T>(q: seq<T>, n: nat)
    ensures multiset(Rotations(q, n)) == multiset(q)
  {
    if n > 0 {
      RotationsPermute(q, n - 1);
      var r := Rotations(q, n - 1);
      if r != [] { assert r == [r[0]] + r[1..]; }
    }
  }

  // The list without the first occurrence of x.
  function Without<T(==)>(q: seq<T>, x: T): seq<T> {
    if q == [] then [] else if q[0] == x then q[1..] else [q[0]] + Without(q[1..], x)
  }

  lemma {:induction false} WithoutAt<T>(q: seq<T>, x: T, k: nat)
    requires k < |q| && q[k] == x && x !in q[..k]
    ensures Without(q, x) == q[..k] + q[k + 1..]
  {
    if k > 0 {
      assert q[0] in q[..k];
      assert forall y :: y in q[1..][..k - 1] ==> y in q[..k];
      WithoutAt(q[1..], x, k - 1);
      assert q[..k] == [q[0]] + q[1..][..k - 1];
      assert q[1..][k..] == q[k + 1..];
    }
  }

  lemma {:induction false} WithoutAbsent<T>(q: seq<T>, x: T)
    requires x !in q
    ensures Without(q, x) == q
  {
    if q != [] { WithoutAbsent(q[1..], x); }
  }
}
