// The round-robin ready list of scheduler.c, relinked in place through the slots' `next`.
module RoundRobin {
  import opened ProcessTable

  // What a process_t** points at: the list head or some slot's next field.
  datatype Cell = Head | NextOf(slot: int)

  class Scheduler {
    const procs: array<Proc>
    var readyList: int
    ghost var queue: seq<int>

    ghost predicate Valid()
      reads this, procs
    {
      Linked(procs[..], readyList, queue)
    }

    constructor (procs: array<Proc>)
      ensures Valid() && queue == [] && this.procs == procs
    {
      this.procs := procs;
      readyList := NULL;
      queue := [];
    }

    // The slot becomes READY and the head of the list. The list stays well formed exactly when
    // the slot was not on it; otherwise no sequence of slots is what `next` spells out.
    method Add(proc: int)
      requires Valid() && (proc == NULL || 0 <= proc < procs.Length)
      modifies this, procs
      ensures Valid() <==> proc !in old(queue)
      ensures proc == NULL ==> queue == old(queue) && readyList == old(readyList) && procs[..] == old(procs[..])
      ensures proc != NULL ==>
                && readyList == proc
                && queue == [proc] + old(queue)
                && procs[..] == old(procs[..])[proc := Proc(old(procs[proc].slot).(state := READY), old(readyList))]
      ensures proc in old(queue) ==> forall q :: !Linked(procs[..], readyList, q)
    {
      if proc == NULL { return; }
      ghost var before := procs[..];
      procs[proc] := procs[proc].(slot := procs[proc].slot.(state := READY));
      procs[proc] := procs[proc].(next := readyList);
      if proc in queue {
        PushedTwice(before, procs[..], queue, proc);
      } else {
        PushLinked(before, procs[..], queue, proc);
      }
      readyList := proc;
      queue := [proc] + queue;
    }

    function Read(cell: Cell): int
      requires cell.NextOf? ==> 0 <= cell.slot < procs.Length
      reads this, procs
    {
      match cell
      case Head => readyList
      case NextOf(i) => procs[i].next
    }

    // The two stores of a deletion: the cell that links to proc takes over its `next`.
    method Unlink(current: Cell, proc: int, ghost k: nat)
      requires Valid() && k < |queue| && proc == queue[k]
      requires current == if k == 0 then Head else NextOf(queue[k - 1])
      modifies this, procs
      ensures Valid() && queue == old(queue)[..k] + old(queue)[k + 1..]
      ensures OnlyRelinked(old(procs[..]), procs[..], old(queue), proc)
      ensures procs[proc].next == NULL
    {
      ghost var ps := procs[..];
      hide Distinct;
      var next := procs[proc].next;
      match current {
        case Head => readyList := next;
        case NextOf(i) => procs[i] := procs[i].(next := next);
      }
      procs[proc] := procs[proc].(next := NULL);
      DeleteLinked(ps, procs[..], queue, k);
      hide Linked, OnlyRelinked;
      queue := queue[..k] + queue[k + 1..];
    }

    // Walks the links up to the cell that holds proc, or the one that ends the list.
    method Seek(proc: int) returns (current: Cell, ghost k: nat)
      requires Valid()
      ensures k <= |queue| && current == if k == 0 then Head else NextOf(queue[k - 1])
      ensures current.NextOf? ==> 0 <= current.slot < procs.Length
      ensures Read(current) == Nth(queue, k) && proc !in queue[..k]
      ensures k < |queue| ==> queue[k] == proc
      ensures NULL !in queue
    {
      hide Distinct;
      current, k := Head, 0;
      while Read(current) != NULL && Read(current) != proc
        invariant k <= |queue| && current == if k == 0 then Head else NextOf(queue[k - 1])
        invariant forall j :: 0 <= j < k ==> queue[j] != proc
        decreases |queue| - k
      {
        current := NextOf(Read(current));
        k := k + 1;
      }
    }

    // Deletion through a pointer to the link that holds the node: exactly proc goes, the rest
    // keeps its order, and a slot that is not on the list leaves everything as it was.
    method Remove(proc: int)
      requires Valid() && (proc == NULL || 0 <= proc < procs.Length)
      modifies this, procs
      ensures Valid() && queue == Without(old(queue), proc)
      ensures OnlyRelinked(old(procs[..]), procs[..], old(queue), proc)
      ensures if proc in old(queue) then procs[proc].next == NULL
              else procs[..] == old(procs[..]) && readyList == old(readyList)
    {
      var current, k := Seek(proc);
      hide Valid, Linked, Without, Distinct, OnlyRelinked;
      if proc != NULL && Read(current) == proc {
        WithoutAt(queue, proc, k);
        Unlink(current, proc, k);
      } else {
        assert queue[..k] == queue;
        Untouched(procs[..], queue, proc);
      }
    }

    // The head of the list becomes its tail.
    method Yield()
      requires Valid()
      modifies this, procs
      ensures Valid() && queue == Rotate(old(queue))
      ensures OnlyRelinked(old(procs[..]), procs[..], old(queue), NULL)
    {
      if readyList != NULL && procs[readyList].next != NULL {
        ghost var ps := procs[..];
        var first := readyList;
        readyList := procs[readyList].next;
        PopLinked(ps, ps, queue);
        var last := FindLast(procs, readyList, queue[1..]);
        procs[last] := procs[last].(next := first);
        procs[first] := procs[first].(next := NULL);
        RotateLinked(ps, procs[..], queue);
        queue := Rotate(queue);
        hide Linked, OnlyRelinked;
      }
    }
  }

  // A slot added and removed again is READY and off the list; the list, its order and every
  // link of it are as before.
  method AddThenRemove(s: Scheduler, proc: int)
    requires s.Valid() && 0 <= proc < s.procs.Length && proc !in s.queue
    modifies s, s.procs
    ensures s.Valid() && s.queue == old(s.queue) && s.readyList == old(s.readyList)
    ensures s.procs[..] == old(s.procs[..])[proc := Proc(old(s.procs[proc].slot).(state := READY), NULL)]
  {
    ghost var before, q := s.procs[..], s.queue;
    s.Add(proc);
    s.Remove(proc);
    forall i | 0 <= i < s.procs.Length && i != proc ensures s.procs[i] == before[i] {
      assert s.procs[i].slot == Slots(s.procs[..])[i];
      if i in q {
        var k :| 0 <= k < |q| && q[k] == i;
        assert s.procs[q[k]].next == before[q[k]].next;
      }
    }
  }

  // Outside a list that is linked as before, and with the slots as before, nothing has changed.
  lemma SameTable(ps: seq<Proc>, r: seq<Proc>, head: int, q: seq<int>)
    requires Linked(ps, head, q) && Linked(r, head, q) && OnlyRelinked(ps, r, q, NULL)
    ensures r == ps
  {
    forall i | 0 <= i < |ps| ensures r[i] == ps[i] {
      assert Slots(r)[i] == Slots(ps)[i];
      if i in q {
        var k :| 0 <= k < |q| && q[k] == i;
        assert r[q[k]].next == ps[q[k]].next;
      }
    }
  }

  lemma HeadFirst(ps: seq<Proc>, head: int, q: seq<int>)
    requires Linked(ps, head, q)
    ensures head == Nth(q, 0)
  {
  }

  lemma NoTurn(ps: seq<Proc>, q: seq<int>)
    ensures Rotations(q, 0) == q && OnlyRelinked(ps, ps, q, NULL)
  {
  }

  // One more yield.
  lemma Turned(a: seq<Proc>, b: seq<Proc>, c: seq<Proc>, q: seq<int>, n: nat)
    requires OnlyRelinked(a, b, q, NULL) && OnlyRelinked(b, c, Rotations(q, n), NULL)
    ensures OnlyRelinked(a, c, q, NULL) && Rotations(q, n + 1) == Rotate(Rotations(q, n))
  {
    RotationsPermute(q, n);
    forall i | i !in q ensures i !in Rotations(q, n) {
      assert multiset(q)[i] == multiset(Rotations(q, n))[i];
    }
  }

  // As many yields as there are processes on the list leave it, its head and every link as they
  // were.
  method FullRound(s: Scheduler, n: nat)
    requires s.Valid() && n == |s.queue|
    modifies s, s.procs
    ensures s.Valid() && s.queue == old(s.queue) && s.readyList == old(s.readyList)
    ensures s.procs[..] == old(s.procs[..])
  {
    hide Linked, OnlyRelinked, Rotate, Rotations, Slots, Distinct;
    ghost var ps, q := s.procs[..], s.queue;
    NoTurn(ps, q);
    HeadFirst(ps, s.readyList, q);
    var i := 0;
    while i < n
      invariant i <= n && s.Valid() && s.queue == Rotations(q, i)
      invariant OnlyRelinked(ps, s.procs[..], q, NULL)
    {
      ghost var before := s.procs[..];
      s.Yield();
      Turned(ps, before, s.procs[..], q, i);
      i := i + 1;
    }
    FullTurn(q);
    HeadFirst(s.procs[..], s.readyList, q);
    SameTable(ps, s.procs[..], s.readyList, q);
  }
}
