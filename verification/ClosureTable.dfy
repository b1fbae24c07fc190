/** The table of waiting closures of an RPC client, whose free slots form a list inside the table. */
module ClosureTable {
  import opened Basics

  // A slot: the descriptor of the awaited response and the data of the caller; a free slot has no response type,
  // and its data is the request id of the next free slot.
  datatype Closure = Waiting(output: nat, data: nat) | Free(next: nat)

  function At(free: seq<nat>, i: nat): nat
  {
    if i < |free| then free[i] else 0
  }

  // A request id in the free list: its slot is free and names the next one.
  ghost predicate FreeOk(closures: seq<Closure>, free: seq<nat>, i: nat)
  {
    && i < |free| && 1 <= free[i] <= |closures|
    && closures[free[i] - 1] == Free(At(free, i + 1))
  }

  // Free slots and waiting ones partition the table: the list has every free slot once.
  ghost predicate TableOk(closures: seq<Closure>, firstFree: nat, free: seq<nat>)
  {
    && |closures| > 0 && firstFree == At(free, 0)
    && (forall i, j :: 0 <= i < j < |free| ==> free[i] != free[j])
    && (forall i {:trigger FreeOk(closures, free, i)} :: 0 <= i < |free| ==> FreeOk(closures, free, i))
    && forall s :: 0 <= s < |closures| ==> (closures[s].Free? <==> s + 1 in free)
  }

  // The callers that are owed a callback.
  function Owed(closures: seq<Closure>): multiset<nat>
  {
    if closures == [] then multiset{}
    else
      var last := closures[|closures| - 1];
      Owed(closures[..|closures| - 1]) + if last.Waiting? then multiset{last.data} else multiset{}
  }

  function OwedOne(c: Closure): multiset<nat>
  {
    if c.Waiting? then multiset{c.data} else multiset{}
  }

  lemma {:induction false} OwedUpdate(closures: seq<Closure>, s: nat, c: Closure)
    requires s < |closures|
    ensures Owed(closures[s := c]) + OwedOne(closures[s]) == Owed(closures) + OwedOne(c)
    decreases |closures|
  {
    var n := |closures| - 1;
    if s == n {
      assert closures[s := c][..n] == closures[..n];
      Swap(Owed(closures[..n]), OwedOne(closures[s]), OwedOne(c));
    } else {
      var front, now := closures[..n], closures[..n][s := c];
      assert closures[s := c][..n] == now;
      OwedUpdate(front, s, c);
      AddLast(Owed(now), OwedOne(closures[s]), Owed(front), OwedOne(c), OwedOne(closures[n]));
    }
  }

  lemma Swap(a: multiset<nat>, x: multiset<nat>, y: multiset<nat>)
    ensures (a + y) + x == (a + x) + y
  {
  }

  lemma {:induction false} OwedFree(closures: seq<Closure>, more: seq<Closure>)
    requires forall i :: 0 <= i < |more| ==> more[i].Free?
    ensures Owed(closures + more) == Owed(closures)
    decreases |more|
  {
    if more == [] {
      assert closures + more == closures;
    } else {
      assert (closures + more)[..|closures + more| - 1] == closures + more[..|more| - 1];
      OwedFree(closures, more[..|more| - 1]);
    }
  }

  // The first free slot is taken.
  lemma TakeFirst(closures: seq<Closure>, firstFree: nat, free: seq<nat>, output: nat, data: nat)
    requires TableOk(closures, firstFree, free) && firstFree != 0
    ensures 1 <= firstFree <= |closures| && closures[firstFree - 1].Free?
    ensures var now := closures[firstFree - 1 := Waiting(output, data)];
            Whole(TableOk(now, closures[firstFree - 1].next, free[1..]))
            && Owed(now) == Owed(closures) + multiset{data}
  {
    assert FreeOk(closures, free, 0);
    var now, rest := closures[firstFree - 1 := Waiting(output, data)], free[1..];
    forall i | 0 <= i < |rest| ensures FreeOk(now, rest, i) { assert FreeOk(closures, free, i + 1); }
    forall s | 0 <= s < |now| ensures now[s].Free? <==> s + 1 in rest { InRest(free, s + 1); }
    OwedUpdate(closures, firstFree - 1, Waiting(output, data));
  }

  lemma InRest(free: seq<nat>, id: nat)
    requires free != [] && forall i, j :: 0 <= i < j < |free| ==> free[i] != free[j]
    ensures id in free[1..] <==> id in free && id != free[0]
  {
    if id in free {
      var i :| 0 <= i < |free| && free[i] == id;
      if i > 0 { assert free[1..][i - 1] == id; }
    }
  }

  // A waiting slot is freed again, at the front of the list.
  lemma GiveBack(closures: seq<Closure>, firstFree: nat, free: seq<nat>, id: nat)
    requires TableOk(closures, firstFree, free) && 1 <= id <= |closures| && closures[id - 1].Waiting?
    ensures var now := closures[id - 1 := Free(firstFree)];
            Whole(TableOk(now, id, [id] + free)) && Owed(now) + multiset{closures[id - 1].data} == Owed(closures)
  {
    var now, all := closures[id - 1 := Free(firstFree)], [id] + free;
    assert id !in free;
    forall i | 0 <= i < |all| ensures FreeOk(now, all, i) {
      if i > 0 {
        assert FreeOk(closures, free, i - 1) && all[i] == free[i - 1];
        assert free[i - 1] in free;
      }
    }
    forall s | 0 <= s < |now| ensures now[s].Free? <==> s + 1 in all {}
    OwedUpdate(closures, id - 1, Free(firstFree));
  }

  // The ids of the slots from the n-th on, in order.
  function Ids(n: nat, m: nat): (ids: seq<nat>)
    requires n <= m
    ensures |ids| == m - n && forall i :: 0 <= i < m - n ==> ids[i] == n + i + 1
  {
    seq(m - n, i requires 0 <= i < m - n => n + i + 1)
  }

  // When the free list is at its end, every slot waits.
  lemma NoneFree(closures: seq<Closure>, firstFree: nat, free: seq<nat>)
    requires TableOk(closures, firstFree, free) && firstFree == 0
    ensures forall s :: 0 <= s < |closures| ==> closures[s].Waiting?
  {
    assert |free| > 0 ==> FreeOk(closures, free, 0);
  }

  // New slots are chained in order, and the last one leads to the old list.
  lemma Grown(closures: seq<Closure>, firstFree: nat, free: seq<nat>, more: seq<Closure>)
    requires TableOk(closures, firstFree, free) && more != []
    requires forall i :: 0 <= i < |more| ==>
               more[i] == Free(if i < |more| - 1 then |closures| + i + 2 else firstFree)
    ensures var n, m := |closures|, |closures| + |more|;
            TableOk(closures + more, n + 1, Ids(n, m) + free) && Owed(closures + more) == Owed(closures)
  {
    var n, m := |closures|, |closures| + |more|;
    var now, all := closures + more, Ids(n, m) + free;
    OwedFree(closures, more);
    forall p | p in free ensures p <= n {
      var i :| 0 <= i < |free| && free[i] == p;
      assert FreeOk(closures, free, i);
    }
    forall i, j | 0 <= i < j < |all| ensures all[i] != all[j] {
      if i < m - n && j >= m - n { assert all[j] in free; }
    }
    forall i | 0 <= i < |all| ensures FreeOk(now, all, i) {
      if i >= m - n { assert FreeOk(closures, free, i - (m - n)); }
    }
    forall s | 0 <= s < |now| ensures now[s].Free? <==> s + 1 in all {
      if s < n { assert s + 1 !in Ids(n, m); } else { assert all[s - n] == s + 1; }
    }
  }

  // set_state_connected: one slot, free
  lemma OneSlot()
    ensures TableOk([Free(0)], 1, [1]) && Owed([Free(0)]) == multiset{}
  {
    assert FreeOk([Free(0)], [1], 0);
    assert [Free(0)][..0] == [];
  }
}
