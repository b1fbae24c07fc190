/** The timers of protobuf-c-dispatch.c: a red-black tree by time, and the time that is told to the poller. */
module Timers {
  import opened TreeLinks
  import opened TreeColours
  import opened TreeEdits
  import opened TreeTurns
  import T = RedBlackTree

  datatype Time = Time(secs: nat, usecs: nat)

  predicate Before(a: Time, b: Time)
  {
    a.secs < b.secs || (a.secs == b.secs && a.usecs < b.usecs)
  }

  // The microseconds since the beginning of time.
  function Micros(t: Time): nat
  {
    t.secs * 1_000_000 + t.usecs
  }

  // A time of day: its microseconds make less than a second.
  predicate Proper(t: Time)
  {
    t.usecs < 1_000_000
  }

  // Proper times are in the order of their microseconds, and only they tell all times apart.
  lemma BeforeMeans(a: Time, b: Time)
    requires a.usecs < 1_000_000 && b.usecs < 1_000_000
    ensures Before(a, b) <==> Micros(a) < Micros(b)
    ensures a == b <==> Micros(a) == Micros(b)
  {
  }

  // protobuf_c_dispatch_add_timer_millis: the time so many milliseconds after the last dispatch
  function MillisAfter(last: Time, millis: nat): Time
  {
    var usecs := last.usecs + 1000 * (millis % 1000);
    var secs := last.secs + millis / 1000;
    if usecs >= 1_000_000 then Time(secs + 1, usecs - 1_000_000) else Time(secs, usecs)
  }

  lemma MillisAfterMeans(last: Time, millis: nat)
    ensures Micros(MillisAfter(last, millis)) == Micros(last) + 1000 * millis
    ensures Proper(last) ==> Proper(MillisAfter(last, millis))
  {
  }

  // TIMERS_COMPARE; timers of the same time are ordered by their addresses
  function Compare(due: Ptr -> Time, a: Ptr, b: Ptr): int
  {
    if Before(due(a), due(b)) then -1
    else if Before(due(b), due(a)) then 1
    else if a < b then -1 else if a > b then 1 else 0
  }

  class TimerQueue {
    const tree: T.Tree
    const due: Ptr -> Time
    var hasTimeout: bool
    var timeout: Time

    ghost predicate Valid()
      reads this, tree
    {
      tree.Valid() && forall a, b {:trigger tree.cmp(a, b)} :: tree.cmp(a, b) == Compare(due, a, b)
    }

    // The time that is told is that of the first timer.
    ghost predicate Told()
      reads this, tree
    {
      if tree.order == [] then !hasTimeout else hasTimeout && timeout == due(tree.order[0])
    }

    // All times are proper ones.
    ghost predicate AllProper()
      reads tree
    {
      forall p :: p in tree.nodes ==> Proper(due(p))
    }

    // The order of the timers is that of their times; the first is due no later than any other.
    lemma InTime()
      requires Valid() && AllProper()
      ensures forall i, j :: 0 <= i < j < |tree.order| ==> Micros(due(tree.order[i])) <= Micros(due(tree.order[j]))
    {
      forall i, j | 0 <= i < j < |tree.order|
        ensures Micros(due(tree.order[i])) <= Micros(due(tree.order[j]))
      {
        assert tree.cmp(tree.order[i], tree.order[j]) < 0;
        assert tree.order[i] in tree.nodes && tree.order[j] in tree.nodes;
        BeforeMeans(due(tree.order[j]), due(tree.order[i]));
      }
    }

    // What is told is the least of the times.
    ghost predicate TellsLeast()
      reads this, tree
    {
      && (hasTimeout <==> tree.order != [])
      && (hasTimeout ==>
           && (exists i :: 0 <= i < |tree.order| && timeout == due(tree.order[i]))
           && forall i :: 0 <= i < |tree.order| ==> Micros(timeout) <= Micros(due(tree.order[i])))
    }

    // The least time is that of the first timer.
    lemma ToldIffLeast()
      requires Valid() && AllProper()
      ensures Told() <==> TellsLeast()
    {
      InTime();
      if TellsLeast() && hasTimeout {
        assert tree.order[0] in tree.nodes;
        var i :| 0 <= i < |tree.order| && timeout == due(tree.order[i]);
        assert tree.order[i] in tree.nodes;
        BeforeMeans(timeout, due(tree.order[0]));
      }
    }

    constructor (due: Ptr -> Time)
      ensures Valid() && Told() && tree.order == [] && this.due == due && fresh(tree)
    {
      this.due := due;
      tree := new T.Tree((a: Ptr, b: Ptr) => Compare(due, a, b), false);
      hasTimeout, timeout := false, Time(0, 0);
    }

    lemma Comparable(nodes: set<Ptr>)
      requires Valid()
      ensures T.TotalOrderOn(tree.cmp, nodes)
    {
    }

    // Whether adding p tells a time that is not the first: p comes second, later than the first timer, and
    // that one is red and has no sibling, or is black and has a child.
    ghost predicate TellsLate(p: Ptr)
      reads this, tree
      requires tree.Valid()
    {
      && tree.order != []
      && var f := tree.order[0];
      && Before(due(f), due(p)) && (|tree.order| > 1 ==> Compare(due, p, tree.order[1]) < 0)
      && FirstIsPlaced(f)
    }

    ghost predicate FirstIsPlaced(f: Ptr)
      reads tree
    {
      && f in tree.right && f in tree.parent
      && if IsRed(tree.isRed, f) then tree.parent[f] in tree.right && tree.right[tree.parent[f]] == NULL
         else tree.right[f] != NULL
    }

    // protobuf_c_dispatch_add_timer.  The test for the first timer looks at the path to the top only: a timer
    // that came to have the first one in its own left subtree passes too, and then a later time is told.
    method AddTimer(rv: Ptr)
      requires Valid() && Told() && rv != NULL && rv !in tree.nodes
      modifies this, tree
      ensures Valid() && tree.nodes == old(tree.nodes) + {rv} && rv in tree.spans
      ensures 0 <= tree.spans[rv].pos <= |old(tree.order)|
      ensures tree.order == old(tree.order)[..tree.spans[rv].pos] + [rv] + old(tree.order)[tree.spans[rv].pos..]
      ensures hasTimeout && timeout == if old(TellsLate(rv)) then due(rv) else due(tree.order[0])
      ensures Told() <==> !old(TellsLate(rv))
      ensures old(AllProper()) && Proper(due(rv)) ==> (TellsLeast() <==> !old(TellsLate(rv)))
    {
      ghost var was := tree.order;
      ghost var late := LinkTimer(rv, was);
      var first := tree.OnLeftSpine(rv);
      if first {
        hasTimeout := true;
        timeout := due(rv);
      }
      if AllProper() { ToldIffLeast(); }
    }

    // The timer is inserted into the tree.
    method LinkTimer(rv: Ptr, ghost was: seq<Ptr>) returns (ghost late: bool)
      requires Valid() && rv != NULL && rv !in tree.nodes && was == tree.order
      modifies tree
      ensures late == old(TellsLate(rv))
      ensures Valid() && tree.nodes == old(tree.nodes) + {rv} && rv in tree.spans && Placed(rv, was, late)
    {
      ghost var g, red, placed := tree.View(), tree.isRed, was != [] && FirstIsPlaced(was[0]);
      Comparable(tree.nodes + {rv});
      NoneEqual(rv);
      FirstPlacing();
      late := TellsLate(rv);
      var conflict := tree.Insert(rv);
      LateIff(rv, was, late, placed);
      LeftSpineIff(rv, g, red, was, placed);
    }

    // The new timer p has its place in the order; it is on the left spine if it is the first, or is late, or
    // comes second at the same time as the first.
    ghost predicate Placed(p: Ptr, was: seq<Ptr>, late: bool)
      reads tree
    {
      && p in tree.spans
      && var k := tree.spans[p].pos;
      && 0 <= k <= |was| && tree.order == was[..k] + [p] + was[k..]
      && (late ==> k == 1 && due(p) != due(was[0]))
      && (k == 0 || late ==> tree.spans[p].lo == 0)
      && (tree.spans[p].lo == 0 ==> k == 0 || late || (k == 1 && due(p) == due(was[0])))
    }

    lemma FirstPlacing()
      requires Valid()
      ensures tree.order != [] ==>
        (TurnsAfter(tree.View(), tree.isRed, tree.order[0]) <==> FirstIsPlaced(tree.order[0]))
    {
      if tree.order != [] {
        TurnsAfterFirst(tree.View(), tree.spans, tree.isRed, tree.bh, tree.nodes, tree.top, tree.order);
      }
    }

    // Adding to one timer is never late; adding to two is, whenever the new timer comes between them.
    lemma OneOrTwo()
      requires Valid()
      ensures |tree.order| == 1 ==> !FirstIsPlaced(tree.order[0])
      ensures |tree.order| == 2 ==> FirstIsPlaced(tree.order[0])
    {
      FirstPlacing();
      if |tree.order| == 1 {
        TopIsOnly();
      } else if |tree.order| == 2 {
        TurnsAfterOneOfTwo(tree.View(), tree.spans, tree.isRed, tree.bh, tree.nodes, tree.top, tree.order);
      }
    }

    lemma TopIsOnly()
      requires Valid() && |tree.order| == 1
      ensures tree.order[0] == tree.top && tree.top in tree.right && tree.right[tree.top] == NULL
    {
      assert tree.order[0] in tree.nodes;
      assert RankOk(tree.spans, tree.order, tree.top);
      ChildSpans(tree.View(), tree.spans, tree.nodes, tree.top, 1, tree.top);
    }

    // The condition on the timers before the addition, in terms of the rank that p has come to.
    lemma LateIff(p: Ptr, was: seq<Ptr>, late: bool, placed: bool)
      requires Valid() && p in tree.spans && 0 <= tree.spans[p].pos <= |was|
      requires tree.order == was[..tree.spans[p].pos] + [p] + was[tree.spans[p].pos..]
      requires late <==> (was != [] && Before(due(was[0]), due(p))
                          && (|was| > 1 ==> Compare(due, p, was[1]) < 0) && placed)
      ensures late <==> tree.spans[p].pos == 1 && placed && due(p) != due(was[0])
    {
      var k := tree.spans[p].pos;
      assert tree.order[k] == p;
      if was != [] {
        assert k > 0 ==> tree.order[0] == was[0] && tree.cmp(was[0], p) < 0;
        assert k == 0 ==> tree.order[1] == was[0] && tree.cmp(p, was[0]) < 0;
      }
      if |was| > 1 {
        assert k > 1 ==> tree.order[1] == was[1] && tree.cmp(was[1], p) < 0;
        assert k == 1 ==> tree.order[2] == was[1] && tree.cmp(p, was[1]) < 0;
      }
    }

    // The test for the first timer also passes for a second one that was turned inwards.
    lemma LeftSpineIff(p: Ptr, g: Links, red: Colours, was: seq<Ptr>, placed: bool)
      requires Valid() && p in tree.nodes && p in tree.spans && 0 <= tree.spans[p].pos <= |was|
      requires tree.order == was[..tree.spans[p].pos] + [p] + was[tree.spans[p].pos..]
      requires tree.Beneath(g, red, was, tree.spans[p].pos, p)
      requires was != [] ==> (TurnsAfter(g, red, was[0]) <==> placed)
      ensures tree.spans[p].lo == 0 <==> tree.spans[p].pos == 0 || (tree.spans[p].pos == 1 && placed)
    {
      ChildSpans(tree.View(), tree.spans, tree.nodes, tree.top, |tree.order|, p);
      var c := tree.left[p];
      if c != NULL {
        assert DownOk(tree.View(), tree.nodes, p);
        ChildSpans(tree.View(), tree.spans, tree.nodes, tree.top, |tree.order|, c);
      }
    }

    lemma NoneEqual(p: Ptr)
      requires Valid() && p !in tree.nodes
      ensures forall n :: n in tree.nodes ==> tree.cmp(n, p) != 0
    {
    }

    lemma PlaceOf(p: Ptr)
      requires Valid() && p in tree.nodes
      ensures p in tree.spans && 0 <= tree.spans[p].lo <= tree.spans[p].pos < |tree.order| && p in tree.left
      ensures tree.order[tree.spans[p].pos] == p
    {
      assert SpanOk(tree.View(), tree.spans, |tree.order|, p) && RankOk(tree.spans, tree.order, p);
    }

    // protobuf_c_dispatch_remove_timer, outside of a timer's own function.  The first time is still told; and
    // if another time was, then removing the timer of that time mends it.
    method RemoveTimer(timer: Ptr)
      requires Valid() && timer in tree.nodes && hasTimeout
      modifies this, tree
      ensures Valid() && timer in old(tree.spans) && 0 <= old(tree.spans)[timer].pos < |old(tree.order)|
      ensures var k := old(tree.spans)[timer].pos;
        old(tree.order)[k] == timer && tree.order == old(tree.order)[..k] + old(tree.order)[k + 1..]
      ensures old(Told()) || old(timeout) == due(timer) ==> Told() && (old(AllProper()) ==> TellsLeast())
    {
      PlaceOf(timer);
      var mayBeFirst := timeout == due(timer);
      tree.Remove(timer);
      if mayBeFirst {
        Retell();
      }
      if AllProper() { ToldIffLeast(); }
    }

    method Retell()
      requires Valid() && hasTimeout
      modifies this`hasTimeout, this`timeout
      ensures Told()
    {
      FirstIsNode(tree.spans, tree.nodes, tree.order);
      if tree.top == NULL {
        hasTimeout := false;
      } else {
        assert RankOk(tree.spans, tree.order, tree.top);
        var minTimer := tree.First();
        timeout := due(minTimer);
      }
    }

    // The loop over the timers of protobuf_c_dispatch_dispatch, with functions that do not touch the timers.
    method FireTimers(now: Time) returns (fired: seq<Ptr>)
      requires Valid()
      modifies this, tree
      ensures Valid() && Told() && old(tree.order) == fired + tree.order
      ensures AllDue(fired, now)
      ensures forall i :: 0 <= i < |tree.order| ==> Before(now, due(tree.order[i]))
      ensures old(AllProper()) && Proper(now) ==> FiredInTime(fired, now) && TellsLeast()
    {
      TimesIn();
      fired := FireAllDue(now);
      if old(AllProper()) && Proper(now) {
        DueMeans(old(tree.order), fired, now);
        ToldIffLeast();
      }
    }

    method FireAllDue(now: Time) returns (fired: seq<Ptr>)
      requires Valid()
      modifies this, tree
      ensures Valid() && Told() && old(tree.order) == fired + tree.order
      ensures AllDue(fired, now)
      ensures forall i :: 0 <= i < |tree.order| ==> Before(now, due(tree.order[i]))
    {
      fired := [];
      TopIsThere();
      var minTimer := tree.First();
      ghost var was := tree.order;
      while minTimer != NULL && !Before(now, due(minTimer))
        invariant Valid() && Firing(was, fired, now, minTimer)
        decreases |tree.order|
      {
        minTimer, fired := FireFirst(minTimer, fired, now, was);
      }
      Tell(minTimer, now);
    }

    // A sequence of proper times, in order.
    ghost predicate Timely(was: seq<Ptr>)
    {
      && (forall i :: 0 <= i < |was| ==> Proper(due(was[i])))
      && forall i, j :: 0 <= i < j < |was| ==> Micros(due(was[i])) <= Micros(due(was[j]))
    }

    lemma TimesIn()
      requires Valid()
      ensures AllProper() <==> Timely(tree.order)
    {
      if AllProper() {
        InTime();
        forall i | 0 <= i < |tree.order| ensures Proper(due(tree.order[i])) { assert tree.order[i] in tree.nodes; }
      } else {
        OrderIsNodes();
      }
    }

    lemma DueMeans(was: seq<Ptr>, fired: seq<Ptr>, now: Time)
      requires Valid() && Timely(was) && was == fired + tree.order && Proper(now) && AllDue(fired, now)
      requires forall i :: 0 <= i < |tree.order| ==> Before(now, due(tree.order[i]))
      ensures AllProper() && FiredInTime(fired, now)
    {
      TimelyParts(was, fired, tree.order);
      TimesIn();
      forall i | 0 <= i < |fired| ensures Micros(due(fired[i])) <= Micros(now) { BeforeMeans(now, due(fired[i])); }
      forall i | 0 <= i < |tree.order| ensures Micros(now) < Micros(due(tree.order[i])) {
        BeforeMeans(now, due(tree.order[i]));
      }
    }

    lemma TimelyParts(was: seq<Ptr>, a: seq<Ptr>, b: seq<Ptr>)
      requires Timely(was) && was == a + b
      ensures Timely(a) && Timely(b)
    {
      assert forall i :: 0 <= i < |a| ==> was[i] == a[i];
      assert forall i :: 0 <= i < |b| ==> was[|a| + i] == b[i];
    }

    // Those that have been fired were due by now, one after the other, and those that are left are due later.
    ghost predicate FiredInTime(fired: seq<Ptr>, now: Time)
      reads tree
    {
      && (forall i :: 0 <= i < |fired| ==> Micros(due(fired[i])) <= Micros(now))
      && (forall i, j :: 0 <= i < j < |fired| ==> Micros(due(fired[i])) <= Micros(due(fired[j])))
      && forall i :: 0 <= i < |tree.order| ==> Micros(now) < Micros(due(tree.order[i]))
    }

    // Timers that are due have been fired, in order; the first of the others is at hand.
    ghost predicate Firing(was: seq<Ptr>, fired: seq<Ptr>, now: Time, minTimer: Ptr)
      reads tree
    {
      && was == fired + tree.order && AllDue(fired, now)
      && minTimer == (if tree.order == [] then NULL else tree.order[0]) && NULL !in tree.order
    }

    ghost predicate AllDue(fired: seq<Ptr>, now: Time)
    {
      forall i :: 0 <= i < |fired| ==> !Before(now, due(fired[i]))
    }

    method FireFirst(minTimer0: Ptr, fired0: seq<Ptr>, now: Time, ghost was: seq<Ptr>)
      returns (minTimer: Ptr, fired: seq<Ptr>)
      requires Valid() && Firing(was, fired0, now, minTimer0) && minTimer0 != NULL && !Before(now, due(minTimer0))
      modifies tree
      ensures Valid() && Firing(was, fired, now, minTimer) && |tree.order| < |old(tree.order)|
    {
      OneMore(was, fired0, tree.order);
      RemoveFirst(minTimer0);
      fired := fired0 + [minTimer0];
      TopIsThere();
      minTimer := tree.First();
    }

    lemma OneMore(was: seq<Ptr>, fired: seq<Ptr>, order: seq<Ptr>)
      requires was == fired + order && order != []
      ensures was == (fired + [order[0]]) + order[1..]
    {
    }

    // The first timer is taken out of the tree before its function runs.
    method RemoveFirst(minTimer: Ptr)
      requires Valid() && tree.order != [] && minTimer == tree.order[0]
      modifies tree
      ensures Valid() && tree.order == old(tree.order)[1..]
    {
      FirstIsFirst();
      tree.Remove(minTimer);
    }

    // The time of the first timer that is left is told to the poller.
    method Tell(minTimer: Ptr, now: Time)
      requires Valid() && minTimer == (if tree.order == [] then NULL else tree.order[0]) && NULL !in tree.order
      requires minTimer != NULL ==> Before(now, due(minTimer))
      modifies this`hasTimeout, this`timeout
      ensures Valid() && Told()
      ensures forall i :: 0 <= i < |tree.order| ==> Before(now, due(tree.order[i]))
    {
      if minTimer != NULL {
        hasTimeout := true;
        timeout := due(minTimer);
        AllLater(now);
      } else {
        hasTimeout := false;
      }
    }

    lemma TopIsThere()
      requires Valid()
      ensures NULL !in tree.order
    {
    }

    lemma FirstIsFirst()
      requires Valid() && tree.order != []
      ensures tree.order[0] in tree.nodes && tree.order[0] in tree.spans && tree.spans[tree.order[0]].pos == 0
    {
      var p := tree.order[0];
      assert p in tree.nodes;
      PlaceOf(p);
      assert tree.order[tree.spans[p].pos] == p;
      assert tree.cmp(p, p) == 0;
    }

    lemma AllLater(now: Time)
      requires Valid() && tree.order != [] && Before(now, due(tree.order[0]))
      ensures forall i :: 0 <= i < |tree.order| ==> Before(now, due(tree.order[i]))
    {
      forall i | 0 <= i < |tree.order| ensures Before(now, due(tree.order[i])) {
        if i > 0 { assert tree.cmp(tree.order[0], tree.order[i]) < 0; }
      }
    }

    lemma OrderIsNodes()
      requires Valid()
      ensures forall p :: p in tree.nodes <==> p in tree.order
    {
      forall p | p in tree.nodes ensures p in tree.order {
        assert RankOk(tree.spans, tree.order, p);
      }
    }

    // A second timer that is due after the first.
    method AddAfter(f: Ptr, rv: Ptr)
      requires Valid() && Told() && tree.order == [f] && rv != NULL && Before(due(f), due(rv))
      modifies this, tree
      ensures Valid() && Told() && tree.order == [f, rv]
    {
      OrderIsNodes();
      OneOrTwo();
      AddTimer(rv);
      assert tree.cmp(tree.order[0], tree.order[1]) < 0;
    }

    // A second timer that is due before the first, whose time is told from then on.
    method AddBefore(f: Ptr, rv: Ptr)
      requires Valid() && Told() && tree.order == [f] && rv != NULL && Before(due(rv), due(f))
      modifies this, tree
      ensures Valid() && Told() && tree.order == [rv, f] && timeout == due(rv)
    {
      OrderIsNodes();
      AddTimer(rv);
      assert tree.cmp(tree.order[0], tree.order[1]) < 0;
    }

    // A third timer that is due between the other two: its time is told, though the first is due earlier.
    method AddBetween(f: Ptr, rv: Ptr, s: Ptr)
      requires Valid() && Told() && tree.order == [f, s] && rv != NULL
      requires Before(due(f), due(rv)) && Before(due(rv), due(s))
      modifies this, tree
      ensures Valid() && tree.order == [f, rv, s] && hasTimeout && timeout == due(rv) && !Told()
    {
      OrderIsNodes();
      OneOrTwo();
      AddTimer(rv);
      assert tree.cmp(tree.order[0], tree.order[1]) < 0 && tree.cmp(tree.order[1], tree.order[2]) < 0;
    }
  }

  // The times 10, 30 and then 20: the third addition tells 20 while the first timer is due at 10.
  method TellsTwenty() returns (timers: TimerQueue)
    ensures timers.Valid() && timers.tree.order == [1, 3, 2]
    ensures timers.due(1) == Time(10, 0) && timers.due(2) == Time(30, 0) && timers.due(3) == Time(20, 0)
    ensures timers.hasTimeout && timers.timeout == Time(20, 0)
  {
    timers := new TimerQueue((p: Ptr) => Time(if p == 1 then 10 else if p == 2 then 30 else 20, 0));
    timers.OrderIsNodes();
    timers.AddTimer(1);
    timers.AddAfter(1, 2);
    timers.AddBetween(1, 3, 2);
  }

  // The times 10.7 and then 10.2 seconds: told is 10.2, and at 10.5 that timer alone is fired and 10.7 is told.
  method FiresOne() returns (timers: TimerQueue, fired: seq<Ptr>)
    ensures timers.due(1) == Time(10, 700_000) && timers.due(2) == Time(10, 200_000)
    ensures timers.Valid() && fired == [2] && timers.tree.order == [1]
    ensures timers.hasTimeout && timers.timeout == Time(10, 700_000)
  {
    timers := new TimerQueue((p: Ptr) => Time(10, if p == 1 then 700_000 else 200_000));
    timers.OrderIsNodes();
    timers.AddTimer(1);
    timers.AddBefore(1, 2);
    fired := timers.FireTimers(Time(10, 500_000));
    OneOfTwo(fired, timers.tree.order, 2, 1);
  }

  lemma OneOfTwo(a: seq<Ptr>, b: seq<Ptr>, p: Ptr, q: Ptr)
    requires a + b == [p, q]
    ensures p !in b && q !in a ==> a == [p] && b == [q]
  {
    assert |a| + |b| == 2 && (a + b)[0] == p && (a + b)[1] == q;
    if |a| == 0 { assert b[0] == p; } else { assert a[0] == p; }
    if |a| == 2 { assert a[1] == q; } else if |a| == 1 { assert b[0] == q; }
  }
}
