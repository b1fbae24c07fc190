/** The bottom-up merge sort of gsklistmacros.h on linked lists, and the sort of doubly linked lists. */
module MergeSort {
  import opened Basics

  type Ptr = nat
  const NULL: Ptr := 0

  // The size of the array of runs: the bits of a size_t.
  const LOG2_MAX_LIST_SIZE := 64

  // ---- lists ----

  // The i-th node of a list, or the NULL behind its last one.
  function At(xs: seq<Ptr>, i: nat): Ptr
  {
    if i < |xs| then xs[i] else NULL
  }

  ghost predicate Links(next: map<Ptr, Ptr>, xs: seq<Ptr>, i: nat)
  {
    i < |xs| && xs[i] in next && next[xs[i]] == At(xs, i + 1)
  }

  // The nodes from the k-th up to the n-th are chained.
  ghost predicate Chained(next: map<Ptr, Ptr>, xs: seq<Ptr>, k: nat, n: nat)
  {
    forall i {:trigger Links(next, xs, i)} :: k <= i < n ==> Links(next, xs, i)
  }

  ghost predicate Proper(xs: seq<Ptr>)
  {
    NULL !in xs && forall i, j :: 0 <= i < j < |xs| ==> xs[i] != xs[j]
  }

  ghost predicate IsList(next: map<Ptr, Ptr>, p: Ptr, xs: seq<Ptr>)
  {
    p == At(xs, 0) && Proper(xs) && Chained(next, xs, 0, |xs|)
  }

  ghost predicate Apart(xs: seq<Ptr>, ys: seq<Ptr>)
  {
    forall p :: p in xs ==> p !in ys
  }

  // Nothing but the links of the given nodes has changed.
  ghost predicate Only(was: map<Ptr, Ptr>, now: map<Ptr, Ptr>, nodes: multiset<Ptr>)
  {
    was.Keys == now.Keys && forall p :: p in was && p !in nodes ==> now[p] == was[p]
  }

  lemma Undisturbed(was: map<Ptr, Ptr>, now: map<Ptr, Ptr>, nodes: multiset<Ptr>, p: Ptr, xs: seq<Ptr>)
    requires IsList(was, p, xs) && Only(was, now, nodes) && forall x :: x in xs ==> x !in nodes
    ensures IsList(now, p, xs)
  {
    forall i | 0 <= i < |xs| ensures Links(now, xs, i) {
      assert Links(was, xs, i) && xs[i] in xs;
    }
  }

  // ---- order ----

  type Comparator = (Ptr, Ptr) -> int

  ghost predicate TotalPreorder(cmp: Comparator)
  {
    && (forall x, y :: cmp(x, y) <= 0 || cmp(y, x) <= 0)
    && forall x, y, z :: cmp(x, y) <= 0 && cmp(y, z) <= 0 ==> cmp(x, z) <= 0
  }

  // x belongs before y: it is smaller, or equal and was there first.
  ghost predicate Less(cmp: Comparator, age: map<Ptr, nat>, x: Ptr, y: Ptr)
  {
    cmp(x, y) <= 0 && x in age && y in age && (cmp(y, x) <= 0 ==> age[x] < age[y])
  }

  ghost predicate Ordered(cmp: Comparator, age: map<Ptr, nat>, xs: seq<Ptr>)
  {
    forall i, j :: 0 <= i < j < |xs| ==> Less(cmp, age, xs[i], xs[j])
  }

  ghost predicate Older(age: map<Ptr, nat>, xs: seq<Ptr>, ys: seq<Ptr>)
  {
    && (forall x :: x in xs ==> x in age) && (forall y :: y in ys ==> y in age)
    && forall x, y :: x in xs && y in ys ==> age[x] < age[y]
  }

  // A stable sort: the same nodes, in order, those that compare equal as they were.
  ghost predicate IsStableSort(cmp: Comparator, xs: seq<Ptr>, ys: seq<Ptr>)
  {
    && multiset(xs) == multiset(ys)
    && forall i, j :: 0 <= i < j < |ys| ==>
         cmp(ys[i], ys[j]) <= 0 && (cmp(ys[j], ys[i]) <= 0 ==> Precedes(xs, ys[i], ys[j]))
  }

  ghost predicate Precedes(xs: seq<Ptr>, x: Ptr, y: Ptr)
  {
    exists i, j :: 0 <= i < j < |xs| && xs[i] == x && xs[j] == y
  }

  // ---- merging ----

  function Merge(cmp: Comparator, xs: seq<Ptr>, ys: seq<Ptr>): seq<Ptr>
  {
    if xs == [] then ys
    else if ys == [] then xs
    else if cmp(xs[0], ys[0]) <= 0 then [xs[0]] + Merge(cmp, xs[1..], ys)
    else [ys[0]] + Merge(cmp, xs, ys[1..])
  }

  lemma {:induction false} MergeKeeps(cmp: Comparator, xs: seq<Ptr>, ys: seq<Ptr>)
    ensures multiset(Merge(cmp, xs, ys)) == multiset(xs) + multiset(ys)
  {
    if xs != [] && ys != [] {
      assert xs == [xs[0]] + xs[1..] && ys == [ys[0]] + ys[1..];
      if cmp(xs[0], ys[0]) <= 0 { MergeKeeps(cmp, xs[1..], ys); } else { MergeKeeps(cmp, xs, ys[1..]); }
    }
  }

  lemma InMerge(cmp: Comparator, xs: seq<Ptr>, ys: seq<Ptr>, p: Ptr)
    ensures p in Merge(cmp, xs, ys) <==> p in xs || p in ys
  {
    MergeKeeps(cmp, xs, ys);
    assert p in Merge(cmp, xs, ys) <==> p in multiset(Merge(cmp, xs, ys));
  }

  lemma LessTransitive(cmp: Comparator, age: map<Ptr, nat>, x: Ptr, y: Ptr, z: Ptr)
    requires TotalPreorder(cmp) && Less(cmp, age, x, y) && Less(cmp, age, y, z)
    ensures Less(cmp, age, x, z)
  {
  }

  lemma HeadIsLeast(cmp: Comparator, age: map<Ptr, nat>, x: Ptr, ys: seq<Ptr>)
    requires TotalPreorder(cmp) && Ordered(cmp, age, ys) && ys != [] && Less(cmp, age, x, ys[0])
    ensures forall y :: y in ys ==> Less(cmp, age, x, y)
  {
    forall y | y in ys ensures Less(cmp, age, x, y) {
      if y != ys[0] { LessTransitive(cmp, age, x, ys[0], y); }
    }
  }

  // Merging an older run with a younger one, and taking from the older one on a tie, keeps the order stable.
  lemma {:induction false} MergeIsOrdered(cmp: Comparator, age: map<Ptr, nat>, xs: seq<Ptr>, ys: seq<Ptr>)
    requires TotalPreorder(cmp) && Ordered(cmp, age, xs) && Ordered(cmp, age, ys) && Older(age, xs, ys)
    ensures Ordered(cmp, age, Merge(cmp, xs, ys))
  {
    if xs != [] && ys != [] {
      var first, rest;
      if cmp(xs[0], ys[0]) <= 0 {
        first, rest := xs[0], Merge(cmp, xs[1..], ys);
        MergeIsOrdered(cmp, age, xs[1..], ys);
        HeadIsLeast(cmp, age, first, ys);
        forall p | p in rest ensures Less(cmp, age, first, p) { InMerge(cmp, xs[1..], ys, p); }
      } else {
        first, rest := ys[0], Merge(cmp, xs, ys[1..]);
        MergeIsOrdered(cmp, age, xs, ys[1..]);
        HeadIsLeast(cmp, age, first, xs);
        forall p | p in rest ensures Less(cmp, age, first, p) { InMerge(cmp, xs, ys[1..], p); }
      }
      assert Merge(cmp, xs, ys) == [first] + rest;
    }
  }

  lemma DistinctByCount(xs: seq<Ptr>)
    requires forall p :: p in xs ==> multiset(xs)[p] == 1
    ensures forall i, j :: 0 <= i < j < |xs| ==> xs[i] != xs[j]
  {
    forall i, j | 0 <= i < j < |xs| ensures xs[i] != xs[j] {
      assert xs == xs[..j] + xs[j..] && xs[j] == xs[j..][0] && xs[i] in xs[..j];
      assert multiset(xs)[xs[j]] == multiset(xs[..j])[xs[j]] + multiset(xs[j..])[xs[j]];
      assert multiset(xs)[xs[j]] == 1;
    }
  }

  lemma {:induction false} CountOfProper(xs: seq<Ptr>, p: Ptr)
    requires Proper(xs) && p in xs
    ensures multiset(xs)[p] == 1
  {
    assert xs == [xs[0]] + xs[1..];
    if p == xs[0] {
      assert p !in xs[1..];
    } else {
      CountOfProper(xs[1..], p);
    }
  }

  lemma MergeIsProper(cmp: Comparator, xs: seq<Ptr>, ys: seq<Ptr>)
    requires Proper(xs) && Proper(ys) && Apart(xs, ys)
    ensures Proper(Merge(cmp, xs, ys))
  {
    var zs := Merge(cmp, xs, ys);
    MergeKeeps(cmp, xs, ys);
    forall p | p in zs ensures multiset(zs)[p] == 1 && p != NULL {
      InMerge(cmp, xs, ys, p);
      if p in xs { CountOfProper(xs, p); } else { CountOfProper(ys, p); }
    }
    DistinctByCount(zs);
  }

  // What the next node of a merge is.
  lemma MergeStep(cmp: Comparator, xs: seq<Ptr>, ys: seq<Ptr>, i: nat, j: nat)
    requires i <= |xs| && j <= |ys| && i + j <= |Merge(cmp, xs, ys)|
    requires Merge(cmp, xs[i..], ys[j..]) == Merge(cmp, xs, ys)[i + j..]
    ensures var zs, k := Merge(cmp, xs, ys), i + j;
            if i == |xs| then zs[k..] == ys[j..]
            else if j == |ys| then zs[k..] == xs[i..]
            else k < |zs| &&
                 if cmp(xs[i], ys[j]) <= 0 then zs[k] == xs[i] && Merge(cmp, xs[i + 1..], ys[j..]) == zs[k + 1..]
                 else zs[k] == ys[j] && Merge(cmp, xs[i..], ys[j + 1..]) == zs[k + 1..]
  {
    var zs, k := Merge(cmp, xs, ys), i + j;
    if i < |xs| && j < |ys| {
      assert xs[i..][1..] == xs[i + 1..] && ys[j..][1..] == ys[j + 1..];
      assert zs[k..][1..] == zs[k + 1..] && zs[k..][0] == zs[k];
    }
  }

  // What is left of a list keeps away from what has been merged.
  lemma LeftApart(cmp: Comparator, xs: seq<Ptr>, ys: seq<Ptr>, i: nat, j: nat, p: Ptr)
    requires i <= |xs| && j <= |ys| && 0 < i + j <= |Merge(cmp, xs, ys)| && Proper(Merge(cmp, xs, ys))
    requires Merge(cmp, xs[i..], ys[j..]) == Merge(cmp, xs, ys)[i + j..] && (p in xs[i..] || p in ys[j..])
    ensures p != Merge(cmp, xs, ys)[i + j - 1]
  {
    InMerge(cmp, xs[i..], ys[j..], p);
  }

  lemma StillChained(was: map<Ptr, Ptr>, now: map<Ptr, Ptr>, xs: seq<Ptr>, k: nat, n: nat, p: Ptr, q: Ptr)
    requires Chained(was, xs, k, n) && k <= n <= |xs| && p !in xs[k..n] && now == was[p := q]
    ensures Chained(now, xs, k, n)
  {
    forall i {:trigger Links(now, xs, i)} | k <= i < n ensures Links(now, xs, i) {
      assert Links(was, xs, i) && xs[i] == xs[k..n][i - k];
    }
  }

  // Two lists with the same end are chained alike there.
  lemma SameEnd(next: map<Ptr, Ptr>, xs: seq<Ptr>, i: nat, zs: seq<Ptr>, k: nat)
    requires i <= |xs| && k <= |zs| && zs[k..] == xs[i..] && Chained(next, xs, i, |xs|)
    ensures Chained(next, zs, k, |zs|) && At(zs, k) == At(xs, i)
  {
    forall m {:trigger Links(next, zs, m)} | k <= m < |zs| ensures Links(next, zs, m) {
      var x := i + (m - k);
      assert zs[m] == zs[k..][m - k] && xs[x] == xs[i..][m - k] && Links(next, xs, x);
      if m + 1 < |zs| { assert zs[m + 1] == zs[k..][m + 1 - k] && xs[x + 1] == xs[i..][m + 1 - k]; }
    }
    if k < |zs| { assert zs[k] == zs[k..][0] && xs[i] == xs[i..][0]; }
  }

  // The first k nodes of the merged list are chained; what is left of both lists is as it was.
  ghost predicate Merging(cmp: Comparator, was: map<Ptr, Ptr>, next: map<Ptr, Ptr>, xs: seq<Ptr>, ys: seq<Ptr>,
                          i: nat, j: nat)
  {
    var zs := Merge(cmp, xs, ys);
    && i <= |xs| && j <= |ys| && 0 < i + j <= |zs| && Merge(cmp, xs[i..], ys[j..]) == zs[i + j..]
    && Chained(next, xs, i, |xs|) && Chained(next, ys, j, |ys|) && Chained(next, zs, 0, i + j - 1)
    && Only(was, next, multiset(zs)) && zs[i + j - 1] in next
  }

  // The last merged node is linked to the next one; nothing else of the three lists changes.
  lemma LastLinked(cmp: Comparator, was: map<Ptr, Ptr>, next: map<Ptr, Ptr>, now: map<Ptr, Ptr>,
                   xs: seq<Ptr>, ys: seq<Ptr>, i: nat, j: nat)
    requires Merging(cmp, was, next, xs, ys, i, j) && Proper(Merge(cmp, xs, ys))
    requires var zs := Merge(cmp, xs, ys); now == next[zs[i + j - 1] := At(zs, i + j)]
    ensures var zs := Merge(cmp, xs, ys);
            Chained(now, xs, i, |xs|) && Chained(now, ys, j, |ys|) && Chained(now, zs, 0, i + j)
            && Only(was, now, multiset(zs))
  {
    var k, zs := i + j, Merge(cmp, xs, ys);
    var last, q := zs[k - 1], At(zs, k);
    LastApart(cmp, xs, ys, i, j);
    StillChained(next, now, xs, i, |xs|, last, q);
    StillChained(next, now, ys, j, |ys|, last, q);
    StillChained(next, now, zs, 0, k - 1, last, q);
    OnlyMore(was, next, now, zs, last, q);
    ChainedOneMore(now, zs, k);
  }

  lemma OnlyMore(was: map<Ptr, Ptr>, next: map<Ptr, Ptr>, now: map<Ptr, Ptr>, zs: seq<Ptr>, p: Ptr, q: Ptr)
    requires Only(was, next, multiset(zs)) && p in zs && p in next && now == next[p := q]
    ensures Only(was, now, multiset(zs))
  {
  }

  lemma ChainedOneMore(now: map<Ptr, Ptr>, zs: seq<Ptr>, k: nat)
    requires 0 < k <= |zs| && Chained(now, zs, 0, k - 1) && zs[k - 1] in now && now[zs[k - 1]] == At(zs, k)
    ensures Chained(now, zs, 0, k)
  {
    assert Links(now, zs, k - 1);
  }

  lemma LastApart(cmp: Comparator, xs: seq<Ptr>, ys: seq<Ptr>, i: nat, j: nat)
    requires i <= |xs| && j <= |ys| && 0 < i + j <= |Merge(cmp, xs, ys)| && Proper(Merge(cmp, xs, ys))
    requires Merge(cmp, xs[i..], ys[j..]) == Merge(cmp, xs, ys)[i + j..]
    ensures var zs, k := Merge(cmp, xs, ys), i + j;
            zs[k - 1] !in xs[i..] && zs[k - 1] !in ys[j..] && zs[k - 1] !in zs[0..k - 1]
            && xs[i..] == xs[i..|xs|] && ys[j..] == ys[j..|ys|]
  {
    var zs, k := Merge(cmp, xs, ys), i + j;
    if zs[k - 1] in xs[i..] || zs[k - 1] in ys[j..] { LeftApart(cmp, xs, ys, i, j, zs[k - 1]); }
  }

  // The heads of what is left of both lists, and the node that was merged last.
  ghost predicate AtHand(cmp: Comparator, xs: seq<Ptr>, ys: seq<Ptr>, i: nat, j: nat, a: Ptr, b: Ptr, outAt: Ptr)
  {
    a == At(xs, i) && b == At(ys, j) && 0 < i + j <= |Merge(cmp, xs, ys)| && outAt == Merge(cmp, xs, ys)[i + j - 1]
  }

  // One turn of the merge: the node taken is linked behind the last one.
  lemma MergeOne(cmp: Comparator, was: map<Ptr, Ptr>, next: map<Ptr, Ptr>, now: map<Ptr, Ptr>,
                 xs: seq<Ptr>, ys: seq<Ptr>, i: nat, j: nat, taken: Ptr)
    returns (i': nat, j': nat)
    requires Merging(cmp, was, next, xs, ys, i, j) && i < |xs| && j < |ys| && Proper(Merge(cmp, xs, ys))
    requires taken == if cmp(xs[i], ys[j]) <= 0 then xs[i] else ys[j]
    requires now == next[Merge(cmp, xs, ys)[i + j - 1] := taken]
    ensures Whole(Merging(cmp, was, now, xs, ys, i', j')) && Merge(cmp, xs, ys)[i' + j' - 1] == taken
    ensures if cmp(xs[i], ys[j]) <= 0 then i' == i + 1 && j' == j else i' == i && j' == j + 1
    ensures Links(now, xs, i) && Links(now, ys, j)
  {
    MergeStep(cmp, xs, ys, i, j);
    LastLinked(cmp, was, next, now, xs, ys, i, j);
    assert Links(next, xs, i) && Links(next, ys, j);
    assert Links(now, xs, i) && Links(now, ys, j);
    if cmp(xs[i], ys[j]) <= 0 { i', j' := i + 1, j; } else { i', j' := i, j + 1; }
  }

  // The rest of the list that is not used up is linked at once.
  lemma MergeEnds(cmp: Comparator, was: map<Ptr, Ptr>, next: map<Ptr, Ptr>, now: map<Ptr, Ptr>,
                  xs: seq<Ptr>, ys: seq<Ptr>, i: nat, j: nat)
    requires Merging(cmp, was, next, xs, ys, i, j) && (i == |xs| || j == |ys|) && Proper(Merge(cmp, xs, ys))
    requires now == next[Merge(cmp, xs, ys)[i + j - 1] := if i < |xs| then xs[i] else At(ys, j)]
    ensures IsList(now, Merge(cmp, xs, ys)[0], Merge(cmp, xs, ys)) && Only(was, now, multiset(Merge(cmp, xs, ys)))
  {
    var k, zs := i + j, Merge(cmp, xs, ys);
    MergeStep(cmp, xs, ys, i, j);
    if i < |xs| { SameEnd(next, xs, i, zs, k); } else { SameEnd(next, ys, j, zs, k); }
    LastLinked(cmp, was, next, now, xs, ys, i, j);
    if i < |xs| { SameEnd(now, xs, i, zs, k); } else { SameEnd(now, ys, j, zs, k); }
  }

  lemma MergeStarts(cmp: Comparator, next: map<Ptr, Ptr>, xs: seq<Ptr>, ys: seq<Ptr>)
    requires xs != [] && ys != [] && Chained(next, xs, 0, |xs|) && Chained(next, ys, 0, |ys|)
    ensures Links(next, xs, 0) && Links(next, ys, 0)
    ensures if cmp(xs[0], ys[0]) <= 0 then Merge(cmp, xs, ys)[0] == xs[0] && Merging(cmp, next, next, xs, ys, 1, 0)
            else Merge(cmp, xs, ys)[0] == ys[0] && Merging(cmp, next, next, xs, ys, 0, 1)
  {
    assert Links(next, xs, 0) && Links(next, ys, 0);
    assert xs[0..] == xs && ys[0..] == ys;
    MergeStep(cmp, xs, ys, 0, 0);
  }

  // ---- the stack of runs ----

  function Union(runs: seq<seq<Ptr>>): multiset<Ptr>
  {
    if runs == [] then multiset{} else Union(runs[..|runs| - 1]) + multiset(runs[|runs| - 1])
  }

  // A run in slot i stands for two to the i pairs of nodes.
  function Weight(runs: seq<seq<Ptr>>): nat
  {
    if runs == [] then 0
    else Weight(runs[..|runs| - 1]) + if runs[|runs| - 1] == [] then 0 else Pow2(|runs| - 1)
  }

  lemma {:induction false} UnionUpdate(runs: seq<seq<Ptr>>, i: nat, run: seq<Ptr>)
    requires i < |runs|
    ensures Union(runs[i := run]) + multiset(runs[i]) == Union(runs) + multiset(run)
    decreases |runs|
  {
    var n := |runs| - 1;
    if i == n {
      assert runs[i := run][..n] == runs[..n];
    } else {
      var front, now := runs[..n], runs[..n][i := run];
      assert runs[i := run][..n] == now;
      UnionUpdate(front, i, run);
      AddLast(Union(now), multiset(runs[i]), Union(front), multiset(run), multiset(runs[n]));
    }
  }

  lemma {:induction false} WeightUpdate(runs: seq<seq<Ptr>>, i: nat, run: seq<Ptr>)
    requires i < |runs|
    ensures Weight(runs[i := run]) + (if runs[i] == [] then 0 else Pow2(i)) ==
            Weight(runs) + if run == [] then 0 else Pow2(i)
    decreases |runs|
  {
    var n := |runs| - 1;
    if i == n {
      assert runs[i := run][..n] == runs[..n];
    } else {
      assert runs[i := run][..n] == runs[..n][i := run];
      WeightUpdate(runs[..n], i, run);
    }
  }

  lemma Pushed(runs: seq<seq<Ptr>>, run: seq<Ptr>)
    ensures Union(runs + [run]) == Union(runs) + multiset(run)
    ensures run != [] ==> Weight(runs + [run]) == Weight(runs) + Pow2(|runs|)
  {
    assert (runs + [run])[..|runs|] == runs;
  }

  // Slot i is empty, or holds an ordered run of at most 2 to the (i + 1) nodes.
  ghost predicate RunOk(cmp: Comparator, next: map<Ptr, Ptr>, age: map<Ptr, nat>, p: Ptr, run: seq<Ptr>, i: nat)
  {
    IsList(next, p, run) && Ordered(cmp, age, run) && |run| <= Pow2(i + 1)
  }

  ghost predicate SlotOk(cmp: Comparator, next: map<Ptr, Ptr>, age: map<Ptr, nat>, stack: seq<Ptr>, runs: seq<seq<Ptr>>,
                         i: nat)
  {
    && i < |stack| == |runs| && RunOk(cmp, next, age, stack[i], runs[i], i)
    && forall j :: 0 <= j < i ==> Older(age, runs[i], runs[j])
  }

  // The runs on the stack, the older ones in the higher slots, then the current run, then the nodes still to come.
  ghost predicate Sorting(cmp: Comparator, next: map<Ptr, Ptr>, age: map<Ptr, nat>, stack: seq<Ptr>,
                          runs: seq<seq<Ptr>>, i: nat, cur: Ptr, run: seq<Ptr>, at: Ptr, rest: seq<Ptr>)
  {
    && |stack| == |runs| && (forall j {:trigger SlotOk(cmp, next, age, stack, runs, j)} ::
         0 <= j < |runs| ==> SlotOk(cmp, next, age, stack, runs, j))
    && (forall j {:trigger Older(age, runs[j], run)} :: 0 <= j < |runs| ==> Older(age, runs[j], run))
    && (forall j {:trigger Older(age, runs[j], rest)} :: 0 <= j < |runs| ==> Older(age, runs[j], rest))
    && RunOk(cmp, next, age, cur, run, i) && IsList(next, at, rest) && Older(age, run, rest)
  }

  lemma OlderIsApart(age: map<Ptr, nat>, xs: seq<Ptr>, ys: seq<Ptr>)
    requires Older(age, xs, ys)
    ensures Apart(xs, ys) && Apart(ys, xs)
  {
  }

  lemma RunStays(cmp: Comparator, was: map<Ptr, Ptr>, now: map<Ptr, Ptr>, nodes: multiset<Ptr>, age: map<Ptr, nat>,
                 p: Ptr, run: seq<Ptr>, i: nat)
    requires RunOk(cmp, was, age, p, run, i) && Only(was, now, nodes) && forall x :: x in run ==> x !in nodes
    ensures RunOk(cmp, now, age, p, run, i)
  {
    Undisturbed(was, now, nodes, p, run);
  }

  // A slot whose nodes were not touched stays, also when other slots have been emptied.
  lemma SlotStays(cmp: Comparator, was: map<Ptr, Ptr>, now: map<Ptr, Ptr>, nodes: multiset<Ptr>, age: map<Ptr, nat>,
                  stack: seq<Ptr>, runs: seq<seq<Ptr>>, stack': seq<Ptr>, runs': seq<seq<Ptr>>, j: nat)
    requires SlotOk(cmp, was, age, stack, runs, j) && Only(was, now, nodes) && forall x :: x in runs[j] ==> x !in nodes
    requires |stack'| == |runs'| && j < |runs'| && stack'[j] == stack[j] && runs'[j] == runs[j]
    requires forall k :: 0 <= k < j ==> runs'[k] == runs[k] || runs'[k] == []
    ensures SlotOk(cmp, now, age, stack', runs', j)
  {
    RunStays(cmp, was, now, nodes, age, stack[j], runs[j], j);
    forall k | 0 <= k < j ensures Older(age, runs'[j], runs'[k]) {
      assert Older(age, runs[j], runs[k]);
    }
  }

  lemma OlderThanMerge(cmp: Comparator, age: map<Ptr, nat>, xs: seq<Ptr>, ys: seq<Ptr>, zs: seq<Ptr>)
    requires Older(age, zs, xs) && Older(age, zs, ys)
    ensures Older(age, zs, Merge(cmp, xs, ys))
  {
    forall p | p in Merge(cmp, xs, ys) ensures p in xs || p in ys { InMerge(cmp, xs, ys, p); }
  }

  lemma MergeIsOlder(cmp: Comparator, age: map<Ptr, nat>, xs: seq<Ptr>, ys: seq<Ptr>, zs: seq<Ptr>)
    requires Older(age, xs, zs) && Older(age, ys, zs)
    ensures Older(age, Merge(cmp, xs, ys), zs)
  {
    forall p | p in Merge(cmp, xs, ys) ensures p in xs || p in ys { InMerge(cmp, xs, ys, p); }
  }

  lemma Emptied(cmp: Comparator, next: map<Ptr, Ptr>, age: map<Ptr, nat>, stack: seq<Ptr>, runs: seq<seq<Ptr>>, i: nat)
    requires i < |stack| == |runs| && stack[i] == NULL && runs[i] == []
    requires forall j :: 0 <= j < i ==> forall x :: x in runs[j] ==> x in age
    ensures SlotOk(cmp, next, age, stack, runs, i)
  {
  }

  // The run of slot i has been merged with the current one.
  lemma MergedUp(cmp: Comparator, was: map<Ptr, Ptr>, now: map<Ptr, Ptr>, age: map<Ptr, nat>, stack: seq<Ptr>,
                 runs: seq<seq<Ptr>>, i: nat, cur: Ptr, run: seq<Ptr>, at: Ptr, rest: seq<Ptr>, out: Ptr)
    requires TotalPreorder(cmp) && Sorting(cmp, was, age, stack, runs, i, cur, run, at, rest) && i < |runs|
    requires forall k :: 0 <= k < i ==> runs[k] == []
    requires IsList(now, out, Merge(cmp, runs[i], run)) && Only(was, now, multiset(runs[i]) + multiset(run))
    ensures Sorting(cmp, now, age, stack[i := NULL], runs[i := []], i + 1, out, Merge(cmp, runs[i], run), at, rest)
  {
    var merged, nodes := Merge(cmp, runs[i], run), multiset(runs[i]) + multiset(run);
    var stack', runs' := stack[i := NULL], runs[i := []];
    assert SlotOk(cmp, was, age, stack, runs, i);
    assert Older(age, runs[i], run) && Older(age, runs[i], rest);
    MergeIsOrdered(cmp, age, runs[i], run);
    MergeKeeps(cmp, runs[i], run);
    assert |merged| == |multiset(merged)| == |runs[i]| + |run|;
    MergeIsOlder(cmp, age, runs[i], run, rest);
    OlderIsApart(age, runs[i], rest);
    OlderIsApart(age, run, rest);
    Undisturbed(was, now, nodes, at, rest);
    forall j | 0 <= j < |runs'| ensures SlotOk(cmp, now, age, stack', runs', j) {
      MergedUpSlot(cmp, was, now, age, stack, runs, i, cur, run, at, rest, j);
    }
    forall j | 0 <= j < |runs'| ensures Older(age, runs'[j], merged) && Older(age, runs'[j], rest) {
      MergedUpOlder(cmp, was, age, stack, runs, i, cur, run, at, rest, j);
    }
  }

  lemma MergedUpSlot(cmp: Comparator, was: map<Ptr, Ptr>, now: map<Ptr, Ptr>, age: map<Ptr, nat>, stack: seq<Ptr>,
                     runs: seq<seq<Ptr>>, i: nat, cur: Ptr, run: seq<Ptr>, at: Ptr, rest: seq<Ptr>, j: nat)
    requires Sorting(cmp, was, age, stack, runs, i, cur, run, at, rest) && i < |runs| && j < |runs|
    requires Only(was, now, multiset(runs[i]) + multiset(run))
    ensures SlotOk(cmp, now, age, stack[i := NULL], runs[i := []], j)
  {
    assert SlotOk(cmp, was, age, stack, runs, j) && SlotOk(cmp, was, age, stack, runs, i);
    assert Older(age, runs[j], run);
    if j != i {
      if j < i { OlderIsApart(age, runs[i], runs[j]); } else { OlderIsApart(age, runs[j], runs[i]); }
      OlderIsApart(age, runs[j], run);
      SlotStays(cmp, was, now, multiset(runs[i]) + multiset(run), age, stack, runs, stack[i := NULL], runs[i := []], j);
    } else {
      forall k | 0 <= k < i ensures forall x :: x in runs[k] ==> x in age { assert Older(age, runs[k], run); }
      Emptied(cmp, now, age, stack[i := NULL], runs[i := []], i);
    }
  }

  lemma MergedUpOlder(cmp: Comparator, was: map<Ptr, Ptr>, age: map<Ptr, nat>, stack: seq<Ptr>,
                      runs: seq<seq<Ptr>>, i: nat, cur: Ptr, run: seq<Ptr>, at: Ptr, rest: seq<Ptr>, j: nat)
    requires Sorting(cmp, was, age, stack, runs, i, cur, run, at, rest) && i < |runs| && j < |runs|
    requires forall k :: 0 <= k < i ==> runs[k] == []
    ensures Older(age, runs[i := []][j], Merge(cmp, runs[i], run)) && Older(age, runs[i := []][j], rest)
  {
    assert Older(age, runs[j], run) && Older(age, runs[i], run) && Older(age, runs[j], rest);
    MergeKeeps(cmp, runs[i], run);
    if j > i {
      assert SlotOk(cmp, was, age, stack, runs, j);
      OlderThanMerge(cmp, age, runs[i], run, runs[j]);
    } else {
      forall p | p in Merge(cmp, runs[i], run) ensures p in age { InMerge(cmp, runs[i], run, p); }
    }
  }

  // The current run has found an empty slot, or a new one.
  lemma Placed(cmp: Comparator, next: map<Ptr, Ptr>, age: map<Ptr, nat>, stack: seq<Ptr>, runs: seq<seq<Ptr>>, i: nat,
               cur: Ptr, run: seq<Ptr>, at: Ptr, rest: seq<Ptr>, stack': seq<Ptr>, runs': seq<seq<Ptr>>)
    requires Sorting(cmp, next, age, stack, runs, i, cur, run, at, rest)
    requires i <= |runs| && forall k :: 0 <= k < i ==> runs[k] == []
    requires if i == |runs| then stack' == stack + [cur] && runs' == runs + [run]
             else runs[i] == [] && stack' == stack[i := cur] && runs' == runs[i := run]
    ensures Sorting(cmp, next, age, stack', runs', 0, NULL, [], at, rest)
  {
    forall j | 0 <= j < |runs'| ensures SlotOk(cmp, next, age, stack', runs', j) {
      PlacedSlot(cmp, next, age, stack, runs, i, cur, run, at, rest, stack', runs', j);
    }
    forall j | 0 <= j < |runs'| ensures Older(age, runs'[j], []) && Older(age, runs'[j], rest) {
      if j != i { assert Older(age, runs[j], rest); }
    }
  }

  lemma PlacedSlot(cmp: Comparator, next: map<Ptr, Ptr>, age: map<Ptr, nat>, stack: seq<Ptr>, runs: seq<seq<Ptr>>,
                   i: nat, cur: Ptr, run: seq<Ptr>, at: Ptr, rest: seq<Ptr>,
                   stack': seq<Ptr>, runs': seq<seq<Ptr>>, j: nat)
    requires Sorting(cmp, next, age, stack, runs, i, cur, run, at, rest) && j < |runs'|
    requires i <= |runs| && forall k :: 0 <= k < i ==> runs[k] == []
    requires if i == |runs| then stack' == stack + [cur] && runs' == runs + [run]
             else runs[i] == [] && stack' == stack[i := cur] && runs' == runs[i := run]
    ensures SlotOk(cmp, next, age, stack', runs', j)
  {
    if j == i {
      forall k | 0 <= k < j ensures Older(age, run, runs'[k]) { assert runs'[k] == []; }
    } else {
      assert SlotOk(cmp, next, age, stack, runs, j);
      forall k | 0 <= k < j ensures Older(age, runs'[j], runs'[k]) {
        if k == i { assert Older(age, runs[j], run); } else { assert Older(age, runs[j], runs[k]); }
      }
    }
  }

  // The nodes still to come are in the order in which they were.
  ghost predicate Ageing(age: map<Ptr, nat>, xs: seq<Ptr>)
  {
    (forall x :: x in xs ==> x in age) && forall i, j :: 0 <= i < j < |xs| ==> age[xs[i]] < age[xs[j]]
  }

  // The first n nodes have been cut off and made into a run.
  ghost predicate CutOff(cmp: Comparator, was: map<Ptr, Ptr>, now: map<Ptr, Ptr>, age: map<Ptr, nat>, rest: seq<Ptr>,
                         n: nat, run: seq<Ptr>)
  {
    && 0 < n <= |rest| && |run| == n && (n == 2 || n == |rest| == 1)
    && RunOk(cmp, now, age, run[0], run, 0) && IsList(now, At(rest, n), rest[n..]) && Only(was, now, multiset(run))
    && multiset(run) + multiset(rest[n..]) == multiset(rest)
    && Older(age, run, rest[n..]) && Ageing(age, rest[n..])
  }

  lemma RestStays(was: map<Ptr, Ptr>, now: map<Ptr, Ptr>, nodes: multiset<Ptr>, p: Ptr, rest: seq<Ptr>, n: nat)
    requires IsList(was, p, rest) && n <= |rest| && Only(was, now, nodes) && forall x :: x in nodes ==> x in rest[..n]
    ensures IsList(now, At(rest, n), rest[n..])
  {
    forall k | 0 <= k < |rest[n..]| ensures Links(was, rest[n..], k) { assert Links(was, rest, n + k); }
    Undisturbed(was, now, nodes, At(rest, n), rest[n..]);
  }

  lemma OneIsRun(cmp: Comparator, was: map<Ptr, Ptr>, now: map<Ptr, Ptr>, age: map<Ptr, nat>, at: Ptr, rest: seq<Ptr>)
    requires IsList(was, at, rest) && Ageing(age, rest) && |rest| == 1 && now == was[rest[0] := NULL]
    ensures CutOff(cmp, was, now, age, rest, 1, rest)
  {
    assert Links(was, rest, 0);
    assert Links(now, rest, 0);
    assert rest[1..] == [] && rest[..1] == rest;
  }

  // The first two nodes, chained as run and cut off, whichever comes first.
  lemma PairCutOff(cmp: Comparator, was: map<Ptr, Ptr>, now: map<Ptr, Ptr>, age: map<Ptr, nat>, at: Ptr, rest: seq<Ptr>,
                   x: Ptr, y: Ptr)
    requires IsList(was, at, rest) && Ageing(age, rest) && |rest| >= 2 && x in rest[..2] && y in rest[..2] && x != y
    requires x != NULL && y != NULL
    requires x in now && y in now && now[x] == y && now[y] == NULL && Only(was, now, multiset{x, y})
    requires Less(cmp, age, x, y)
    ensures CutOff(cmp, was, now, age, rest, 2, [x, y])
  {
    var run := [x, y];
    SameTwo(rest, x, y);
    RestStays(was, now, multiset(run), at, rest, 2);
    TwoAreRun(cmp, now, age, x, y);
    RunIsOlder(age, rest, run);
  }

  lemma SameTwo(rest: seq<Ptr>, x: Ptr, y: Ptr)
    requires |rest| >= 2 && x in rest[..2] && y in rest[..2] && x != y
    ensures multiset([x, y]) == multiset{x, y} && multiset([x, y]) + multiset(rest[2..]) == multiset(rest)
    ensures forall p :: p in multiset([x, y]) ==> p in rest[..2]
  {
    assert rest == rest[..2] + rest[2..] && rest[..2] == [rest[0], rest[1]];
    assert multiset([x, y]) == multiset([rest[0], rest[1]]);
  }

  lemma TwoAreRun(cmp: Comparator, now: map<Ptr, Ptr>, age: map<Ptr, nat>, x: Ptr, y: Ptr)
    requires x != NULL && y != NULL && x != y && x in now && y in now && now[x] == y && now[y] == NULL
    requires Less(cmp, age, x, y)
    ensures RunOk(cmp, now, age, x, [x, y], 0)
  {
    var run := [x, y];
    assert Links(now, run, 0) && Links(now, run, 1);
  }

  lemma RunIsOlder(age: map<Ptr, nat>, rest: seq<Ptr>, run: seq<Ptr>)
    requires Ageing(age, rest) && |rest| >= 2 && forall p :: p in run ==> p in rest[..2]
    ensures Older(age, run, rest[2..]) && Ageing(age, rest[2..])
  {
    forall x, y | x in run && y in rest[2..] ensures x in age && y in age && age[x] < age[y] {
      var j :| 0 <= j < |rest[2..]| && rest[2..][j] == y;
      assert x in rest[..2] && rest[j + 2] == y;
    }
    assert forall y :: y in rest[2..] ==> y in rest;
    assert forall x :: x in run ==> x in rest;
  }

  lemma PairIsRun(cmp: Comparator, was: map<Ptr, Ptr>, now: map<Ptr, Ptr>, age: map<Ptr, nat>, at: Ptr, rest: seq<Ptr>,
                  run: seq<Ptr>)
    requires TotalPreorder(cmp) && IsList(was, at, rest) && Ageing(age, rest) && |rest| >= 2
    requires if cmp(rest[0], rest[1]) > 0
             then run == [rest[1], rest[0]] && now == was[rest[1] := rest[0]][rest[0] := NULL]
             else run == [rest[0], rest[1]] && now == was[rest[1] := NULL]
    ensures CutOff(cmp, was, now, age, rest, 2, run)
  {
    assert Links(was, rest, 0) && Links(was, rest, 1);
    assert rest[0] == rest[..2][0] && rest[1] == rest[..2][1];
    if cmp(rest[0], rest[1]) > 0 {
      PairCutOff(cmp, was, now, age, at, rest, rest[1], rest[0]);
    } else {
      PairCutOff(cmp, was, now, age, at, rest, rest[0], rest[1]);
    }
  }

  // There is a slot left for a new run, as long as fewer than two to the number of slots pairs have been seen.
  lemma SlotLeft(runs: seq<seq<Ptr>>, i: nat, pairs: nat, slots: nat)
    requires Weight(runs) + Pow2(i) == pairs < Pow2(slots)
    ensures i < slots
  {
    if i >= slots { Pow2Grows(slots, i); }
  }

  lemma {:induction false} UnionHas(runs: seq<seq<Ptr>>, i: nat)
    requires i < |runs|
    ensures multiset(runs[i]) <= Union(runs)
    decreases |runs|
  {
    if i < |runs| - 1 { UnionHas(runs[..|runs| - 1], i); }
  }

  // While the current run, which stands for two to the i pairs, is on its way to slot i.
  ghost predicate Raising(cmp: Comparator, next: map<Ptr, Ptr>, age: map<Ptr, nat>, stack: seq<Ptr>,
                          runs: seq<seq<Ptr>>, i: nat, cur: Ptr, run: seq<Ptr>, at: Ptr, rest: seq<Ptr>,
                          pairs: nat)
  {
    && Sorting(cmp, next, age, stack, runs, i, cur, run, at, rest) && run != [] && i <= |runs|
    && (forall k :: 0 <= k < i ==> runs[k] == [])
    && Weight(runs) + Pow2(i) == pairs
  }

  // Between two pairs: the runs hold the nodes seen so far.
  ghost predicate Resting(cmp: Comparator, next: map<Ptr, Ptr>, age: map<Ptr, nat>, stack: seq<Ptr>,
                          runs: seq<seq<Ptr>>, at: Ptr, rest: seq<Ptr>, pairs: nat)
  {
    && Sorting(cmp, next, age, stack, runs, 0, NULL, [], at, rest)
    && Weight(runs) == pairs
  }

  lemma RaisedToTop(cmp: Comparator, next: map<Ptr, Ptr>, age: map<Ptr, nat>, stack: seq<Ptr>,
                    runs: seq<seq<Ptr>>, i: nat, cur: Ptr, run: seq<Ptr>, at: Ptr, rest: seq<Ptr>,
                    pairs: nat, slots: nat)
    requires Raising(cmp, next, age, stack, runs, i, cur, run, at, rest, pairs) && i == |runs| && pairs < Pow2(slots)
    ensures i < slots
    ensures Resting(cmp, next, age, stack + [cur], runs + [run], at, rest, pairs)
  {
    SlotLeft(runs, i, pairs, slots);
    Pushed(runs, run);
    Placed(cmp, next, age, stack, runs, i, cur, run, at, rest, stack + [cur], runs + [run]);
  }

  lemma RaisedToSlot(cmp: Comparator, next: map<Ptr, Ptr>, age: map<Ptr, nat>, stack: seq<Ptr>,
                     runs: seq<seq<Ptr>>, i: nat, cur: Ptr, run: seq<Ptr>, at: Ptr, rest: seq<Ptr>,
                     pairs: nat)
    requires Raising(cmp, next, age, stack, runs, i, cur, run, at, rest, pairs) && i < |runs| && runs[i] == []
    ensures Resting(cmp, next, age, stack[i := cur], runs[i := run], at, rest, pairs)
  {
    WeightUpdate(runs, i, run);
    Placed(cmp, next, age, stack, runs, i, cur, run, at, rest, stack[i := cur], runs[i := run]);
  }

  lemma RaisedOne(cmp: Comparator, was: map<Ptr, Ptr>, now: map<Ptr, Ptr>, age: map<Ptr, nat>, stack: seq<Ptr>,
                  runs: seq<seq<Ptr>>, i: nat, cur: Ptr, run: seq<Ptr>, at: Ptr, rest: seq<Ptr>,
                  pairs: nat, out: Ptr)
    requires TotalPreorder(cmp)
    requires Raising(cmp, was, age, stack, runs, i, cur, run, at, rest, pairs) && i < |runs| && runs[i] != []
    requires IsList(now, out, Merge(cmp, runs[i], run)) && Only(was, now, multiset(runs[i]) + multiset(run))
    ensures Raising(cmp, now, age, stack[i := NULL], runs[i := []], i + 1, out, Merge(cmp, runs[i], run), at, rest,
                    pairs)
  {
    MergedUp(cmp, was, now, age, stack, runs, i, cur, run, at, rest, out);
    WeightUpdate(runs, i, []);
    MergeNotEmpty(cmp, runs[i], run);
  }

  lemma OnlyAgain(a: map<Ptr, Ptr>, b: map<Ptr, Ptr>, c: map<Ptr, Ptr>, all: multiset<Ptr>)
    requires Only(a, b, all) && Only(b, c, all)
    ensures Only(a, c, all)
  {
  }

  lemma MergeNotEmpty(cmp: Comparator, xs: seq<Ptr>, ys: seq<Ptr>)
    ensures |Merge(cmp, xs, ys)| == |xs| + |ys|
  {
    MergeKeeps(cmp, xs, ys);
    assert |multiset(Merge(cmp, xs, ys))| == |xs| + |ys|;
  }

  lemma MergedCounts(cmp: Comparator, runs: seq<seq<Ptr>>, i: nat, run: seq<Ptr>, all: multiset<Ptr>)
    requires i < |runs| && runs[i] != [] && run != [] && Union(runs) + multiset(run) == all
    ensures Union(runs[i := []]) + multiset(Merge(cmp, runs[i], run)) == all
    ensures multiset(runs[i]) + multiset(run) <= all
  {
    MergeKeeps(cmp, runs[i], run);
    UnionUpdate(runs, i, []);
    UnionHas(runs, i);
    Exchange(Union(runs[i := []]), multiset(runs[i]), Union(runs), multiset(run), all);
  }

  lemma Exchange(u': multiset<Ptr>, r: multiset<Ptr>, u: multiset<Ptr>, q: multiset<Ptr>, all: multiset<Ptr>)
    requires u' + r == u + multiset{} && u + q == all && r <= u
    ensures u' + (r + q) == all && r + q <= all
  {
    assert u' + r == u;
  }

  lemma OnlyThen(a: map<Ptr, Ptr>, b: map<Ptr, Ptr>, c: map<Ptr, Ptr>, some: multiset<Ptr>, all: multiset<Ptr>)
    requires Only(a, b, all) && Only(b, c, some) && some <= all
    ensures Only(a, c, all)
  {
  }

  // ---- combining the runs ----

  // The runs below slot i are merged into one list; the others are as they were.
  ghost predicate Combining(cmp: Comparator, next: map<Ptr, Ptr>, age: map<Ptr, nat>, stack: seq<Ptr>,
                            runs: seq<seq<Ptr>>, i: nat, top: Ptr, output: seq<Ptr>, all: multiset<Ptr>)
  {
    && |stack| == |runs| && i <= |runs| && IsList(next, top, output) && Ordered(cmp, age, output)
    && (forall j {:trigger SlotOk(cmp, next, age, stack, runs, j)} ::
         i <= j < |runs| ==> SlotOk(cmp, next, age, stack, runs, j))
    && (forall j {:trigger Older(age, runs[j], output)} :: i <= j < |runs| ==> Older(age, runs[j], output))
    && Union(runs[i..]) + multiset(output) == all
  }

  lemma CombineStarts(cmp: Comparator, next: map<Ptr, Ptr>, age: map<Ptr, nat>, stack: seq<Ptr>,
                      runs: seq<seq<Ptr>>, pairs: nat)
    requires Resting(cmp, next, age, stack, runs, NULL, [], pairs)
    ensures Combining(cmp, next, age, stack, runs, 0, NULL, [], Union(runs))
  {
    assert runs[0..] == runs;
  }

  lemma Regroup(a: multiset<Ptr>, b: multiset<Ptr>, c: multiset<Ptr>)
    ensures (a + b) + c == a + (b + c)
  {
  }

  lemma {:induction false} UnionFront(runs: seq<seq<Ptr>>, i: nat)
    requires i < |runs|
    ensures Union(runs[i..]) == multiset(runs[i]) + Union(runs[i + 1..])
    decreases |runs|
  {
    var n := |runs| - 1;
    if i == n {
      assert runs[i..] == [runs[i]] && runs[i..][..0] == [];
    } else {
      UnionFront(runs[..n], i);
      assert runs[i..][..n - i] == runs[..n][i..] && runs[i + 1..][..n - i - 1] == runs[..n][i + 1..];
      Regroup(multiset(runs[i]), Union(runs[..n][i + 1..]), multiset(runs[n]));
    }
  }

  lemma CombineApart(cmp: Comparator, next: map<Ptr, Ptr>, age: map<Ptr, nat>, stack: seq<Ptr>,
                     runs: seq<seq<Ptr>>, i: nat, top: Ptr, output: seq<Ptr>, all: multiset<Ptr>)
    requires Combining(cmp, next, age, stack, runs, i, top, output, all) && i < |runs|
    ensures IsList(next, stack[i], runs[i]) && Apart(runs[i], output) && (stack[i] == NULL <==> runs[i] == [])
    ensures multiset(runs[i]) + multiset(output) <= all && (top == NULL <==> output == [])
  {
    assert SlotOk(cmp, next, age, stack, runs, i) && Older(age, runs[i], output);
    OlderIsApart(age, runs[i], output);
    UnionFront(runs, i);
  }

  lemma CombinedOne(cmp: Comparator, was: map<Ptr, Ptr>, now: map<Ptr, Ptr>, age: map<Ptr, nat>, stack: seq<Ptr>,
                    runs: seq<seq<Ptr>>, i: nat, top0: Ptr, output: seq<Ptr>, top: Ptr, all: multiset<Ptr>)
    returns (merged: seq<Ptr>)
    requires TotalPreorder(cmp) && i < |runs|
    requires Whole(Combining(cmp, was, age, stack, runs, i, top0, output, all))
    requires IsList(now, top, Merge(cmp, runs[i], output)) && Only(was, now, multiset(runs[i]) + multiset(output))
    ensures merged == Merge(cmp, runs[i], output)
    ensures Whole(Combining(cmp, now, age, stack, runs, i + 1, top, merged, all))
  {
    merged := Merge(cmp, runs[i], output);
    CombinedFront(cmp, was, age, stack, runs, i, top0, output, all);
    forall j | i < j < |runs| ensures SlotOk(cmp, now, age, stack, runs, j) && Older(age, runs[j], merged) {
      CombinedSlot(cmp, was, now, age, stack, runs, i, top0, output, all, j);
    }
  }

  lemma CombinedFront(cmp: Comparator, was: map<Ptr, Ptr>, age: map<Ptr, nat>, stack: seq<Ptr>,
                      runs: seq<seq<Ptr>>, i: nat, top0: Ptr, output: seq<Ptr>, all: multiset<Ptr>)
    requires TotalPreorder(cmp) && i < |runs| && Combining(cmp, was, age, stack, runs, i, top0, output, all)
    ensures Ordered(cmp, age, Merge(cmp, runs[i], output))
    ensures Union(runs[i + 1..]) + multiset(Merge(cmp, runs[i], output)) == all
  {
    assert SlotOk(cmp, was, age, stack, runs, i) && Older(age, runs[i], output);
    MergeIsOrdered(cmp, age, runs[i], output);
    UnionFront(runs, i);
    MergeKeeps(cmp, runs[i], output);
  }

  lemma CombinedSlot(cmp: Comparator, was: map<Ptr, Ptr>, now: map<Ptr, Ptr>, age: map<Ptr, nat>, stack: seq<Ptr>,
                     runs: seq<seq<Ptr>>, i: nat, top0: Ptr, output: seq<Ptr>, all: multiset<Ptr>, j: nat)
    requires TotalPreorder(cmp) && i < j < |runs| && Combining(cmp, was, age, stack, runs, i, top0, output, all)
    requires Only(was, now, multiset(runs[i]) + multiset(output))
    ensures SlotOk(cmp, now, age, stack, runs, j) && Older(age, runs[j], Merge(cmp, runs[i], output))
  {
    assert SlotOk(cmp, was, age, stack, runs, i) && SlotOk(cmp, was, age, stack, runs, j);
    assert Older(age, runs[j], output) && Older(age, runs[j], runs[i]);
    OlderIsApart(age, runs[j], output);
    OlderIsApart(age, runs[j], runs[i]);
    OlderThanMerge(cmp, age, runs[i], output, runs[j]);
    SlotStays(cmp, was, now, multiset(runs[i]) + multiset(output), age, stack, runs, stack, runs, j);
  }

  // ---- the whole sort ----

  ghost function Ages(input: seq<Ptr>): map<Ptr, nat>
    requires Proper(input)
  {
    map p | p in input :: Place(input, p)
  }

  ghost function Place(input: seq<Ptr>, p: Ptr): (i: nat)
    requires p in input
    ensures i < |input| && input[i] == p
  {
    var i :| 0 <= i < |input| && input[i] == p;
    i
  }

  lemma AgesAgeing(input: seq<Ptr>)
    requires Proper(input)
    ensures Ageing(Ages(input), input)
  {
  }

  // The first nodes have been taken from the input, two at a time, and are on the stack.
  ghost predicate Progress(cmp: Comparator, first: map<Ptr, Ptr>, next: map<Ptr, Ptr>, input: seq<Ptr>,
                           stack: seq<Ptr>, runs: seq<seq<Ptr>>, at: Ptr, done: nat, pairs: nat)
  {
    && Proper(input) && done <= |input| && Ageing(Ages(input), input[done..])
    && Resting(cmp, next, Ages(input), stack, runs, at, input[done..], pairs)
    && (done == 2 * pairs || (done == 2 * pairs - 1 && done == |input|))
    && Union(runs) + multiset(input[done..]) == multiset(input) && Only(first, next, multiset(input))
  }

  lemma SortStarts(cmp: Comparator, next: map<Ptr, Ptr>, input: seq<Ptr>, top: Ptr)
    requires IsList(next, top, input)
    ensures Progress(cmp, next, next, input, [], [], top, 0, 0)
  {
    AgesAgeing(input);
    assert input[0..] == input;
  }

  lemma SortTurns(cmp: Comparator, first: map<Ptr, Ptr>, next: map<Ptr, Ptr>, input: seq<Ptr>,
                  stack: seq<Ptr>, runs: seq<seq<Ptr>>, at: Ptr, done: nat, pairs: nat)
    requires Progress(cmp, first, next, input, stack, runs, at, done, pairs) && at != NULL
    ensures IsList(next, at, input[done..]) && done < |input| && pairs + 1 <= (|input| + 1) / 2
  {
  }

  // The nodes seen so far, all of them, and the rest make up the input, which has been cut into pairs.
  ghost predicate Cut(first: map<Ptr, Ptr>, next: map<Ptr, Ptr>, input: seq<Ptr>, done: nat, pairs: nat,
                      all: multiset<Ptr>, rest: seq<Ptr>)
  {
    && Proper(input) && done <= |input| && rest == input[done..] && Ageing(Ages(input), rest)
    && (done == 2 * pairs || (done == 2 * pairs - 1 && done == |input|))
    && all + multiset(rest) == multiset(input) && Only(first, next, multiset(input))
  }

  lemma TurnCounts(first: map<Ptr, Ptr>, was: map<Ptr, Ptr>, mid: map<Ptr, Ptr>, input: seq<Ptr>,
                   seen: multiset<Ptr>, rest: seq<Ptr>, run: seq<Ptr>, rest': seq<Ptr>)
    requires Only(first, was, multiset(input)) && Only(was, mid, multiset(run))
    requires seen + multiset(rest) == multiset(input) && multiset(run) + multiset(rest') == multiset(rest)
    ensures (seen + multiset(run)) + multiset(rest') == multiset(input) && Only(first, mid, multiset(input))
  {
    assert (seen + multiset(run)) + multiset(rest') == seen + (multiset(run) + multiset(rest'));
    OnlyThen(first, was, mid, multiset(run), multiset(input));
  }

  lemma TurnEnds(cmp: Comparator, first: map<Ptr, Ptr>, mid: map<Ptr, Ptr>, now: map<Ptr, Ptr>, input: seq<Ptr>,
                 stack: seq<Ptr>, runs: seq<seq<Ptr>>, at: Ptr, done: nat, pairs: nat, all: multiset<Ptr>,
                 rest: seq<Ptr>)
    requires Whole(Cut(first, mid, input, done, pairs, all, rest)) && Only(mid, now, all)
    requires Whole(Resting(cmp, now, Ages(input), stack, runs, at, rest, pairs)) && Union(runs) == all
    ensures Whole(Progress(cmp, first, now, input, stack, runs, at, done, pairs))
  {
    OnlyThen(first, mid, now, all, multiset(input));
  }

  lemma SortCombines(cmp: Comparator, first: map<Ptr, Ptr>, next: map<Ptr, Ptr>, input: seq<Ptr>,
                     stack: seq<Ptr>, runs: seq<seq<Ptr>>, at: Ptr, done: nat, pairs: nat)
    requires Progress(cmp, first, next, input, stack, runs, at, done, pairs) && at == NULL
    ensures Resting(cmp, next, Ages(input), stack, runs, NULL, [], pairs) && Union(runs) == multiset(input)
    ensures Only(first, next, multiset(input))
  {
    assert input[done..] == [];
  }

  lemma OrderedIsStable(cmp: Comparator, input: seq<Ptr>, output: seq<Ptr>)
    requires Proper(input) && Ordered(cmp, Ages(input), output) && multiset(output) == multiset(input)
    ensures IsStableSort(cmp, input, output)
  {
    var age := Ages(input);
    forall i, j | 0 <= i < j < |output|
      ensures cmp(output[i], output[j]) <= 0
      ensures cmp(output[j], output[i]) <= 0 ==> Precedes(input, output[i], output[j])
    {
      var x, y := output[i], output[j];
      assert Less(cmp, age, x, y);
      assert input[age[x]] == x && input[age[y]] == y;
    }
  }

  // A new run starts below all that is on the stack.
  lemma PairStarts(cmp: Comparator, was: map<Ptr, Ptr>, now: map<Ptr, Ptr>, age: map<Ptr, nat>, stack: seq<Ptr>,
                   runs: seq<seq<Ptr>>, rest: seq<Ptr>, n: nat, at0: Ptr, cur: Ptr, run: seq<Ptr>, at: Ptr, pairs: nat,
                   rest': seq<Ptr>, pairs': nat)
    requires Resting(cmp, was, age, stack, runs, at0, rest, pairs) && pairs' == pairs + 1
    requires CutOff(cmp, was, now, age, rest, n, run) && cur == run[0] && at == At(rest, n) && rest' == rest[n..]
    ensures Raising(cmp, now, age, stack, runs, 0, cur, run, at, rest', pairs')
  {
    forall x | x in run || x in rest[n..] ensures x in rest {
      assert x in multiset(run) + multiset(rest[n..]);
    }
    forall j | 0 <= j < |runs|
      ensures SlotOk(cmp, now, age, stack, runs, j) && Older(age, runs[j], run) && Older(age, runs[j], rest[n..])
    {
      assert SlotOk(cmp, was, age, stack, runs, j) && Older(age, runs[j], rest);
      OlderIsApart(age, runs[j], run);
      SlotStays(cmp, was, now, multiset(run), age, stack, runs, stack, runs, j);
    }
  }

  // ---- doubly linked lists ----

  // The node before the i-th, or NULL.
  function Before(xs: seq<Ptr>, i: nat): Ptr
  {
    if 0 < i <= |xs| then xs[i - 1] else NULL
  }

  ghost predicate BackTo(prev: map<Ptr, Ptr>, xs: seq<Ptr>, n: nat)
  {
    n <= |xs| && forall i :: 0 <= i < n ==> xs[i] in prev && prev[xs[i]] == Before(xs, i)
  }

  ghost predicate IsDoubleList(next: map<Ptr, Ptr>, prev: map<Ptr, Ptr>, first: Ptr, last: Ptr, xs: seq<Ptr>)
  {
    IsList(next, first, xs) && BackTo(prev, xs, |xs|) && last == Before(xs, |xs|)
  }

  lemma BackOne(prev: map<Ptr, Ptr>, xs: seq<Ptr>, i: nat, p: Ptr)
    requires Proper(xs) && BackTo(prev, xs, i) && i < |xs| && p == Before(xs, i)
    ensures BackTo(prev[xs[i] := p], xs, i + 1)
  {
  }

  lemma SameNodes(xs: seq<Ptr>, ys: seq<Ptr>)
    requires multiset(xs) == multiset(ys)
    ensures forall p :: p in xs <==> p in ys
  {
    forall p ensures p in xs <==> p in ys {
      assert p in xs <==> p in multiset(xs);
      assert p in ys <==> p in multiset(ys);
    }
  }

  // Stability and order leave no choice: two stable sorts of a list are the same list.
  lemma {:induction false} StableSortIsUnique(cmp: Comparator, xs: seq<Ptr>, ys: seq<Ptr>, zs: seq<Ptr>)
    requires TotalPreorder(cmp) && Proper(xs) && IsStableSort(cmp, xs, ys) && IsStableSort(cmp, xs, zs)
    ensures ys == zs
  {
    var age := Ages(xs);
    StableIsOrdered(cmp, xs, ys);
    StableIsOrdered(cmp, xs, zs);
    OrderedIsUnique(cmp, age, ys, zs);
  }

  lemma StableIsOrdered(cmp: Comparator, xs: seq<Ptr>, ys: seq<Ptr>)
    requires Proper(xs) && IsStableSort(cmp, xs, ys)
    ensures Ordered(cmp, Ages(xs), ys)
  {
    var age := Ages(xs);
    SameNodes(xs, ys);
    forall i, j | 0 <= i < j < |ys| ensures Less(cmp, age, ys[i], ys[j]) {
      assert ys[i] in xs && ys[j] in xs;
      if cmp(ys[j], ys[i]) <= 0 {
        var a, b :| 0 <= a < b < |xs| && xs[a] == ys[i] && xs[b] == ys[j];
        assert age[ys[i]] == a && age[ys[j]] == b;
      }
    }
  }

  lemma SameTails(ys: seq<Ptr>, zs: seq<Ptr>)
    requires ys != [] && zs != [] && ys[0] == zs[0] && multiset(ys) == multiset(zs)
    ensures multiset(ys[1..]) == multiset(zs[1..])
  {
    assert ys == [ys[0]] + ys[1..] && zs == [zs[0]] + zs[1..];
    assert multiset(ys[1..]) == multiset(ys) - multiset{ys[0]};
    assert multiset(zs[1..]) == multiset(zs) - multiset{zs[0]};
  }

  lemma NoLoop(cmp: Comparator, age: map<Ptr, nat>, x: Ptr, y: Ptr)
    ensures !(Less(cmp, age, x, y) && Less(cmp, age, y, x))
  {
  }

  lemma {:induction false} OrderedIsUnique(cmp: Comparator, age: map<Ptr, nat>, ys: seq<Ptr>, zs: seq<Ptr>)
    requires TotalPreorder(cmp) && Ordered(cmp, age, ys) && Ordered(cmp, age, zs) && multiset(ys) == multiset(zs)
    ensures ys == zs
  {
    assert |ys| == |multiset(ys)| == |multiset(zs)| == |zs|;
    if ys != [] {
      SameNodes(ys, zs);
      assert ys[0] in zs && zs[0] in ys;
      NoLoop(cmp, age, ys[0], zs[0]);
      assert ys == [ys[0]] + ys[1..] && zs == [zs[0]] + zs[1..];
      SameTails(ys, zs);
      OrderedIsUnique(cmp, age, ys[1..], zs[1..]);
    }
  }

  class Lists {
    const cmp: Comparator
    var next: map<Ptr, Ptr>
    var prev: map<Ptr, Ptr>

    constructor (cmp: Comparator, next: map<Ptr, Ptr>, prev: map<Ptr, Ptr>)
      ensures this.cmp == cmp && this.next == next && this.prev == prev
    {
      this.cmp, this.next, this.prev := cmp, next, prev;
    }

    // _GSK_MERGE_NONEMPTY_LISTS
    method MergeNonemptyLists(a0: Ptr, b0: Ptr, ghost xs: seq<Ptr>, ghost ys: seq<Ptr>) returns (out: Ptr)
      requires IsList(next, a0, xs) && IsList(next, b0, ys) && Apart(xs, ys) && xs != [] && ys != []
      modifies this`next
      ensures IsList(next, out, Merge(cmp, xs, ys)) && Only(old(next), next, multiset(xs) + multiset(ys))
    {
      ghost var zs, was := Merge(cmp, xs, ys), next;
      MergeKeeps(cmp, xs, ys);
      MergeIsProper(cmp, xs, ys);
      MergeStarts(cmp, next, xs, ys);
      ghost var i: nat, j: nat := 0, 0;
      var a, b := a0, b0;
      if cmp(a, b) <= 0 {
        out := a;
        a := next[a];
        i := 1;
      } else {
        out := b;
        b := next[b];
        j := 1;
      }
      var outAt := out;
      while a != NULL && b != NULL
        invariant Merging(cmp, was, next, xs, ys, i, j) && out == zs[0]
        invariant AtHand(cmp, xs, ys, i, j, a, b, outAt)
        decreases |xs| + |ys| - i - j
      {
        a, b, outAt, i, j := TakeSmaller(a, b, outAt, was, xs, ys, i, j);
      }
      ghost var before := next;
      next := next[outAt := if a != NULL then a else b];
      MergeEnds(cmp, was, before, next, xs, ys, i, j);
    }

    // One turn of the merge.
    method TakeSmaller(a0: Ptr, b0: Ptr, outAt0: Ptr, ghost was: map<Ptr, Ptr>, ghost xs: seq<Ptr>, ghost ys: seq<Ptr>,
                       ghost i0: nat, ghost j0: nat)
      returns (a: Ptr, b: Ptr, outAt: Ptr, ghost i: nat, ghost j: nat)
      requires Proper(xs) && Proper(ys) && Proper(Merge(cmp, xs, ys)) && a0 != NULL && b0 != NULL
      requires Merging(cmp, was, next, xs, ys, i0, j0) && AtHand(cmp, xs, ys, i0, j0, a0, b0, outAt0)
      modifies this`next
      ensures Merging(cmp, was, next, xs, ys, i, j) && AtHand(cmp, xs, ys, i, j, a, b, outAt)
      ensures i + j == i0 + j0 + 1
    {
      ghost var before := next;
      a, b := a0, b0;
      if cmp(a, b) <= 0 {
        next := next[outAt0 := a];
        i, j := MergeOne(cmp, was, before, next, xs, ys, i0, j0, a);
        outAt := a;
        a := next[a];
      } else {
        next := next[outAt0 := b];
        i, j := MergeOne(cmp, was, before, next, xs, ys, i0, j0, b);
        outAt := b;
        b := next[b];
      }
    }

    // The next one or two nodes, cut off and in order.
    method TakePair(at0: Ptr, ghost age: map<Ptr, nat>, ghost rest: seq<Ptr>)
      returns (cur: Ptr, at: Ptr, ghost run: seq<Ptr>, ghost n: nat)
      requires TotalPreorder(cmp) && IsList(next, at0, rest) && Ageing(age, rest) && at0 != NULL
      modifies this`next
      ensures CutOff(cmp, old(next), next, age, rest, n, run) && cur == run[0] && at == At(rest, n)
    {
      ghost var was := next;
      assert Links(next, rest, 0) && (|rest| > 1 ==> Links(next, rest, 1));
      var a := at0;
      at := next[at0];
      if at != NULL {
        var b := at;
        at := next[at];
        n, run := 2, [rest[0], rest[1]];
        if cmp(a, b) > 0 {
          a, b := b, a;
          next := next[a := b];
          next := next[b := NULL];
          run := [rest[1], rest[0]];
        } else {
          next := next[b := NULL];
        }
        PairIsRun(cmp, was, next, age, at0, rest, run);
      } else {
        next := next[a := NULL];
        at := NULL;
        n, run := 1, rest;
        OneIsRun(cmp, was, next, age, at0, rest);
      }
      cur := a;
    }

    // The current run is merged up the stack until it finds an empty slot.
    method MergeUp(stack: array<Ptr>, size0: nat, cur0: Ptr, ghost age: map<Ptr, nat>, ghost runs0: seq<seq<Ptr>>,
                   ghost run0: seq<Ptr>, ghost at: Ptr, ghost rest: seq<Ptr>, ghost pairs: nat,
                   ghost all: multiset<Ptr>)
      returns (size: nat, ghost runs: seq<seq<Ptr>>)
      requires TotalPreorder(cmp) && pairs < Pow2(stack.Length) && size0 <= stack.Length
      requires Raising(cmp, next, age, stack[..size0], runs0, 0, cur0, run0, at, rest, pairs)
      requires Union(runs0) + multiset(run0) == all
      modifies this`next, stack
      ensures size <= stack.Length && runs != [] && Union(runs) == all
      ensures Resting(cmp, next, age, stack[..size], runs, at, rest, pairs) && Only(old(next), next, all)
    {
      var i, cur;
      ghost var run;
      i, cur, run, runs := MergeFull(stack, size0, cur0, age, runs0, run0, at, rest, pairs, all);
      size, runs := Place(stack, size0, i, cur, age, runs, run, at, rest, pairs);
    }

    // Every full slot from the lowest one on is merged with the current run.
    method MergeFull(stack: array<Ptr>, size: nat, cur0: Ptr, ghost age: map<Ptr, nat>, ghost runs0: seq<seq<Ptr>>,
                     ghost run0: seq<Ptr>, ghost at: Ptr, ghost rest: seq<Ptr>, ghost pairs: nat,
                     ghost all: multiset<Ptr>)
      returns (i: nat, cur: Ptr, ghost run: seq<Ptr>, ghost runs: seq<seq<Ptr>>)
      requires TotalPreorder(cmp) && size <= stack.Length
      requires Raising(cmp, next, age, stack[..size], runs0, 0, cur0, run0, at, rest, pairs)
      requires Union(runs0) + multiset(run0) == all
      modifies this`next, stack
      ensures i <= size && (i < size ==> stack[i] == NULL)
      ensures Whole(Raising(cmp, next, age, stack[..size], runs, i, cur, run, at, rest, pairs))
      ensures Union(runs) + multiset(run) == all && Only(old(next), next, all)
    {
      i, cur, run, runs := 0, cur0, run0, runs0;
      ghost var first := next;
      while i < size && stack[i] != NULL
        invariant 0 <= i <= size
        invariant Whole(Raising(cmp, next, age, stack[..size], runs, i, cur, run, at, rest, pairs))
        invariant Union(runs) + multiset(run) == all && Only(first, next, all)
        decreases size - i
      {
        cur, run, runs := MergeSlot(stack, size, i, cur, age, runs, run, at, rest, pairs, all, first);
        i := i + 1;
      }
    }

    // The current run goes to an empty slot, or to a new one.
    method Place(stack: array<Ptr>, size0: nat, i: nat, cur: Ptr, ghost age: map<Ptr, nat>,
                 ghost runs0: seq<seq<Ptr>>, ghost run: seq<Ptr>, ghost at: Ptr, ghost rest: seq<Ptr>, ghost pairs: nat)
      returns (size: nat, ghost runs: seq<seq<Ptr>>)
      requires pairs < Pow2(stack.Length) && i <= size0 <= stack.Length && (i < size0 ==> stack[i] == NULL)
      requires Raising(cmp, next, age, stack[..size0], runs0, i, cur, run, at, rest, pairs)
      modifies stack
      ensures size <= stack.Length && runs != [] && Union(runs) == Union(runs0) + multiset(run)
      ensures Resting(cmp, next, age, stack[..size], runs, at, rest, pairs)
    {
      size, runs := size0, runs0;
      ghost var seen := stack[..size];
      if i == size {
        RaisedToTop(cmp, next, age, seen, runs, i, cur, run, at, rest, pairs, stack.Length);
        Pushed(runs, run);
        stack[size] := cur;
        size, runs := size + 1, runs + [run];
        assert stack[..size] == seen + [cur];
      } else {
        assert SlotOk(cmp, next, age, seen, runs, i);
        RaisedToSlot(cmp, next, age, seen, runs, i, cur, run, at, rest, pairs);
        UnionUpdate(runs, i, run);
        stack[i] := cur;
        runs := runs[i := run];
        assert stack[..size] == seen[i := cur];
      }
    }

    // The run of slot i is merged with the current one, and the slot is emptied.
    method MergeSlot(stack: array<Ptr>, ghost size: nat, i: nat, cur: Ptr, ghost age: map<Ptr, nat>,
                     ghost runs: seq<seq<Ptr>>, ghost run: seq<Ptr>, ghost at: Ptr, ghost rest: seq<Ptr>,
                     ghost pairs: nat, ghost all: multiset<Ptr>, ghost first: map<Ptr, Ptr>)
      returns (out: Ptr, ghost merged: seq<Ptr>, ghost runs': seq<seq<Ptr>>)
      requires TotalPreorder(cmp) && i < size <= stack.Length && stack[i] != NULL
      requires Raising(cmp, next, age, stack[..size], runs, i, cur, run, at, rest, pairs)
      requires Union(runs) + multiset(run) == all && Only(first, next, all)
      modifies this`next, stack
      ensures |runs'| == |runs| && Union(runs') + multiset(merged) == all
      ensures Raising(cmp, next, age, stack[..size], runs', i + 1, out, merged, at, rest, pairs)
      ensures Only(first, next, all)
    {
      ghost var was, seen := next, stack[..size];
      assert SlotOk(cmp, next, age, seen, runs, i);
      assert Older(age, runs[i], run);
      OlderIsApart(age, runs[i], run);
      out := MergeNonemptyLists(stack[i], cur, runs[i], run);
      stack[i] := NULL;
      assert stack[..size] == seen[i := NULL];
      RaisedOne(cmp, was, next, age, seen, runs, i, cur, run, at, rest, pairs, out);
      MergedCounts(cmp, runs, i, run, all);
      OnlyThen(first, was, next, multiset(runs[i]) + multiset(run), all);
      merged, runs' := Merge(cmp, runs[i], run), runs[i := []];
    }

    // All runs are merged into one list, from the youngest to the oldest.
    method Combine(stack: array<Ptr>, size: nat, ghost age: map<Ptr, nat>, ghost runs: seq<seq<Ptr>>, ghost pairs: nat,
                   ghost all: multiset<Ptr>)
      returns (top: Ptr, ghost output: seq<Ptr>)
      requires TotalPreorder(cmp) && size <= stack.Length && Union(runs) == all
      requires Resting(cmp, next, age, stack[..size], runs, NULL, [], pairs)
      modifies this`next
      ensures IsList(next, top, output) && Ordered(cmp, age, output) && multiset(output) == all
      ensures Only(old(next), next, all)
    {
      top, output := NULL, [];
      ghost var first := next;
      CombineStarts(cmp, next, age, stack[..size], runs, pairs);
      for i := 0 to size
        invariant Whole(Combining(cmp, next, age, stack[..size], runs, i, top, output, all))
        invariant Only(first, next, all)
      {
        ghost var was, top0 := next, top;
        CombineApart(cmp, next, age, stack[..size], runs, i, top, output, all);
        top := MergeLists(stack[i], top, runs[i], output);
        OnlyThen(first, was, next, multiset(runs[i]) + multiset(output), all);
        output := CombinedOne(cmp, was, next, age, stack[..size], runs, i, top0, output, top, all);
      }
      assert runs[size..] == [];
    }

    // Two lists, either of which may be empty.
    method MergeLists(a: Ptr, b: Ptr, ghost xs: seq<Ptr>, ghost ys: seq<Ptr>) returns (out: Ptr)
      requires IsList(next, a, xs) && IsList(next, b, ys) && Apart(xs, ys)
      requires (a == NULL <==> xs == []) && (b == NULL <==> ys == [])
      modifies this`next
      ensures IsList(next, out, Merge(cmp, xs, ys)) && Only(old(next), next, multiset(xs) + multiset(ys))
    {
      if a == NULL {
        out := b;
      } else if b == NULL {
        out := a;
      } else {
        out := MergeNonemptyLists(a, b, xs, ys);
      }
    }

    // GSK_STACK_SORT: a stable sort.  The stack of runs never needs more slots than one for every power of two
    // up to the number of pairs of nodes; GSK_LOG2_MAX_LIST_SIZE slots do for every list that fits in memory.
    method StackSort(top0: Ptr, ghost input: seq<Ptr>, slots: nat) returns (top: Ptr, ghost output: seq<Ptr>)
      requires TotalPreorder(cmp) && IsList(next, top0, input) && (|input| + 1) / 2 < Pow2(slots)
      modifies this`next
      ensures IsList(next, top, output) && IsStableSort(cmp, input, output) && Only(old(next), next, multiset(input))
    {
      var stack := new Ptr[slots](_ => NULL);
      var size: nat := 0;
      var at := top0;
      ghost var first, runs := next, [];
      ghost var done: nat, pairs: nat := 0, 0;
      SortStarts(cmp, next, input, top0);
      assert stack[..0] == [];
      while at != NULL
        invariant size <= stack.Length == slots
        invariant Progress(cmp, first, next, input, stack[..size], runs, at, done, pairs)
        decreases |input| - done
      {
        size, at, runs, done, pairs := SortNext(stack, size, at, input, runs, done, pairs, first);
      }
      SortCombines(cmp, first, next, input, stack[..size], runs, at, done, pairs);
      ghost var was := next;
      top, output := Combine(stack, size, Ages(input), runs, pairs, multiset(input));
      OnlyAgain(first, was, next, multiset(input));
      OrderedIsStable(cmp, input, output);
    }

    // One turn: the next pair is cut off, ordered, and merged up the stack.
    method SortNext(stack: array<Ptr>, size0: nat, at0: Ptr, ghost input: seq<Ptr>, ghost runs0: seq<seq<Ptr>>,
                    ghost done0: nat, ghost pairs0: nat, ghost first: map<Ptr, Ptr>)
      returns (size: nat, at: Ptr, ghost runs: seq<seq<Ptr>>, ghost done: nat, ghost pairs: nat)
      requires TotalPreorder(cmp) && (|input| + 1) / 2 < Pow2(stack.Length) && size0 <= stack.Length && at0 != NULL
      requires Progress(cmp, first, next, input, stack[..size0], runs0, at0, done0, pairs0)
      modifies this`next, stack
      ensures size <= stack.Length && done > done0
      ensures Whole(Progress(cmp, first, next, input, stack[..size], runs, at, done, pairs))
    {
      ghost var run, rest, all;
      var cur;
      cur, at, run, rest, done, pairs, all := CutNext(stack[..size0], at0, input, runs0, done0, pairs0, first);
      ghost var mid := next;
      size, runs := MergeUp(stack, size0, cur, Ages(input), runs0, run, at, rest, pairs, all);
      TurnEnds(cmp, first, mid, next, input, stack[..size], runs, at, done, pairs, all, rest);
    }

    // The next pair becomes the current run.
    method CutNext(ghost stack: seq<Ptr>, at0: Ptr, ghost input: seq<Ptr>, ghost runs0: seq<seq<Ptr>>,
                   ghost done0: nat, ghost pairs0: nat, ghost first: map<Ptr, Ptr>)
      returns (cur: Ptr, at: Ptr, ghost run: seq<Ptr>, ghost rest: seq<Ptr>, ghost done: nat, ghost pairs: nat,
               ghost all: multiset<Ptr>)
      requires TotalPreorder(cmp) && at0 != NULL
      requires Progress(cmp, first, next, input, stack, runs0, at0, done0, pairs0)
      modifies this`next
      ensures Whole(Raising(cmp, next, Ages(input), stack, runs0, 0, cur, run, at, rest, pairs))
      ensures Whole(Cut(first, next, input, done, pairs, all, rest)) && done > done0
      ensures all == Union(runs0) + multiset(run)
    {
      ghost var rest0, was := input[done0..], next;
      ghost var n;
      SortTurns(cmp, first, next, input, stack, runs0, at0, done0, pairs0);
      cur, at, run, n := TakePair(at0, Ages(input), rest0);
      all, done, pairs := Union(runs0) + multiset(run), done0 + n, pairs0 + 1;
      rest := input[done..];
      assert rest0[n..] == rest;
      PairStarts(cmp, was, next, Ages(input), stack, runs0, rest0, n, at0, cur, run, at, pairs0, rest, pairs);
      TurnCounts(first, was, next, input, Union(runs0), rest0, run, rest);
    }

    // GSK_LIST_SORT: the list is sorted by its next links, then the prev links and the last node are restored
    method ListSort(first0: Ptr, ghost input: seq<Ptr>) returns (first: Ptr, last: Ptr, ghost output: seq<Ptr>)
      requires TotalPreorder(cmp) && IsList(next, first0, input) && |input| <= Pow2(64)
      requires forall p :: p in input ==> p in prev
      modifies this`next, this`prev
      ensures IsDoubleList(next, prev, first, last, output) && IsStableSort(cmp, input, output)
      ensures Only(old(next), next, multiset(input)) && Only(old(prev), prev, multiset(input))
    {
      assert Pow2(63) < Pow2(64);
      first, output := StackSort(first0, input, LOG2_MAX_LIST_SIZE);
      SameNodes(input, output);
      last := RestorePrev(first, output);
    }

    method RestorePrev(first: Ptr, ghost xs: seq<Ptr>) returns (last: Ptr)
      requires IsList(next, first, xs) && forall p :: p in xs ==> p in prev
      modifies this`prev
      ensures IsDoubleList(next, prev, first, last, xs) && Only(old(prev), prev, multiset(xs))
    {
      ghost var i := 0;
      last := NULL;
      var at := first;
      while at != NULL
        invariant 0 <= i <= |xs| && at == At(xs, i) && last == Before(xs, i)
        invariant BackTo(prev, xs, i) && prev.Keys == old(prev).Keys
        invariant forall p :: p in prev && p !in xs ==> prev[p] == old(prev)[p]
        decreases |xs| - i
      {
        assert Links(next, xs, i);
        BackOne(prev, xs, i, last);
        prev := prev[at := last];
        last := at;
        at := next[at];
        i := i + 1;
      }
    }
  }
}
