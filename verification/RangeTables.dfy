/** The tables of number ranges that the code generator writes and the runtime searches. */
module RangeTables {
  import opened Base128
  import opened Basics

  const INT_MAX := 0x7fff_ffff

  datatype IntRange = IntRange(startValue: int, origIndex: nat)

  predicate IsInt(v: int) { -TWO_31 <= v < TWO_31 }

  // 32-bit signed arithmetic that wraps around.
  function Wrap(v: int): (r: int)
    ensures IsInt(r) && (IsInt(v) ==> r == v)
    ensures v == TWO_31 ==> r == -TWO_31
  {
    Signed32(Word32(v))
  }

  predicate Increasing(values: seq<int>)
  {
    && (forall i :: 0 <= i < |values| ==> IsInt(values[i]))
    && forall i, j :: 0 <= i < j < |values| ==> values[i] < values[j]
  }

  // Range r covers the values from its own original index up to that of the next range.
  predicate Covers(ranges: seq<IntRange>, values: seq<int>, r: nat)
    requires r + 1 < |ranges|
  {
    && ranges[r].origIndex < ranges[r + 1].origIndex <= |values|
    && forall k {:trigger values[k]} :: ranges[r].origIndex <= k < ranges[r + 1].origIndex ==>
         values[k] == ranges[r].startValue + (k - ranges[r].origIndex)
  }

  // n ranges and a sentinel that together cover the values.
  predicate IsTable(ranges: seq<IntRange>, n: nat, values: seq<int>)
  {
    if values == [] then n == 0 else
      && |ranges| == n + 1 && n > 0
      && ranges[0].origIndex == 0 && ranges[n].origIndex == |values|
      && forall r :: 0 <= r < n ==> Covers(ranges, values, r)
  }

  // A range begins where the numbers have a gap, so no two ranges could be joined.
  predicate StartsAtGap(range: IntRange, values: seq<int>)
  {
    range.origIndex > 0 ==>
      range.origIndex < |values| && values[range.origIndex - 1] + 1 < values[range.origIndex]
  }

  // The position of a value, or -1.
  function IndexOf(values: seq<int>, v: int): (i: int)
    ensures -1 <= i < |values|
    ensures i >= 0 ==> values[i] == v
    ensures i == -1 ==> v !in values
  {
    if values == [] then -1
    else if values[0] == v then 0
    else
      var k := IndexOf(values[1..], v);
      if k < 0 then -1 else k + 1
  }

  // Ranges are covered the same when only the start value of the sentinel becomes known.
  lemma CoversStill(was: seq<IntRange>, now: seq<IntRange>, values: seq<int>, n: nat)
    requires |was| == n + 1 <= |now|
    requires forall r :: 0 <= r < n ==> was[r] == now[r]
    requires was[n].origIndex == now[n].origIndex
    requires forall r :: 0 <= r < n ==> Covers(was, values, r)
    ensures forall r :: 0 <= r < n ==> Covers(now, values, r)
  {
    forall r | 0 <= r < n ensures Covers(now, values, r) {
      assert Covers(was, values, r);
    }
  }

  // The closed ranges cover the values before rangeStart; the open one has the rest.
  ghost predicate OpenTable(ranges: seq<IntRange>, rangeStart: nat, rangeLen: nat, startValue: int, us: seq<int>)
  {
    && rangeLen > 0 && rangeStart + rangeLen == |us| && IsInt(startValue)
    && (forall k {:trigger us[k]} :: rangeStart <= k < |us| ==> us[k] == startValue + (k - rangeStart))
    && (if ranges == [] then rangeStart == 0 else ranges[0].origIndex == 0)
    && forall r :: 0 <= r < |ranges| ==> Covers(ranges + [IntRange(0, rangeStart)], us, r)
  }

  lemma CoversMore(ranges: seq<IntRange>, us: seq<int>, u: int, r: nat)
    requires r + 1 < |ranges| && Covers(ranges, us, r)
    ensures Covers(ranges, us + [u], r)
  {
  }

  lemma OpenExtends(ranges: seq<IntRange>, rangeStart: nat, rangeLen: nat, startValue: int, us: seq<int>, u: int)
    requires OpenTable(ranges, rangeStart, rangeLen, startValue, us)
    requires us[|us| - 1] + 1 == u
    ensures OpenTable(ranges, rangeStart, rangeLen + 1, startValue, us + [u])
  {
    forall r | 0 <= r < |ranges| ensures Covers(ranges + [IntRange(0, rangeStart)], us + [u], r) {
      CoversMore(ranges + [IntRange(0, rangeStart)], us, u, r);
    }
    assert us[|us| - 1] == startValue + (|us| - 1 - rangeStart);
  }

  lemma OpenCloses(ranges: seq<IntRange>, rangeStart: nat, rangeLen: nat, startValue: int, us: seq<int>, u: int)
    requires OpenTable(ranges, rangeStart, rangeLen, startValue, us) && IsInt(u)
    ensures OpenTable(ranges + [IntRange(startValue, rangeStart)], |us|, 1, u, us + [u])
  {
    var was := ranges + [IntRange(0, rangeStart)];
    var now := ranges + [IntRange(startValue, rangeStart)] + [IntRange(0, |us|)];
    forall r | 0 <= r < |ranges| ensures Covers(was, us + [u], r) {
      CoversMore(was, us, u, r);
    }
    CoversStill(was, now, us + [u], |ranges|);
    assert Covers(now, us + [u], |ranges|);
  }

  // The last range and the sentinel make a table of what was open.
  lemma TableEnds(ranges: seq<IntRange>, rangeStart: nat, rangeLen: nat, startValue: int, us: seq<int>)
    requires OpenTable(ranges, rangeStart, rangeLen, startValue, us)
    ensures IsTable(ranges + [IntRange(startValue, rangeStart)] + [IntRange(0, |us|)], |ranges| + 1, us)
  {
    var now := ranges + [IntRange(startValue, rangeStart)] + [IntRange(0, |us|)];
    CoversStill(ranges + [IntRange(0, rangeStart)], now, us, |ranges|);
    assert Covers(now, us, |ranges|);
  }

  // WriteIntRanges
  method WriteIntRanges(values: seq<int>) returns (ranges: seq<IntRange>, n: nat)
    requires Increasing(values)
    ensures IsTable(ranges, n, values)
    ensures forall r :: 0 <= r < n ==> StartsAtGap(ranges[r], values)
  {
    ranges, n := [], 0;
    if |values| == 0 {
      return;
    }
    var lastRangeStart: nat := 0;
    ghost var k := 1;
    for i := 1 to |values|
      invariant k == i && |ranges| == n && Written(ranges, lastRangeStart, values, k)
    {
      ghost var was, start := ranges, lastRangeStart;
      if values[i - 1] + 1 != values[i] {
        var count := i - lastRangeStart;
        var expected := Wrap(values[i - 1] + 1);
        ranges := ranges + [IntRange(Wrap(expected - count), lastRangeStart)];
        lastRangeStart := i;
        n := n + 1;
      }
      k := WriteStep(was, start, values, i, ranges, lastRangeStart);
    }
    var count := |values| - lastRangeStart;
    var expected := Wrap(values[|values| - 1] + 1);
    ghost var was := ranges;
    ranges := ranges + [IntRange(Wrap(expected - count), lastRangeStart)] + [IntRange(0, |values|)];
    n := n + 1;
    WriteEnd(was, lastRangeStart, values, ranges, n);
  }

  // The ranges written before the i-th value is looked at.
  ghost predicate Written(ranges: seq<IntRange>, lastRangeStart: nat, values: seq<int>, i: nat)
  {
    && lastRangeStart < i <= |values|
    && OpenTable(ranges, lastRangeStart, i - lastRangeStart, values[lastRangeStart], values[..i])
    && StartsAtGap(IntRange(0, lastRangeStart), values)
    && forall r :: 0 <= r < |ranges| ==> StartsAtGap(ranges[r], values)
  }

  lemma WriteStep(ranges: seq<IntRange>, start: nat, values: seq<int>, i: nat, ranges': seq<IntRange>, start': nat)
    returns (k: nat)
    requires Increasing(values) && i < |values| && Written(ranges, start, values, i)
    requires if values[i - 1] + 1 == values[i] then ranges' == ranges && start' == start
             else ranges' == ranges + [IntRange(Wrap(Wrap(values[i - 1] + 1) - (i - start)), start)] && start' == i
    ensures k == i + 1 && Written(ranges', start', values, k)
  {
    k := i + 1;
    assert values[..k] == values[..i] + [values[i]];
    StartValue(values, start, i);
    if values[i - 1] + 1 == values[i] {
      OpenExtends(ranges, start, i - start, values[start], values[..i], values[i]);
    } else {
      OpenCloses(ranges, start, i - start, values[start], values[..i], values[i]);
    }
  }

  lemma WriteEnd(ranges: seq<IntRange>, start: nat, values: seq<int>, all: seq<IntRange>, n: nat)
    requires Increasing(values) && Written(ranges, start, values, |values|) && n == |ranges| + 1
    requires all == ranges + [IntRange(Wrap(Wrap(values[|values| - 1] + 1) - (|values| - start)), start)]
                    + [IntRange(0, |values|)]
    ensures IsTable(all, n, values) && forall r :: 0 <= r < n ==> StartsAtGap(all[r], values)
  {
    assert values[..|values|] == values;
    StartValue(values, start, |values|);
    TableEnds(ranges, start, |values| - start, values[start], values);
  }

  // The start of a range is computed back from its end, also when the end wraps around.
  lemma StartValue(values: seq<int>, start: nat, i: nat)
    requires Increasing(values) && start < i <= |values|
    requires forall k {:trigger values[..i][k]} :: start <= k < i ==> values[..i][k] == values[start] + (k - start)
    ensures Wrap(Wrap(values[i - 1] + 1) - (i - start)) == values[start]
  {
    assert values[..i][i - 1] == values[start] + (i - 1 - start);
  }

  lemma {:induction false} OrigIncreases(ranges: seq<IntRange>, n: nat, values: seq<int>, i: nat, j: nat)
    requires values != [] && IsTable(ranges, n, values) && i < j <= n
    ensures ranges[i].origIndex < ranges[j].origIndex <= |values|
  {
    assert Covers(ranges, values, j - 1);
    if i < j - 1 { OrigIncreases(ranges, n, values, i, j - 1); }
  }

  // The number of values that the search can find: all of them, unless the last range ends in INT_MAX,
  // where the sum of its start and its length wraps around.
  function Reach(ranges: seq<IntRange>, n: nat, values: seq<int>): (k: nat)
    requires IsTable(ranges, n, values)
    ensures k <= |values|
  {
    if values == [] then 0
    else if values[|values| - 1] == INT_MAX then
      assert Covers(ranges, values, n - 1);
      ranges[n - 1].origIndex
    else |values|
  }

  predicate Below(values: seq<int>, upTo: nat, v: int)
  {
    forall k :: 0 <= k < |values| && k < upTo ==> values[k] < v
  }

  predicate Above(values: seq<int>, from: nat, v: int)
  {
    forall k :: from <= k < |values| ==> v < values[k]
  }

  // int_range_lookup
  method IntRangeLookup(n0: nat, ranges: seq<IntRange>, ghost values: seq<int>, value: int) returns (r: int)
    requires Increasing(values) && IsTable(ranges, n0, values) && IsInt(value)
    ensures r == IndexOf(values[..Reach(ranges, n0, values)], value)
  {
    if n0 == 0 {
      return -1;
    }
    var start, n := 0, n0;
    while n > 1
      invariant 0 <= start <= start + n <= n0
      invariant Between(ranges, n0, values, start, n, value)
    {
      var mid := start + n / 2;
      MiddleTells(ranges, n0, values, start, n, value);
      if value < ranges[mid].startValue {
        n := mid - start;
      } else if value >= Wrap(ranges[mid].startValue + (ranges[mid + 1].origIndex - ranges[mid].origIndex)) {
        var newStart := mid + 1;
        n := start + n - newStart;
        start := newStart;
      } else {
        return (value - ranges[mid].startValue) + ranges[mid].origIndex;
      }
    }
    LastTells(ranges, n0, values, start, n, value);
    if n > 0 {
      var startOrigIndex := ranges[start].origIndex;
      var rangeSize := ranges[start + 1].origIndex - startOrigIndex;
      if ranges[start].startValue <= value && value < Wrap(ranges[start].startValue + rangeSize) {
        return (value - ranges[start].startValue) + startOrigIndex;
      }
    }
    r := -1;
  }

  // The value is in none of the ranges outside of the n from start on.
  predicate Between(ranges: seq<IntRange>, n0: nat, values: seq<int>, start: nat, n: nat, value: int)
    requires IsTable(ranges, n0, values) && n0 > 0 && start + n <= n0
  {
    && Below(values[..Reach(ranges, n0, values)], ranges[start].origIndex, value)
    && Above(values, ranges[start + n].origIndex, value)
  }

  // What a comparison with range r says about a value: it is before, after, or at a known position.
  lemma RangeTells(ranges: seq<IntRange>, n0: nat, values: seq<int>, r: nat, value: int)
    requires Increasing(values) && IsTable(ranges, n0, values) && r < n0 && IsInt(value)
    ensures var first, next := ranges[r].origIndex, ranges[r + 1].origIndex;
            var end := Wrap(ranges[r].startValue + (next - first));
            var found := value - ranges[r].startValue + first;
            && (value < ranges[r].startValue ==> Above(values, first, value))
            && (ranges[r].startValue <= value && end <= value ==>
                 Below(values[..Reach(ranges, n0, values)], next, value))
            && (ranges[r].startValue <= value < end ==>
                 IndexOf(values[..Reach(ranges, n0, values)], value) == found)
  {
    RangeEnd(ranges, n0, values, r);
    var first, next := ranges[r].origIndex, ranges[r + 1].origIndex;
    if ranges[r].startValue <= value < Wrap(ranges[r].startValue + (next - first)) {
      assert Covers(ranges, values, r);
      var found := value - ranges[r].startValue + first;
      assert values[found] == value;
      IndexIs(values[..Reach(ranges, n0, values)], found, value);
    }
  }

  lemma MiddleTells(ranges: seq<IntRange>, n0: nat, values: seq<int>, start: nat, n: nat, value: int)
    requires Increasing(values) && IsTable(ranges, n0, values) && IsInt(value)
    requires n0 > 0 && n > 1 && start + n <= n0 && Between(ranges, n0, values, start, n, value)
    ensures var mid := start + n / 2;
            var end := Wrap(ranges[mid].startValue + (ranges[mid + 1].origIndex - ranges[mid].origIndex));
            && (value < ranges[mid].startValue ==> Between(ranges, n0, values, start, mid - start, value))
            && (ranges[mid].startValue <= value && end <= value ==>
                 Between(ranges, n0, values, mid + 1, start + n - (mid + 1), value))
            && (ranges[mid].startValue <= value < end ==>
                 IndexOf(values[..Reach(ranges, n0, values)], value)
                 == value - ranges[mid].startValue + ranges[mid].origIndex)
  {
    RangeTells(ranges, n0, values, start + n / 2, value);
  }

  lemma LastTells(ranges: seq<IntRange>, n0: nat, values: seq<int>, start: nat, n: nat, value: int)
    requires Increasing(values) && IsTable(ranges, n0, values) && IsInt(value)
    requires n0 > 0 && n <= 1 && start + n <= n0 && Between(ranges, n0, values, start, n, value)
    ensures var index := IndexOf(values[..Reach(ranges, n0, values)], value);
            if n > 0 && ranges[start].startValue <= value
                && value < Wrap(ranges[start].startValue + (ranges[start + 1].origIndex - ranges[start].origIndex))
            then index == value - ranges[start].startValue + ranges[start].origIndex
            else index == -1
  {
    var reached := values[..Reach(ranges, n0, values)];
    if n > 0 {
      RangeTells(ranges, n0, values, start, value);
    }
    assert forall k :: 0 <= k < |reached| ==> reached[k] == values[k];
  }

  lemma IndexIs(values: seq<int>, i: nat, v: int)
    requires Increasing(values) && i < |values| && values[i] == v
    ensures IndexOf(values, v) == i
  {
  }

  // Where the end of a range falls, in wrapping arithmetic: past every int only for the one that holds INT_MAX.
  lemma RangeEnd(ranges: seq<IntRange>, n: nat, values: seq<int>, r: nat)
    requires Increasing(values) && values != [] && IsTable(ranges, n, values) && r < n
    ensures var next := ranges[r + 1].origIndex;
            var end := ranges[r].startValue + (next - ranges[r].origIndex);
            && ranges[r].origIndex < next <= |values|
            && values[ranges[r].origIndex] == ranges[r].startValue && values[next - 1] == end - 1
            && (next <= Reach(ranges, n, values) ==> Wrap(end) == end)
            && (next > Reach(ranges, n, values) ==> Wrap(end) == -TWO_31 && r == n - 1)
  {
    assert Covers(ranges, values, r) && Covers(ranges, values, n - 1);
    var next := ranges[r + 1].origIndex;
    assert values[next - 1] == ranges[r].startValue + (next - 1 - ranges[r].origIndex);
    assert values[ranges[r].origIndex] == ranges[r].startValue;
    if r < n - 1 {
      if r + 1 < n - 1 { OrigIncreases(ranges, n, values, r + 1, n - 1); }
      assert values[next - 1] < values[|values| - 1];
    }
  }

  // The search is right for every number exactly when INT_MAX is not one of the values.
  lemma LookupIsRightIff(ranges: seq<IntRange>, n: nat, values: seq<int>)
    requires Increasing(values) && IsTable(ranges, n, values)
    ensures (forall v :: IsInt(v) ==> IndexOf(values[..Reach(ranges, n, values)], v) == IndexOf(values, v))
            <==> INT_MAX !in values
  {
    var reach := Reach(ranges, n, values);
    if INT_MAX in values {
      var i :| 0 <= i < |values| && values[i] == INT_MAX;
      assert i == |values| - 1;
      IndexIs(values, i, INT_MAX);
      assert Covers(ranges, values, n - 1);
      assert IndexOf(values[..reach], INT_MAX) == -1;
    } else {
      assert values[..|values|] == values;
    }
  }

  // ---- enums ----

  datatype ValueIndex = ValueIndex(value: int, index: nat)

  predicate SortedByValue(vs: seq<ValueIndex>)
  {
    && (forall j :: 0 <= j < |vs| ==> IsInt(vs[j].value))
    && forall i, j :: 0 <= i < j < |vs| ==> vs[i].value <= vs[j].value
  }

  // Whether the j-th of the sorted values is not a repetition of the one before.
  predicate Fresh(vs: seq<ValueIndex>, j: nat)
    requires j < |vs|
  {
    j == 0 || vs[j - 1].value != vs[j].value
  }

  // The entries that are not repetitions.
  function Uniquified(vs: seq<ValueIndex>): seq<ValueIndex>
  {
    if vs == [] then []
    else
      var rest := Uniquified(vs[..|vs| - 1]);
      if Fresh(vs, |vs| - 1) then rest + [vs[|vs| - 1]] else rest
  }

  function Values(vs: seq<ValueIndex>): (values: seq<int>)
    ensures |values| == |vs| && forall j :: 0 <= j < |vs| ==> values[j] == vs[j].value
  {
    seq(|vs|, j requires 0 <= j < |vs| => vs[j].value)
  }

  // Without repetitions the numbers increase.
  lemma {:induction false} UniquifiedIncreases(vs: seq<ValueIndex>)
    requires SortedByValue(vs)
    ensures var us := Uniquified(vs);
            Increasing(Values(us)) && (vs != [] ==> us != [] && us[|us| - 1].value == vs[|vs| - 1].value)
  {
    if vs != [] { UniquifiedIncreases(vs[..|vs| - 1]); }
  }

  // They are the first entries of each number.
  lemma {:induction false} UniquifiedAreFirst(vs: seq<ValueIndex>, u: ValueIndex)
    ensures u in Uniquified(vs) <==> exists j :: 0 <= j < |vs| && Fresh(vs, j) && vs[j] == u
  {
    if vs != [] {
      var n := |vs| - 1;
      var front := vs[..n];
      UniquifiedAreFirst(front, u);
      assert forall j :: 0 <= j < n ==> (Fresh(front, j) <==> Fresh(vs, j)) && front[j] == vs[j];
      if j :| 0 <= j < n && Fresh(vs, j) && vs[j] == u {
        assert Fresh(front, j) && front[j] == u;
      }
    }
  }

  // No number is lost.
  lemma {:induction false} UniquifiedKeeps(vs: seq<ValueIndex>, j: nat)
    requires SortedByValue(vs) && j < |vs|
    ensures vs[j].value in Values(Uniquified(vs))
  {
    var front := vs[..|vs| - 1];
    var us := Uniquified(vs);
    UniquifiedIncreases(vs);
    if j < |front| {
      UniquifiedKeeps(front, j);
      var i :| 0 <= i < |Uniquified(front)| && Values(Uniquified(front))[i] == vs[j].value;
      assert Values(us)[i] == vs[j].value;
    } else {
      assert Values(us)[|us| - 1] == vs[j].value;
    }
  }

  // The numbering of the values without repetitions, of GenerateEnumDescriptor.
  method NumberValues(vs: seq<ValueIndex>) returns (finalIndex: seq<nat>, nUnique: nat)
    requires SortedByValue(vs)
    ensures nUnique == |Uniquified(vs)| && |finalIndex| == |vs|
    ensures forall j :: 0 <= j < |vs| ==> finalIndex[j] == IndexOf(Values(Uniquified(vs)), vs[j].value)
  {
    finalIndex, nUnique := [], 0;
    if |vs| > 0 {
      nUnique := 1;
      finalIndex := [0];
      assert vs[..1] == [vs[0]];
      for j := 1 to |vs|
        invariant nUnique == |Uniquified(vs[..j])| > 0 && |finalIndex| == j
        invariant Uniquified(vs[..j])[nUnique - 1].value == vs[j - 1].value
        invariant forall i :: 0 <= i < j ==> finalIndex[i] < nUnique
        invariant forall i :: 0 <= i < j ==> Uniquified(vs[..j])[finalIndex[i]].value == vs[i].value
      {
        assert vs[..j + 1][..j] == vs[..j];
        if vs[j - 1].value != vs[j].value {
          finalIndex := finalIndex + [nUnique];
          nUnique := nUnique + 1;
        } else {
          finalIndex := finalIndex + [nUnique - 1];
        }
      }
    }
    assert vs[..|vs|] == vs;
    UniquifiedIncreases(vs);
    forall j | 0 <= j < |vs| ensures finalIndex[j] == IndexOf(Values(Uniquified(vs)), vs[j].value) {
      IndexIs(Values(Uniquified(vs)), finalIndex[j], vs[j].value);
    }
  }

  // The ranges of GenerateEnumDescriptor, whose numbers are 32-bit words that the printed table reads as ints.
  method EnumRanges(vs: seq<ValueIndex>) returns (ranges: seq<IntRange>, nRanges: nat)
    requires SortedByValue(vs)
    ensures IsTable(ranges, nRanges, Values(Uniquified(vs)))
  {
    ranges, nRanges := [], 0;
    if |vs| == 0 {
      return;
    }
    var rangeStart: nat, rangeLen: nat := 0, 1;
    var rangeStartValue: nat := Word32(vs[0].value);
    var lastValue: nat := rangeStartValue;
    ghost var us := EnumStarts(vs);
    for j := 1 to |vs|
      invariant |ranges| == nRanges && lastValue == Word32(vs[j - 1].value) && rangeStartValue < TWO_32
      invariant Whole(Uniques(vs, j, us))
      invariant Whole(OpenTable(ranges, rangeStart, rangeLen, Signed32(rangeStartValue), us))
    {
      us := EnumStep(ranges, rangeStart, rangeLen, rangeStartValue, vs, j, us);
      if vs[j - 1].value != vs[j].value {
        if (lastValue + 1) % TWO_32 == Word32(vs[j].value) {
          rangeLen := rangeLen + 1;
        } else {
          ranges := ranges + [IntRange(Signed32(rangeStartValue), rangeStart)];
          rangeStartValue := Word32(vs[j].value);
          rangeStart := rangeStart + rangeLen;
          rangeLen := 1;
          nRanges := nRanges + 1;
        }
        lastValue := Word32(vs[j].value);
      }
    }
    assert vs[..|vs|] == vs;
    TableEnds(ranges, rangeStart, rangeLen, Signed32(rangeStartValue), us);
    ranges := ranges + [IntRange(Signed32(rangeStartValue), rangeStart)];
    rangeStart := rangeStart + rangeLen;
    ranges := ranges + [IntRange(0, rangeStart)];
    nRanges := nRanges + 1;
  }

  function Last(us: seq<ValueIndex>): int
    requires us != []
  {
    us[|us| - 1].value
  }

  lemma EnumStarts(vs: seq<ValueIndex>) returns (us: seq<int>)
    requires SortedByValue(vs) && vs != []
    ensures Whole(Uniques(vs, 1, us))
    ensures Whole(OpenTable([], 0, 1, Signed32(Word32(vs[0].value)), us))
  {
    var first := vs[..1];
    assert first[..0] == [] && Fresh(first, 0);
    us := Values(Uniquified(first));
    TwosComplement(0, vs[0].value);
    assert Uniquified(first) == [vs[0]] && us[0] == vs[0].value;
    assert OpenTable([], 0, 1, vs[0].value, us);
  }

  lemma EnumStep(ranges: seq<IntRange>, rangeStart: nat, rangeLen: nat, startValue: nat, vs: seq<ValueIndex>, j: nat,
                 us: seq<int>)
    returns (us': seq<int>)
    requires SortedByValue(vs) && 0 < j < |vs| && Uniques(vs, j, us)
    requires OpenTable(ranges, rangeStart, rangeLen, Signed32(startValue), us)
    ensures Uniques(vs, j + 1, us') && Signed32(Word32(vs[j].value)) == vs[j].value
    ensures if vs[j - 1].value == vs[j].value then us' == us
            else if (Word32(vs[j - 1].value) + 1) % TWO_32 == Word32(vs[j].value) then
              Whole(OpenTable(ranges, rangeStart, rangeLen + 1, Signed32(startValue), us'))
            else
              Whole(OpenTable(ranges + [IntRange(Signed32(startValue), rangeStart)], rangeStart + rangeLen, 1,
                              vs[j].value, us'))
  {
    assert vs[..j + 1][..j] == vs[..j];
    var v := vs[j].value;
    us' := Values(Uniquified(vs[..j + 1]));
    if vs[j - 1].value != v {
      assert us' == us + [v];
      if (Word32(vs[j - 1].value) + 1) % TWO_32 == Word32(v) {
        OpenExtends(ranges, rangeStart, rangeLen, Signed32(startValue), us, v);
      } else {
        OpenCloses(ranges, rangeStart, rangeLen, Signed32(startValue), us, v);
      }
    }
  }

  // The numbers among the first j values, once each; the last of them is that of the last value.
  ghost predicate Uniques(vs: seq<ValueIndex>, j: nat, us: seq<int>)
  {
    && 0 < j <= |vs| && us == Values(Uniquified(vs[..j]))
    && Uniquified(vs[..j]) != [] && Last(Uniquified(vs[..j])) == vs[j - 1].value
  }
}
