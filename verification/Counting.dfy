/** The scan pass counts the elements of repeated fields; the parse pass writes that many and never more. */
module Counting {
  import opened Base128
  import opened Wire
  import opened Decoder
  import opened Framing
  import opened RoundTrip

  // max_b128_numbers
  method MaxB128Numbers(data: Bytes) returns (rv: nat)
    ensures rv == ClearTopBits(data)
  {
    rv := 0;
    for i := 0 to |data|
      invariant rv == ClearTopBits(data[..i])
    {
      assert data[..i + 1][..i] == data[..i];
      if data[i] < 128 {
        rv := rv + 1;
      }
    }
    assert data[..|data|] == data;
  }

  // The number of bytes with a clear top bit.
  function ClearTopBits(data: Bytes): nat
  {
    if data == [] then 0
    else ClearTopBits(data[..|data| - 1]) + if data[|data| - 1] < 128 then 1 else 0
  }

  // count_packed_elements
  method CountPackedElements(ty: ProtoType, data: Bytes) returns (count: Option<nat>)
    ensures count == CountPacked(ty, data)
  {
    match ty
    case SFIXED32 | FIXED32 | FLOAT => count := if |data| % 4 != 0 then None else Some(|data| / 4);
    case SFIXED64 | FIXED64 | DOUBLE => count := if |data| % 8 != 0 then None else Some(|data| / 8);
    case BOOL => count := Some(|data|);
    case STRING | BYTES | MESSAGE => count := None;
    case _ =>
      var n := MaxB128Numbers(data);
      count := Some(n);
  }

  function CountPacked(ty: ProtoType, data: Bytes): Option<nat>
  {
    if !Packable(ty) then None
    else if ty == BOOL then Some(|data|)
    else if WireOf(ty) == BITS32 then if |data| % 4 == 0 then Some(|data| / 4) else None
    else if WireOf(ty) == BITS64 then if |data| % 8 == 0 then Some(|data| / 8) else None
    else Some(ClearTopBits(data))
  }

  lemma {:induction false} ClearTopBitsConcat(a: Bytes, b: Bytes)
    ensures ClearTopBits(a + b) == ClearTopBits(a) + ClearTopBits(b)
  {
    if b == [] {
      assert a + b == a;
    } else {
      assert (a + b)[..|a + b| - 1] == a + b[..|b| - 1];
      ClearTopBitsConcat(a, b[..|b| - 1]);
    }
  }

  // One varint has one clear top bit.
  lemma {:induction false} OneVarint(v: Bytes)
    requires IsVarint(v)
    ensures ClearTopBits(v) == 1
  {
    NoClearBits(v[..|v| - 1]);
  }

  lemma {:induction false} NoClearBits(v: Bytes)
    requires forall i :: 0 <= i < |v| ==> v[i] >= 128
    ensures ClearTopBits(v) == 0
  {
    if v != [] { NoClearBits(v[..|v| - 1]); }
  }

  lemma {:induction false} VarintsCounted(ty: ProtoType, data: Bytes)
    ensures var r := ParseVarints(ty, data); r.Some? ==> |r.value| == ClearTopBits(data)
    decreases |data|
  {
    var s := VarintPrefix(data, 10);
    if data != [] && s > 0 {
      assert data == data[..s] + data[s..];
      ClearTopBitsConcat(data[..s], data[s..]);
      OneVarint(data[..s]);
      VarintsCounted(ty, data[s..]);
    }
  }

  lemma {:induction false} FixedsCounted(k: nat, data: Bytes)
    requires k == 4 || k == 8
    ensures |ParseFixeds(k, data)| == |data| / k
    decreases |data|
  {
    if |data| >= k {
      FixedsCounted(k, data[k..]);
      QuotientStep(|data|, k);
    }
  }

  lemma QuotientStep(n: nat, k: nat)
    requires (k == 4 || k == 8) && k <= n
    ensures n / k == (n - k) / k + 1
  {
  }

  // Whatever the second pass reads from a packed run was counted by the first one, no more and no less.
  lemma CountedIsParsed(ty: ProtoType, data: Bytes)
    ensures var vs := ParsePacked(ty, data); vs.Some? ==> CountPacked(ty, data) == Some(|vs.value|)
  {
    VarintsCounted(ty, data);
    FixedsCounted(4, data);
    FixedsCounted(8, data);
  }

  // ---- over the records of a message ----

  // The elements that a record adds to a repeated field.
  function CountOf(f: Field, it: Item): Option<nat>
  {
    if IsPackedRun(f, it) then CountPacked(f.ty, Body(it)) else Some(1)
  }

  predicate Countable(fs: seq<Field>, it: Item)
  {
    var i := FindField(fs, it.tag);
    i >= 0 && fs[i].lbl == REPEATED ==> CountOf(fs[i], it).Some?
  }

  // The elements counted for field i.
  function Elements(fs: seq<Field>, items: seq<Item>, i: nat): nat
    requires i < |fs|
  {
    if items == [] then 0
    else Elements(fs, items[..|items| - 1], i) + ElementsIn(fs, items[|items| - 1], i)
  }

  function ElementsIn(fs: seq<Field>, it: Item, i: nat): nat
    requires i < |fs|
  {
    if FindField(fs, it.tag) == i && CountOf(fs[i], it).Some? then CountOf(fs[i], it).value else 0
  }

  function Unknowns(fs: seq<Field>, items: seq<Item>): nat
  {
    if items == [] then 0
    else Unknowns(fs, items[..|items| - 1]) + if FindField(fs, items[|items| - 1].tag) == -1 then 1 else 0
  }

  lemma {:induction false} CountsGrow(fs: seq<Field>, items: seq<Item>, k: nat, i: nat)
    requires k <= |items|
    ensures i < |fs| ==> Elements(fs, items[..k], i) <= Elements(fs, items, i)
    ensures Unknowns(fs, items[..k]) <= Unknowns(fs, items)
  {
    if k < |items| {
      var n := |items| - 1;
      assert items[..n][..k] == items[..k];
      CountsGrow(fs, items[..n], k, i);
    } else {
      assert items[..k] == items;
    }
  }

  // In a message whose repeated members are filled, the lengths are the counts.
  predicate Filled(fs: seq<Field>, m: Message, items: seq<Item>)
  {
    && |m.members| == |fs| && |m.unknown| == Unknowns(fs, items)
    && forall i :: 0 <= i < |fs| && fs[i].lbl == REPEATED ==>
         m.members[i].Many? && |m.members[i].vs| == Elements(fs, items, i)
  }

  lemma FilledStep(S: Schema, fs: seq<Field>, m: Message, items: seq<Item>, it: Item)
    requires Filled(fs, m, items) && Apply(S, fs, m, it).Some?
    ensures Filled(fs, Apply(S, fs, m, it).value, items + [it])
  {
    assert (items + [it])[..|items|] == items;
    var i := FindField(fs, it.tag);
    if i >= 0 { CountedIsParsed(fs[i].ty, Body(it)); }
  }

  // On success every repeated field holds exactly the number of elements that was counted for it,
  // after every record: never more than what was allocated.
  lemma {:induction false} CountingAgrees(S: Schema, d: nat, items: seq<Item>, bound: nat, k: nat)
    requires d < |S| && k <= |items| && Small(items, bound)
    ensures var r := ApplyAll(S, S[d], Message(d, InitMembers(S[d]), []), items[..k], bound);
            r.Some? ==> Filled(S[d], r.value, items[..k])
    ensures forall i :: 0 <= i < |S[d]| ==> Elements(S[d], items[..k], i) <= Elements(S[d], items, i)
    decreases k
  {
    var fs := S[d];
    var m := Message(d, InitMembers(fs), []);
    forall i | 0 <= i < |fs| ensures Elements(fs, items[..k], i) <= Elements(fs, items, i) {
      CountsGrow(fs, items, k, i);
    }
    if k > 0 {
      var it := items[k - 1];
      CountingAgrees(S, d, items, bound, k - 1);
      assert items[..k] == items[..k - 1] + [it];
      ApplyConcat(S, fs, m, items[..k - 1], [it], bound);
      ApplyOne(S, fs, m, items[..k - 1], it, bound);
      var r := ApplyAll(S, fs, m, items[..k - 1], bound);
      if r.Some? && Apply(S, fs, r.value, it).Some? {
        FilledStep(S, fs, r.value, items[..k - 1], it);
      }
    }
  }

  // The same for the bytes of a message: where no length wraps around, its records are those that are counted.
  lemma CountsMatch(S: Schema, d: nat, data: Bytes, k: nat)
    requires d < |S| && !Wraps(data) && Lex(data).Some? && k <= |Lex(data).value|
    ensures var items := Lex(data).value;
            var r := ApplyAll(S, S[d], Message(d, InitMembers(S[d]), []), items[..k], |data|);
            && (r.Some? ==> Filled(S[d], r.value, items[..k]))
            && forall i :: 0 <= i < |S[d]| ==> Elements(S[d], items[..k], i) <= Elements(S[d], items, i)
  {
    CountingAgrees(S, d, Lex(data).value, |data|, k);
  }

  lemma ApplyOne(S: Schema, fs: seq<Field>, m: Message, items: seq<Item>, it: Item, bound: nat)
    requires |m.members| == |fs| && Small(items + [it], bound) && Small(items, bound)
    ensures var r := ApplyAll(S, fs, m, items, bound);
            ApplyAll(S, fs, m, items + [it], bound) == if r.None? then None else Apply(S, fs, r.value, it)
  {
    assert (items + [it])[|items|] == it;
    ApplyConcat(S, fs, m, items, [it], bound);
    assert [it][1..] == [];
  }

  // A record that cannot be counted cannot be read either.
  lemma UncountableFails(S: Schema, fs: seq<Field>, m: Message, it: Item)
    requires |m.members| == |fs| && !Countable(fs, it)
    requires forall i :: 0 <= i < |fs| && fs[i].lbl == REPEATED ==> m.members[i].Many?
    ensures Apply(S, fs, m, it).None?
  {
    var i := FindField(fs, it.tag);
    CountedIsParsed(fs[i].ty, Body(it));
  }
}
