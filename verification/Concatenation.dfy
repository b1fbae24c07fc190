/** Unpacking two packed messages one after the other: the last one wins, repeated fields are appended. */
module Concatenation {
  import opened Base128
  import opened Wire
  import opened Decoder
  import opened Framing
  import opened RoundTrip
  import opened RequiredFields
  import opened Unwrapping

  predicate SameShape(a: Member, b: Member)
  {
    (a.Single? <==> b.Single?) && (a.Flagged? <==> b.Flagged?)
  }

  predicate Alike(a: Message, b: Message)
  {
    && a.desc == b.desc && |a.members| == |b.members|
    && forall i :: 0 <= i < |a.members| ==> SameShape(a.members[i], b.members[i])
  }

  // What a later message makes of an earlier one: seen are the records of the later one.
  function Merged(fs: seq<Field>, a: Message, b: Message, seen: seq<Item>): Message
    requires Alike(a, b) && |a.members| == |fs|
  {
    Message(a.desc,
            seq(|fs|, i requires 0 <= i < |fs| =>
              if a.members[i].Many? then Many(a.members[i].vs + b.members[i].vs)
              else if Scanned(fs, seen, i) then b.members[i]
              else a.members[i]),
            a.unknown + b.unknown)
  }

  lemma {:induction false} ApplyBound(S: Schema, fs: seq<Field>, m: Message, items: seq<Item>, x: nat, y: nat)
    requires |m.members| == |fs| && Small(items, x) && Small(items, y)
    ensures ApplyAll(S, fs, m, items, x) == ApplyAll(S, fs, m, items, y)
    decreases |items|
  {
    if items != [] {
      var one := Apply(S, fs, m, items[0]);
      if one.Some? { ApplyBound(S, fs, one.value, items[1..], x, y); }
    }
  }

  lemma ApplyShape(S: Schema, fs: seq<Field>, m: Message, it: Item)
    requires |m.members| == |fs|
    ensures var r := Apply(S, fs, m, it); r.Some? ==> Alike(m, r.value)
  {
  }

  lemma {:induction false} ApplyAllShape(S: Schema, fs: seq<Field>, m: Message, items: seq<Item>, bound: nat)
    requires |m.members| == |fs| && Small(items, bound)
    ensures var r := ApplyAll(S, fs, m, items, bound); r.Some? ==> Alike(m, r.value)
    decreases |items|
  {
    if items != [] {
      ApplyShape(S, fs, m, items[0]);
      var one := Apply(S, fs, m, items[0]);
      if one.Some? { ApplyAllShape(S, fs, one.value, items[1..], bound); }
    }
  }

  // A record has the same outcome on a member that already holds something.
  lemma ParseOver(S: Schema, f: Field, a: Member, b: Member, it: Item)
    requires SameShape(a, b)
    ensures var over := if a.Many? then Many(a.vs + b.vs) else a;
            var r := ParseMember(S, f, b, it);
            ParseMember(S, f, over, it) ==
            if r.None? then None else if a.Many? then Some(Many(a.vs + r.value.vs)) else r
  {
    if a.Many? {
      if IsPackedRun(f, it) {
        var more := ParsePacked(f.ty, Body(it));
        if more.Some? { assert a.vs + b.vs + more.value == a.vs + (b.vs + more.value); }
      } else {
        var v := ParseValue(S, f, it);
        if v.Some? { assert a.vs + b.vs + [v.value] == a.vs + (b.vs + [v.value]); }
      }
    }
  }

  lemma ScannedSnoc(fs: seq<Field>, seen: seq<Item>, it: Item, f: nat)
    ensures Scanned(fs, seen + [it], f) <==> Scanned(fs, seen, f) || FindField(fs, it.tag) == f
  {
    assert (seen + [it])[|seen|] == it;
    assert forall k :: 0 <= k < |seen| ==> (seen + [it])[k] == seen[k];
  }

  lemma ApplyOver(S: Schema, fs: seq<Field>, a: Message, b: Message, seen: seq<Item>, it: Item)
    requires Alike(a, b) && |a.members| == |fs| && Apply(S, fs, b, it).Some?
    ensures Alike(a, Apply(S, fs, b, it).value)
    ensures Apply(S, fs, Merged(fs, a, b, seen), it) == Some(Merged(fs, a, Apply(S, fs, b, it).value, seen + [it]))
  {
    var i := FindField(fs, it.tag);
    var b1 := Apply(S, fs, b, it).value;
    ApplyShape(S, fs, b, it);
    var before := Merged(fs, a, b, seen);
    var after := Merged(fs, a, b1, seen + [it]);
    forall j | 0 <= j < |fs| && j != i ensures before.members[j] == after.members[j] {
      ScannedSnoc(fs, seen, it, j);
    }
    if i < 0 {
      assert before.members == after.members;
      assert a.unknown + b.unknown + [Unknown(it.tag, it.wire, it.payload)] == after.unknown;
    } else {
      ScannedSnoc(fs, seen, it, i);
      ParseOver(S, fs[i], a.members[i], b.members[i], it);
      ParseSame(S, fs[i], before.members[i], b.members[i], it);
      assert before.members[i := after.members[i]] == after.members;
    }
  }

  // A singular member forgets what it held.
  lemma ParseSame(S: Schema, f: Field, a: Member, b: Member, it: Item)
    requires SameShape(a, b)
    ensures !a.Many? ==> ParseMember(S, f, a, it) == ParseMember(S, f, b, it)
  {
  }

  lemma {:induction false} ApplyAllOver(S: Schema, fs: seq<Field>, a: Message, b: Message, seen: seq<Item>,
                                        items: seq<Item>, bound: nat)
    requires Alike(a, b) && |a.members| == |fs| && Small(items, bound) && ApplyAll(S, fs, b, items, bound).Some?
    ensures var last := ApplyAll(S, fs, b, items, bound).value;
            Alike(a, last)
            && ApplyAll(S, fs, Merged(fs, a, b, seen), items, bound) == Some(Merged(fs, a, last, seen + items))
    decreases |items|
  {
    if items == [] {
      assert seen + items == seen;
    } else {
      ApplyOver(S, fs, a, b, seen, items[0]);
      ApplyAllOver(S, fs, a, Apply(S, fs, b, items[0]).value, seen + [items[0]], items[1..], bound);
      assert seen + [items[0]] + items[1..] == seen + items;
    }
  }

  lemma RequiredOkConcat(fs: seq<Field>, a: seq<Item>, b: seq<Item>)
    requires RequiredOk(fs, a)
    ensures RequiredOk(fs, a + b)
  {
    forall f | 0 <= f < |fs| ensures !ReportedMissing(fs, a + b, f) {
      assert !ReportedMissing(fs, a, f);
      assert forall k :: 0 <= k < |a| ==> (a + b)[k] == a[k];
    }
  }

  // Nothing has been read yet: merging changes nothing.
  lemma MergedFresh(fs: seq<Field>, d: nat, a: Message)
    requires a.desc == d && |a.members| == |fs| && Alike(a, Message(d, InitMembers(fs), []))
    ensures Merged(fs, a, Message(d, InitMembers(fs), []), []) == a
  {
    var m := Merged(fs, a, Message(d, InitMembers(fs), []), []);
    forall i | 0 <= i < |fs| ensures m.members[i] == a.members[i] {
      assert !Scanned(fs, [], i);
      if a.members[i].Many? { assert a.members[i].vs + [] == a.members[i].vs; }
    }
    assert m.members == a.members;
    assert a.unknown + [] == a.unknown;
  }

  lemma RecordsMerge(S: Schema, d: nat, a: seq<Item>, b: seq<Item>, n: nat)
    requires d < |S| && Small(a, n) && Small(b, n)
    requires var m := Message(d, InitMembers(S[d]), []);
             ApplyAll(S, S[d], m, a, n).Some? && ApplyAll(S, S[d], m, b, n).Some?
    ensures var m := Message(d, InitMembers(S[d]), []);
            var m1 := ApplyAll(S, S[d], m, a, n).value;
            var m2 := ApplyAll(S, S[d], m, b, n).value;
            Alike(m1, m2) && ApplyAll(S, S[d], m, a + b, n) == Some(Merged(S[d], m1, m2, b))
  {
    var fs := S[d];
    var m := Message(d, InitMembers(fs), []);
    ApplyAllShape(S, fs, m, a, n);
    ApplyAllShape(S, fs, m, b, n);
    var m1 := ApplyAll(S, fs, m, a, n).value;
    MergedFresh(fs, d, m1);
    ApplyAllOver(S, fs, m1, m, [], b, n);
    assert [] + b == b;
    ApplyConcat(S, fs, m, a, b, n);
  }

  // Two messages that unpack also unpack together: singular fields come from the second one if it has them,
  // repeated and unknown fields are appended, sub-messages are replaced rather than merged.
  lemma ConcatenationMerges(S: Schema, d: nat, one: Bytes, two: Bytes)
    requires d < |S| && Decode(S, d, one).Some? && Decode(S, d, two).Some? && |one| + |two| < TWO_32
    ensures Alike(Decode(S, d, one).value, Decode(S, d, two).value)
    ensures Decode(S, d, one + two)
            == Some(Merged(S[d], Decode(S, d, one).value, Decode(S, d, two).value, Lex(two).value))
  {
    var fs := S[d];
    var a, b := Lex(one).value, Lex(two).value;
    var m := Message(d, InitMembers(fs), []);
    var n := |one + two|;
    LexConcat(one, two);
    LexIsOk(one);
    LexIsOk(two);
    RequiredOkConcat(fs, a, b);
    ApplyBound(S, fs, m, a, |one|, n);
    ApplyBound(S, fs, m, b, |two|, n);
    RecordsMerge(S, d, a, b, n);
  }

  // And no length in the concatenation wraps around, so protobuf_c_message_unpack decodes it.
  lemma ConcatenationIsUnwrapped(S: Schema, d: nat, one: Bytes, two: Bytes)
    requires WellFormed(S) && d < |S| && Decode(S, d, one).Some? && Decode(S, d, two).Some? && |one| + |two| < TWO_32
    ensures Unwrapped(S, d, one + two)
  {
    ConcatenationMerges(S, d, one, two);
    DecodedIsUnwrapped(S, d, one + two);
  }
}
