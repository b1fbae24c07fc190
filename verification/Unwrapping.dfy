/** Where the 32-bit sum of a length cannot matter: in everything that decodes, and in everything that was packed. */
module Unwrapping {
  import opened Base128
  import opened Wire
  import opened Decoder
  import opened Framing
  import opened RoundTrip

  // Every record that was read into a message was read into some state of it.
  lemma {:induction false} EachIsApplied(S: Schema, fs: seq<Field>, m: Message, items: seq<Item>, bound: nat, k: nat)
    returns (at: Message)
    requires |m.members| == |fs| && Small(items, bound) && k < |items| && ApplyAll(S, fs, m, items, bound).Some?
    ensures |at.members| == |fs| && Apply(S, fs, at, items[k]).Some?
    decreases |items|
  {
    if k == 0 {
      at := m;
    } else {
      at := EachIsApplied(S, fs, Apply(S, fs, m, items[0]).value, items[1..], bound, k - 1);
    }
  }

  lemma SubmessageDecodes(S: Schema, fs: seq<Field>, at: Message, it: Item)
    requires |at.members| == |fs| && Apply(S, fs, at, it).Some?
    requires var i := FindField(fs, it.tag);
             i >= 0 && fs[i].ty == MESSAGE && !fs[i].packed && fs[i].sub < |S| && it.wire == LENGTH_PREFIXED
    ensures Decode(S, fs[FindField(fs, it.tag)].sub, Body(it)).Some?
  {
    var i := FindField(fs, it.tag);
    assert ParseMember(S, fs[i], at.members[i], it).Some?;
    assert ParseValue(S, fs[i], it).Some?;
  }

  // Bytes that decode hold no length that wraps around, at any depth.
  lemma {:induction false} DecodedIsUnwrapped(S: Schema, d: nat, data: Bytes)
    requires WellFormed(S) && d < |S| && Decode(S, d, data).Some?
    ensures Unwrapped(S, d, data)
    decreases |data|
  {
    LexedIsUnwrapped(data);
    var items := Lex(data).value;
    forall k | 0 <= k < |items| ensures |items[k].payload| < |data| && ItemUnwrapped(S, S[d], items[k]) {
      ItemDecodedIsUnwrapped(S, d, data, k);
    }
  }

  lemma {:induction false} ItemDecodedIsUnwrapped(S: Schema, d: nat, data: Bytes, k: nat)
    requires WellFormed(S) && d < |S| && Decode(S, d, data).Some? && k < |Lex(data).value|
    ensures ItemUnwrapped(S, S[d], Lex(data).value[k])
    decreases |data|, 0
  {
    var fs, items := S[d], Lex(data).value;
    var it := items[k];
    var i := FindField(fs, it.tag);
    if i >= 0 && fs[i].ty == MESSAGE && it.wire == LENGTH_PREFIXED && PrefixLength(it) > 0 {
      assert WellFormedField(S, fs[i]);
      var at := EachIsApplied(S, fs, Message(d, InitMembers(fs), []), items, |data|, k);
      SubmessageDecodes(S, fs, at, it);
      DecodedIsUnwrapped(S, fs[i].sub, Body(it));
    }
  }

  // So the bytes of a message that was packed are unpacked without a length that wraps around.
  lemma PackedIsUnwrapped(S: Schema, m: Message)
    requires Good(S, m) && |Encode(S, m)| < TWO_32
    ensures Unwrapped(S, m.desc, Encode(S, m))
  {
    MessageRoundTrip(S, m);
    DecodedIsUnwrapped(S, m.desc, Encode(S, m));
  }
}
