/** What goes on the wire, byte by byte, for messages of one field. */
module WireBytes {
  import opened Base128
  import opened Wire

  // A program with one descriptor that has one required field, of id 1.
  function Only(ty: ProtoType): Schema
  {
    [[Field(1, REQUIRED, ty, 0, false, NoDefault)]]
  }

  function Holding(v: Value): Message
  {
    Message(0, [Single(v)], [])
  }

  lemma OneRecord(S: Schema, f: Field, mem: Member)
    requires S != [] && S[0] == [f]
    ensures Encode(S, Message(0, [mem], [])) == Flatten(MemberItems(S, f, mem))
  {
    var m := Message(0, [mem], []);
    assert S[0][1..] == [] && m.members[1..] == [];
    assert MembersItems(S, [], []) == [];
    assert MembersItems(S, S[0], m.members) == MemberItems(S, f, mem) + [];
    assert MessageItems(S, m) == MemberItems(S, f, mem);
  }

  // The key of field 1 is one byte with the wire type in its low bits, and the value follows.
  lemma KeyAndPayload(ty: ProtoType, v: Value)
    ensures Encode(Only(ty), Holding(v)) == [8 + WireOf(ty)] + Payload(Only(ty), Only(ty)[0][0], v)
  {
    var f := Only(ty)[0][0];
    OneRecord(Only(ty), f, Single(v));
    FlattenOne(ItemFor(Only(ty), f, v));
    assert Varint(8 + WireOf(ty)) == [8 + WireOf(ty)];
  }

  // The key of a field from 16 on takes two bytes, the low four bits of the number with the wire type first.
  lemma LongKey(it: Item)
    requires 16 <= it.tag < 0x800 && it.wire < 8
    ensures ItemBytes(it) == [it.tag % 16 * 8 + it.wire + 128, it.tag / 16] + it.payload
  {
    var key := it.tag * 8 + it.wire;
    assert Varint(key) == [key % 128 + 128] + Varint(key / 128);
  }

  // A sint32 or sint64 of a small magnitude: 0, -1, 1, -2, 2 are coded as 0, 1, 2, 3, 4.
  lemma SmallSigned(v: int)
    requires -64 <= v < 64
    ensures Encode(Only(SINT32), Holding(Word(if v < 0 then TWO_32 + v else v)))
            == [0x08, if v < 0 then -2 * v - 1 else 2 * v]
    ensures Encode(Only(SINT64), Holding(Word(if v < 0 then TWO_64 + v else v)))
            == [0x08, if v < 0 then -2 * v - 1 else 2 * v]
  {
    KeyAndPayload(SINT32, Word(if v < 0 then TWO_32 + v else v));
    KeyAndPayload(SINT64, Word(if v < 0 then TWO_64 + v else v));
  }

  // A small number of the other varint types is one byte; a boolean is 0 or 1.
  lemma SmallNumber(ty: ProtoType, w: nat)
    requires ty in {INT32, INT64, UINT32, UINT64, ENUM} && w < 128
    ensures Encode(Only(ty), Holding(Word(w))) == [0x08, w]
    ensures Encode(Only(BOOL), Holding(Word(w))) == [0x08, if w == 0 then 0 else 1]
  {
    KeyAndPayload(ty, Word(w));
    KeyAndPayload(BOOL, Word(w));
  }

  // 300 takes two bytes, the low seven bits first.
  lemma TwoByteNumber(ty: ProtoType)
    requires ty in {INT32, INT64, UINT32, UINT64, ENUM}
    ensures Encode(Only(ty), Holding(Word(300))) == [0x08] + [0xac, 0x02]
  {
    KeyAndPayload(ty, Word(300));
    assert Varint(300) == [0xac] + Varint(2);
  }

  // -1 takes ten bytes in both widths.
  lemma MinusOne(ty: ProtoType)
    requires ty in {INT32, INT64}
    ensures Encode(Only(ty), Holding(Word(if ty == INT32 then TWO_32 - 1 else TWO_64 - 1)))
            == [0x08] + (seq(9, _ => 0xff) + [0x01])
  {
    KeyAndPayload(ty, Word(if ty == INT32 then TWO_32 - 1 else TWO_64 - 1));
    assert Pow128(9) == TWO_63 by { Pow128Values(); }
    OnesThen(TWO_64 - 1, 9, 0x01);
  }

  // The largest unsigned word takes five bytes, and so does the last value of an enumeration.
  lemma LargestWord(ty: ProtoType)
    requires ty in {UINT32, ENUM}
    ensures Encode(Only(ty), Holding(Word(TWO_32 - 1))) == [0x08] + (seq(4, _ => 0xff) + [0x0f])
  {
    KeyAndPayload(ty, Word(TWO_32 - 1));
    assert Pow128(4) == 0x1000_0000 by { Pow128Values(); }
    OnesThen(TWO_32 - 1, 4, 0x0f);
  }

  lemma TwiceOrMore(a: nat, b: nat)
    requires a >= 2 && b >= 1
    ensures a * b >= 2
  {
  }

  lemma {:induction false} OnesThen(n: nat, k: nat, last: nat)
    requires n == (last + 1) * Pow128(k) - 1 && 0 < last < 128
    ensures Varint(n) == seq(k, _ => 0xff) + [last]
  {
    if k == 0 {
      assert n == last;
    } else {
      var x := (last + 1) * Pow128(k - 1);
      Pow128Grows(0, k - 1);
      assert (last + 1) * (128 * Pow128(k - 1)) == 128 * x;
      TwiceOrMore(last + 1, Pow128(k - 1));
      OnesThen(n / 128, k - 1, last);
    }
  }

  // Words of fixed width have their low byte first, and keys of their own.
  lemma FixedWords(w: nat, ty: ProtoType)
    requires ty in {FIXED32, SFIXED32, FLOAT}
    ensures Encode(Only(ty), Holding(Word(w)))
            == [0x0d] + [w % 256, w / 0x100 % 256, w / 0x1_0000 % 256, w / 0x100_0000 % 256]
  {
    KeyAndPayload(ty, Word(w));
    FixedBytes32(w);
  }

  lemma WideFixedWords(low: nat, high: nat, ty: ProtoType)
    requires ty in {FIXED64, SFIXED64, DOUBLE} && low < TWO_32
    ensures Encode(Only(ty), Holding(Word(low + TWO_32 * high))) == [0x09] + (Fixed(low, 4) + Fixed(high, 4))
  {
    KeyAndPayload(ty, Word(low + TWO_32 * high));
    assert Pow256(4) == TWO_32;
    FixedFollows(low, high, 4, 4);
  }

  // A short string stops at its NUL, bytes do not, and both come behind their length.
  lemma ShortString(s: Bytes, t: Bytes)
    requires |s| < 128 && forall i :: 0 <= i < |s| ==> s[i] != 0
    ensures Encode(Only(STRING), Holding(Str(Text(s)))) == [0x0a] + ([|s|] + s)
    ensures Encode(Only(STRING), Holding(Str(Text(s + [0] + t)))) == [0x0a] + ([|s|] + s)
  {
    KeyAndPayload(STRING, Str(Text(s)));
    KeyAndPayload(STRING, Str(Text(s + [0] + t)));
    StopsAtNul(s, t);
  }

  lemma ShortBytes(b: Bytes)
    requires |b| < 128
    ensures Encode(Only(BYTES), Holding(Bin(b))) == [0x0a] + ([|b|] + b)
  {
    KeyAndPayload(BYTES, Bin(b));
  }

  lemma {:induction false} StopsAtNul(s: Bytes, t: Bytes)
    requires forall i :: 0 <= i < |s| ==> s[i] != 0
    ensures CStr(s) == s && CStr(s + [0] + t) == s
  {
    if s != [] {
      StopsAtNul(s[1..], t);
      assert (s + [0] + t)[1..] == s[1..] + [0] + t;
    }
  }

  // An optional member is left out if its has-flag is false, or its pointer is NULL or that of the default, even if
  // the default is not empty; otherwise its record is written.
  lemma OptionalMember(S: Schema, f: Field, mem: Member)
    requires S != [] && S[0] == [f] && f.lbl == OPTIONAL
    requires mem.Flagged? || (mem.Single? && (mem.v.Str? || mem.v.Msg?))
    ensures Encode(S, Message(0, [mem], [])) ==
            if mem in {Flagged(false, mem.v), Single(Str(NullStr)), Single(Str(DefaultStr)), Single(Msg(NoMessage))}
            then [] else ItemBytes(ItemFor(S, f, mem.v))
  {
    OneRecord(S, f, mem);
    FlattenOne(ItemFor(S, f, mem.v));
  }

  // A message within a message: both have field 1.
  function Nested(): Schema
  {
    [[Field(1, REQUIRED, MESSAGE, 1, false, NoDefault)], [Field(1, REQUIRED, UINT32, 0, false, NoDefault)]]
  }

  lemma NestedNumber(w: nat)
    requires w < 128
    ensures Encode(Nested(), Holding(Msg(Sub(Message(1, [Single(Word(w))], []))))) == [0x0a] + ([2] + [0x08, w])
  {
    var S, m := Nested(), Message(1, [Single(Word(w))], []);
    var f, g := S[0][0], S[1][0];
    assert S[1][1..] == [] && m.members[1..] == [];
    assert MembersItems(S, [], []) == [];
    assert MembersItems(S, S[1], m.members) == MemberItems(S, g, m.members[0]) + [];
    assert MessageItems(S, m) == [ItemFor(S, g, Word(w))];
    FlattenOne(ItemFor(S, g, Word(w)));
    assert Encode(S, m) == [0x08, w];
    OneRecord(S, f, Single(Msg(Sub(m))));
    FlattenOne(ItemFor(S, f, Msg(Sub(m))));
    assert Varint(2) == [2] && Payload(S, f, Msg(Sub(m))) == Prefixed(Encode(S, m));
  }

  // Two numbers of a repeated field: packed they share a key and a length, otherwise each has a key.
  lemma TwoNumbers(v: nat, w: nat)
    requires v < 128 && w < 128
    ensures var f := Field(1, REPEATED, UINT32, 0, true, NoDefault);
            Encode([[f]], Message(0, [Many([Word(v), Word(w)])], [])) == [0x0a] + ([2] + [v, w])
    ensures var f := Field(1, REPEATED, UINT32, 0, false, NoDefault);
            Encode([[f]], Message(0, [Many([Word(v), Word(w)])], [])) == [0x08, v] + [0x08, w]
  {
    var p, f := Field(1, REPEATED, UINT32, 0, true, NoDefault), Field(1, REPEATED, UINT32, 0, false, NoDefault);
    var vs := [Word(v), Word(w)];
    OneRecord([[p]], p, Many(vs));
    OneRecord([[f]], f, Many(vs));
    TwoPayloads([[p]], p, v, w);
    FlattenOne(Item(1, LENGTH_PREFIXED, Prefixed([v, w])));
    assert Varint(2) == [2] && Varint(0x0a) == [0x0a];
    TwoItems([[f]], f, v, w);
  }

  lemma TwoPayloads(S: Schema, f: Field, v: nat, w: nat)
    requires v < 128 && w < 128 && f.ty == UINT32
    ensures Payloads(S, f, [Word(v), Word(w)]) == [v, w]
  {
    var vs := [Word(v), Word(w)];
    assert vs[1..] == [Word(w)] && vs[1..][1..] == [];
    assert Payloads(S, f, vs[1..]) == [w] + Payloads(S, f, []);
    assert Payloads(S, f, vs) == [v] + Payloads(S, f, vs[1..]);
  }

  lemma SmallItem(S: Schema, f: Field, w: nat)
    requires w < 128 && f.ty == UINT32 && f.id == 1
    ensures ItemBytes(ItemFor(S, f, Word(w))) == [0x08, w]
  {
    assert Varint(8) == [0x08] && Payload(S, f, Word(w)) == [w];
  }

  lemma TwoItems(S: Schema, f: Field, v: nat, w: nat)
    requires v < 128 && w < 128 && f.ty == UINT32 && f.id == 1
    ensures Flatten(ItemsFor(S, f, [Word(v), Word(w)])) == [0x08, v] + [0x08, w]
  {
    var vs, a, b := [Word(v), Word(w)], ItemFor(S, f, Word(v)), ItemFor(S, f, Word(w));
    assert vs[1..] == [Word(w)] && vs[1..][1..] == [];
    assert ItemsFor(S, f, vs[1..]) == [b] + ItemsFor(S, f, []);
    assert ItemsFor(S, f, vs) == [a] + ItemsFor(S, f, vs[1..]);
    SmallItem(S, f, v);
    SmallItem(S, f, w);
    FlattenOne(b);
    assert Flatten([a] + [b]) == ItemBytes(a) + Flatten(([a] + [b])[1..]);
  }

  // The fields are written in the order of the descriptor, and the unknown ones behind them.
  lemma FieldsInOrder(S: Schema, v: nat, w: nat, u: Unknown)
    requires v < 128 && w < 128 && u.tag == 3 && u.wire == 0
    requires S == [[Field(1, REQUIRED, UINT32, 0, false, NoDefault), Field(2, REQUIRED, UINT32, 0, false, NoDefault)]]
    ensures Encode(S, Message(0, [Single(Word(v)), Single(Word(w))], [u]))
            == [0x08, v] + ([0x10, w] + ([0x18] + u.data))
  {
    var fs, ms := S[0], [Single(Word(v)), Single(Word(w))];
    var a, b, c := ItemFor(S, fs[0], Word(v)), ItemFor(S, fs[1], Word(w)), Item(3, 0, u.data);
    assert fs[1..] == [fs[1]] && ms[1..] == [ms[1]] && fs[1..][1..] == [] && ms[1..][1..] == [];
    assert MembersItems(S, fs[1..], ms[1..]) == [b] + MembersItems(S, [], []);
    assert MembersItems(S, fs, ms) == [a] + [b];
    assert MessageItems(S, Message(0, ms, [u])) == ([a] + [b]) + [c];
    FlattenConcat([a] + [b], [c]);
    FlattenConcat([a], [b]);
    FlattenOne(a);
    FlattenOne(b);
    FlattenOne(c);
    assert Varint(8) == [0x08] && Varint(16) == [0x10] && Varint(24) == [0x18];
    assert Payload(S, fs[0], Word(v)) == [v] && Payload(S, fs[1], Word(w)) == [w];
  }
}
