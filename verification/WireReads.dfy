/** What single records are read as, also those that no packer writes. */
module WireReads {
  import opened Base128
  import opened Wire
  import opened Decoder
  import opened Framing
  import opened RoundTrip

  function Optional(ty: ProtoType): Field
  {
    Field(1, OPTIONAL, ty, 0, false, NoDefault)
  }

  function Repeated(ty: ProtoType, packed: bool): Field
  {
    Field(1, REPEATED, ty, 0, packed, NoDefault)
  }

  // The bytes of one record, read as a message whose only field is f.
  function ReadOne(f: Field, it: Item): Option<Message>
  {
    Decode([[f]], 0, ItemBytes(it))
  }

  lemma OneIsLexed(it: Item)
    requires LexOk(it)
    ensures Lex(ItemBytes(it)) == Some([it]) && |it.payload| < |ItemBytes(it)|
  {
    LexFlatten([it]);
    FlattenOne(it);
    ValOfVarint(it.tag * 8 + it.wire);
  }

  lemma OneIsApplied(f: Field, it: Item)
    requires f.lbl != REQUIRED && LexOk(it)
    ensures ReadOne(f, it) == Apply([[f]], [f], Message(0, [InitMember(f)], []), it)
  {
    OneIsLexed(it);
    var S, m := [[f]], Message(0, InitMembers([f]), []);
    assert InitMembers([f]) == [InitMember(f)] && [it][1..] == [] && S[0] == [f];
    assert RequiredOk([f], [it]);
    assert m == Message(0, [InitMember(f)], []);
    assert ReadOne(f, it) == ApplyAll(S, S[0], m, [it], |ItemBytes(it)|);
    var r := Apply(S, [f], m, it);
    assert ApplyAll(S, [f], m, [it], |ItemBytes(it)|)
      == if r.None? then None else ApplyAll(S, [f], r.value, [it][1..], |ItemBytes(it)|);
  }

  lemma OneIsParsed(f: Field, it: Item)
    requires f.lbl != REQUIRED && LexOk(it) && it.tag == f.id
    ensures var mem := ParseMember([[f]], f, InitMember(f), it);
            ReadOne(f, it) == if mem.None? then None else Some(Message(0, [mem.value], []))
  {
    OneIsApplied(f, it);
    var mem := ParseMember([[f]], f, InitMember(f), it);
    if mem.Some? { assert [InitMember(f)][0 := mem.value] == [mem.value]; }
  }

  // A record for no field is kept as it is.
  lemma OtherTag(f: Field, it: Item)
    requires f.lbl != REQUIRED && LexOk(it) && it.tag != f.id
    ensures ReadOne(f, it) == Some(Message(0, [InitMember(f)], [Unknown(it.tag, it.wire, it.payload)]))
  {
    OneIsApplied(f, it);
    assert [] + [Unknown(it.tag, it.wire, it.payload)] == [Unknown(it.tag, it.wire, it.payload)];
  }

  // No field but a boolean takes a record of another wire type.
  lemma OtherWireType(ty: ProtoType, it: Item)
    requires ty != BOOL && LexOk(it) && it.tag == 1
    requires it.wire != (if ty in {FIXED32, SFIXED32, FLOAT} then 5
                         else if ty in {FIXED64, SFIXED64, DOUBLE} then 1
                         else if ty in {STRING, BYTES, MESSAGE} then 2 else 0)
    ensures ReadOne(Optional(ty), it) == None
  {
    OneIsParsed(Optional(ty), it);
  }

  // A boolean takes any: it is true if some low seven bits of the payload are not 0, a length included.
  lemma AnyBoolean(it: Item)
    requires LexOk(it) && it.tag == 1
    ensures ReadOne(Optional(BOOL), it) ==
      Some(Message(0, [Flagged(true, Word(if forall i :: 0 <= i < |it.payload| ==> it.payload[i] % 128 == 0 then 0
                                          else 1))], []))
  {
    OneIsParsed(Optional(BOOL), it);
    assert AnyBits(it.payload) <==> !forall i :: 0 <= i < |it.payload| ==> Low7(it.payload[i]) == 0;
  }

  // A number loses the bits that do not fit, and a form may be longer than need be.
  lemma AnyNumber(ty: ProtoType, v: Bytes)
    requires IsVarint(v) && |v| <= 10
    ensures ty in {INT32, UINT32, ENUM} ==> ReadsAs(ty, Item(1, 0, v), Val(v) % TWO_32)
    ensures ty in {INT64, UINT64} ==> ReadsAs(ty, Item(1, 0, v), Val(v) % TWO_64)
  {
    NumberIsCut(v);
    if ty in {INT32, UINT32, ENUM, INT64, UINT64} { NumberIsRead(ty, Item(1, 0, v)); }
  }

  ghost predicate ReadsAs(ty: ProtoType, it: Item, w: nat)
  {
    ReadOne(Optional(ty), it) == Some(Message(0, [Flagged(true, Word(w))], []))
  }

  lemma NumberIsRead(ty: ProtoType, it: Item)
    requires WireOf(ty) == VARINT && ty != BOOL && LexOk(it) && it.tag == 1 && it.wire == 0
    ensures ReadsAs(ty, it, WordOf(ty, Val(it.payload)))
  {
    OneIsParsed(Optional(ty), it);
  }

  lemma NumberIsCut(v: Bytes)
    requires IsVarint(v) && |v| <= 10
    ensures LexOk(Item(1, 0, v))
  {
    VarintPrefixFinds(v, [], 10);
    assert v + [] == v;
  }

  // A number below 128, written in two bytes where one would do.
  lemma LongForm(a: Byte, v: Bytes)
    requires a < 128 && v == [a + 128] + [0x00]
    ensures ReadsAs(UINT32, Item(1, 0, v), a)
  {
    assert v[1..] == [0x00] && [0x00][1..] == [];
    assert Val([0x00]) == Low7(0x00) + 128 * Val([]);
    AnyNumber(UINT32, v);
  }

  // A run of the packed form goes to a repeated field of numbers whether it is declared as packed or not.
  lemma RunIsRead(f: Field, data: Bytes)
    requires f.lbl == REPEATED && f.id == 1 && Packable(f.ty) && |data| < 128
    ensures ReadOne(f, Item(1, 2, [|data|] + data)) ==
      match ParsePacked(f.ty, data) case None => None case Some(vs) => Some(Message(0, [Many(vs)], []))
  {
    var it := Item(1, 2, [|data|] + data);
    assert Prefixed(data) == it.payload by { assert Varint(|data|) == [|data|]; }
    PrefixedParts(data);
    assert Body(it) == data;
    OneIsParsed(f, it);
    var vs := ParsePacked(f.ty, data);
    if vs.Some? { assert [] + vs.value == vs.value; }
  }

  lemma TwoInARun(packed: bool, v: nat, w: nat)
    requires v < 128 && w < 128
    ensures ReadOne(Repeated(UINT32, packed), Item(1, 2, [2] + [v, w])) ==
      Some(Message(0, [Many([Word(v), Word(w)])], []))
  {
    RunIsRead(Repeated(UINT32, packed), [v, w]);
    OneByte(v, [w]);
    OneByte(w, []);
    assert [v] + [w] == [v, w] && [w] + [] == [w];
    assert [Word(v)] + ([Word(w)] + []) == [Word(v), Word(w)];
  }

  lemma OneByte(v: nat, rest: Bytes)
    requires v < 128
    ensures VarintPrefix([v] + rest, 10) == 1 && Val([v]) == v
    ensures ParseVarints(UINT32, [v] + rest) ==
      match ParseVarints(UINT32, rest) case None => None case Some(vs) => Some([Word(v)] + vs)
  {
    var data := [v] + rest;
    assert data[..1] == [v] && data[1..] == rest && [v][1..] == [];
  }

  // A single record goes to a packed field all the same.
  lemma OneForAPackedField(packed: bool, v: nat)
    requires v < 128
    ensures ReadOne(Repeated(UINT32, packed), Item(1, 0, [v])) == Some(Message(0, [Many([Word(v)])], []))
  {
    OneByte(v, []);
    NumberIsCut([v]);
    OneIsParsed(Repeated(UINT32, packed), Item(1, 0, [v]));
    assert [] + [Word(v)] == [Word(v)];
  }

  // A run of booleans is read only if all its bytes are 0 or 1, and one of fixed words only if no part of a word is
  // left over.
  lemma RunsThatFail(packed: bool, ty: ProtoType, data: Bytes)
    requires |data| < 128
    ensures ReadOne(Repeated(BOOL, packed), Item(1, 2, [|data|] + data)) ==
      if exists i :: 0 <= i < |data| && data[i] > 1 then None
      else Some(Message(0, [Many(seq(|data|, i requires 0 <= i < |data| => Word(data[i])))], []))
    ensures ty in {FIXED32, SFIXED32, FLOAT} ==>
      (ReadOne(Repeated(ty, packed), Item(1, 2, [|data|] + data)) == None <==> |data| % 4 != 0)
    ensures ty in {FIXED64, SFIXED64, DOUBLE} ==>
      (ReadOne(Repeated(ty, packed), Item(1, 2, [|data|] + data)) == None <==> |data| % 8 != 0)
  {
    RunIsRead(Repeated(BOOL, packed), data);
    if Packable(ty) { RunIsRead(Repeated(ty, packed), data); }
  }

  // A number without an end, or with its end behind the tenth byte, is refused.
  lemma NoEnd(data: Bytes)
    requires forall i :: 0 <= i < |data| && i < 10 ==> data[i] >= 128
    ensures Lex([0x08] + data) == None
  {
    OneByteKey(data);
    assert VarintPrefix(data, 10) == 0;
    assert PayloadLength(0, data) == 0;
  }

  lemma OneByteKey(data: Bytes)
    ensures var all := [0x08] + data; KeyLength(all) == 1 && Val(all[..1]) == 8 && all[1..] == data
  {
    assert ([0x08] + data)[..1] == [0x08] && [0x08][1..] == [];
  }
}
