/** protobuf_c_message_pack_to_buffer: the packer that appends to a growing buffer. */
module StreamPack {
  import opened Base128
  import opened Basics
  import opened Wire
  import opened Packing
  import opened PackedSize
  import opened InPlacePack

  // ProtobufCBufferSimple: an array of at least one byte, of which the first len are used.
  class BufferSimple {
    var data: array<Byte>
    var len: nat
    var mustFreeData: bool

    ghost predicate Valid()
      reads this
    {
      len <= data.Length && data.Length > 0
    }

    ghost function Contents(): Bytes
      reads this, data
      requires Valid()
    {
      data[..len]
    }

    // PROTOBUF_C_BUFFER_SIMPLE_INIT
    constructor (scratch: array<Byte>)
      requires scratch.Length > 0
      ensures Valid() && Contents() == [] && data == scratch && !mustFreeData
    {
      data, len, mustFreeData := scratch, 0, false;
    }

    // protobuf_c_buffer_simple_append, with an allocator that does not fail
    method Append(bytes: Bytes)
      requires Valid()
      modifies this, data
      ensures Valid() && Contents() == old(Contents()) + bytes
      ensures data == old(data) || (fresh(data) && mustFreeData)
      ensures data == old(data) <==> old(len) + |bytes| <= old(data.Length)
      ensures data == old(data) ==> mustFreeData == old(mustFreeData)
      ensures data != old(data) ==> data.Length >= 2 * old(data.Length)
    {
      var newLen := len + |bytes|;
      ghost var was := Contents();
      if newLen > data.Length {
        var newAlloced := data.Length * 2;
        while newAlloced < newLen
          invariant newAlloced >= 2 * data.Length
        {
          newAlloced := newAlloced + newAlloced;
        }
        var newData := new Byte[newAlloced](_ => 0);
        CopyBytes(newData, 0, data[..len]);
        mustFreeData := true;
        data := newData;
        assert data[..len] == was;
      }
      CopyBytes(data, len, bytes);
      len := newLen;
      assert data[..len] == was + bytes;
    }
  }

  // What a packer does to its buffer: more is appended, and the data may have moved to a new block.
  twostate predicate Appended(buffer: BufferSimple, more: Bytes)
    reads buffer, buffer.data
    requires old(buffer.Valid())
  {
    buffer.Valid() && buffer.Contents() == old(buffer.Contents()) + more
    && (buffer.data == old(buffer.data) || fresh(buffer.data))
  }

  // get_packed_payload_length
  method PackedPayloadLength(S: Schema, f: Field, vs: seq<Value>) returns (rv: nat)
    requires Packable(f.ty) && forall i :: 0 <= i < |vs| ==> TypedValue(S, f, vs[i])
    ensures rv == |Payloads(S, f, vs)|
  {
    rv := 0;
    if Uniform(f.ty) {
      PayloadsBounds(S, f, vs);
      return MinSize(f.ty) * |vs|;
    }
    assert vs[0..] == vs;
    for i := 0 to |vs|
      invariant rv + |Payloads(S, f, vs[i..])| == |Payloads(S, f, vs)|
    {
      PayloadsFront(S, f, vs, i);
      WordElement(S, f, vs[i]);
      WordSizeAgrees(f.ty, vs[i].w);
      rv := rv + WordSize(f.ty, vs[i].w);
    }
  }

  // What a packer has put at the front of a scratch array.
  lemma Front(s: Bytes, bs: Bytes)
    requires |bs| <= |s|
    ensures Splice(s, 0, bs)[..|bs|] == bs
  {
  }

  // pack_buffer_packed_payload
  method PackPackedPayload(S: Schema, f: Field, vs: seq<Value>, buffer: BufferSimple) returns (rv: nat)
    requires Packable(f.ty) && (forall i :: 0 <= i < |vs| ==> TypedValue(S, f, vs[i])) && buffer.Valid()
    modifies buffer, buffer.data
    ensures rv == |Payloads(S, f, vs)| && Appended(buffer, Payloads(S, f, vs))
  {
    var scratch := new Byte[16](_ => 0);
    ghost var was, all, done: Bytes := buffer.Contents(), Payloads(S, f, vs), [];
    rv := 0;
    assert vs[0..] == vs;
    for i := 0 to |vs|
      invariant fresh(scratch) && scratch != buffer.data
      invariant buffer.Valid() && (buffer.data == old(buffer.data) || fresh(buffer.data))
      invariant rv == |done| && all == done + Payloads(S, f, vs[i..]) && buffer.Contents() == was + done
    {
      PayloadsFront(S, f, vs, i);
      WordElement(S, f, vs[i]);
      WordSizeAgrees(f.ty, vs[i].w);
      ghost var next := WordPayload(f.ty, vs[i].w);
      ghost var before := scratch[..];
      Regrouped(all, done, next, Payloads(S, f, vs[i + 1..]));
      var len := WordPack(f.ty, vs[i].w, scratch, 0);
      Front(before, next);
      buffer.Append(scratch[..len]);
      Associates(was, done, next);
      done := done + next;
      rv := rv + len;
    }
  }

  // A tag and a word, or a tag and a length, as one piece.
  method PackHeader(id: nat, wire: nat, n: nat, buffer: BufferSimple) returns (rv: nat)
    requires id < TWO_32 && wire < 8 && n < TWO_32 && buffer.Valid()
    modifies buffer, buffer.data
    ensures rv == |Varint(id * 8 + wire) + Varint(n)| && Appended(buffer, Varint(id * 8 + wire) + Varint(n))
  {
    var scratch := new Byte[20](_ => 0);
    ghost var start := scratch[..];
    TagSizeAgrees(id, wire);
    SizesAgree32(n);
    rv := TagPack(id, wire, scratch, 0);
    ghost var now := scratch[..];
    var k := Uint32Pack(n, scratch, rv);
    WroteMore(start, now, scratch[..], 0, Varint(id * 8 + wire), Varint(n));
    Front(start, Varint(id * 8 + wire) + Varint(n));
    rv := rv + k;
    buffer.Append(scratch[..rv]);
  }

  method PackWord(f: Field, w: nat, buffer: BufferSimple) returns (rv: nat)
    requires f.id < TWO_31 && Packable(f.ty) && (w < if Wide(f.ty) then TWO_64 else TWO_32) && buffer.Valid()
    modifies buffer, buffer.data
    ensures var more := Varint(f.id * 8 + WireOf(f.ty)) + WordPayload(f.ty, w);
            rv == |more| && Appended(buffer, more)
  {
    var scratch := new Byte[20](_ => 0);
    ghost var start := scratch[..];
    TagSizeAgrees(f.id, WireOf(f.ty));
    WordSizeAgrees(f.ty, w);
    rv := TagPack(f.id, WireOf(f.ty), scratch, 0);
    ghost var now := scratch[..];
    var k := WordPack(f.ty, w, scratch, rv);
    WroteMore(start, now, scratch[..], 0, Varint(f.id * 8 + WireOf(f.ty)), WordPayload(f.ty, w));
    Front(start, Varint(f.id * 8 + WireOf(f.ty)) + WordPayload(f.ty, w));
    rv := rv + k;
    buffer.Append(scratch[..rv]);
  }

  // A header and the bytes that it announces.
  method PackPrefixed(id: nat, body: Bytes, buffer: BufferSimple) returns (rv: nat)
    requires id < TWO_32 && |body| < TWO_32 && buffer.Valid()
    modifies buffer, buffer.data
    ensures var more := ItemBytes(Item(id, LENGTH_PREFIXED, Prefixed(body)));
            rv == |more| && Appended(buffer, more)
  {
    ghost var was, tag := buffer.Contents(), Varint(id * 8 + LENGTH_PREFIXED);
    rv := PackHeader(id, LENGTH_PREFIXED, |body|, buffer);
    buffer.Append(body);
    rv := rv + |body|;
    Associates(was, tag + Varint(|body|), body);
    Associates(tag, Varint(|body|), body);
  }

  // required_field_pack_to_buffer; a sub-message is first packed into a buffer of its own
  method RequiredFieldPackToBuffer(S: Schema, f: Field, v: Value, buffer: BufferSimple) returns (rv: nat)
    requires FieldOk(S, f) && TypedValue(S, f, v) && |ItemBytes(ItemFor(S, f, v))| < TWO_32 && buffer.Valid()
    modifies buffer, buffer.data
    ensures rv == |ItemBytes(ItemFor(S, f, v))| && Appended(buffer, ItemBytes(ItemFor(S, f, v)))
    decreases v, 1
  {
    match v
    case Word(w) => rv := PackWord(f, w, buffer);
    case Str(p) => rv := PackPrefixed(f.id, StrBytes(f, p), buffer);
    case Bin(b) => rv := PackPrefixed(f.id, b, buffer);
    case Msg(p) =>
      var packed := PackSubmessage(S, p);
      rv := PackPrefixed(f.id, packed, buffer);
  }

  // A sub-message in a simple buffer on the stack; NULL is packed as an empty one.
  method PackSubmessage(S: Schema, p: MessagePtr) returns (packed: Bytes)
    requires WellFormed(S) && (p.Sub? ==> Typed(S, p.m) && |Encode(S, p.m)| < TWO_32)
    ensures packed == if p.Sub? then Encode(S, p.m) else []
    decreases p, 0
  {
    var scratch := new Byte[256](_ => 0);
    var simple := new BufferSimple(scratch);
    if p.Sub? {
      var sublen := PackToBuffer(S, p.m, simple);
    }
    packed := simple.data[..simple.len];
  }

  // repeated_field_pack_to_buffer
  method RepeatedFieldPackToBuffer(S: Schema, f: Field, vs: seq<Value>, buffer: BufferSimple) returns (rv: nat)
    requires FieldOk(S, f) && f.lbl == REPEATED && TypedMember(S, f, Many(vs)) && buffer.Valid()
    requires |Flatten(MemberItems(S, f, Many(vs)))| < TWO_32
    modifies buffer, buffer.data
    ensures var more := Flatten(MemberItems(S, f, Many(vs)));
            rv == |more| && Appended(buffer, more)
    decreases vs, 2
  {
    if |vs| == 0 {
      return 0;
    }
    if f.packed {
      rv := PackedFieldPackToBuffer(S, f, vs, buffer);
    } else {
      ghost var was, all, done: Bytes := buffer.Contents(), Flatten(ItemsFor(S, f, vs)), [];
      rv := 0;
      assert vs[0..] == vs;
      for i := 0 to |vs|
        invariant buffer.Valid() && (buffer.data == old(buffer.data) || fresh(buffer.data))
        invariant rv == |done| && all == done + Flatten(ItemsFor(S, f, vs[i..])) && buffer.Contents() == was + done
      {
        ItemsFront(S, f, vs, i);
        ghost var next := ItemBytes(ItemFor(S, f, vs[i]));
        Regrouped(all, done, next, Flatten(ItemsFor(S, f, vs[i + 1..])));
        var n := RequiredFieldPackToBuffer(S, f, vs[i], buffer);
        Associates(was, done, next);
        done := done + next;
        rv := rv + n;
      }
    }
  }

  method PackedFieldPackToBuffer(S: Schema, f: Field, vs: seq<Value>, buffer: BufferSimple) returns (rv: nat)
    requires FieldOk(S, f) && f.packed && vs != [] && TypedMember(S, f, Many(vs)) && buffer.Valid()
    requires |Flatten(MemberItems(S, f, Many(vs)))| < TWO_32
    modifies buffer, buffer.data
    ensures var more := Flatten(MemberItems(S, f, Many(vs)));
            rv == |more| && Appended(buffer, more)
  {
    ghost var header, body, all := PackedPieces(S, f, vs, buffer.Contents());
    var payloadLen := PackedPayloadLength(S, f, vs);
    rv := PackHeader(f.id, LENGTH_PREFIXED, payloadLen, buffer);
    var tmp := PackPackedPayload(S, f, vs, buffer);
    assert tmp == payloadLen;
    rv := rv + payloadLen;
  }

  lemma PackedPieces(S: Schema, f: Field, vs: seq<Value>, was: Bytes)
    returns (header: Bytes, body: Bytes, all: Bytes)
    requires f.packed && vs != []
    ensures body == Payloads(S, f, vs) && header == Varint(f.id * 8 + LENGTH_PREFIXED) + Varint(|body|)
    ensures all == Flatten(MemberItems(S, f, Many(vs))) && all == header + body
    ensures (was + header) + body == was + all
  {
    body := Payloads(S, f, vs);
    header, all := Varint(f.id * 8 + LENGTH_PREFIXED) + Varint(|body|), Flatten(MemberItems(S, f, Many(vs)));
    FlattenOne(Item(f.id, LENGTH_PREFIXED, Prefixed(body)));
    Associates(Varint(f.id * 8 + LENGTH_PREFIXED), Varint(|body|), body);
    Associates(was, header, body);
  }

  // The packer of a member, by its label
  method MemberPackToBuffer(S: Schema, f: Field, mem: Member, buffer: BufferSimple) returns (rv: nat)
    requires FieldOk(S, f) && TypedMember(S, f, mem) && |Flatten(MemberItems(S, f, mem))| < TWO_32 && buffer.Valid()
    modifies buffer, buffer.data
    ensures rv == |Flatten(MemberItems(S, f, mem))| && Appended(buffer, Flatten(MemberItems(S, f, mem)))
    decreases mem, 3
  {
    if f.lbl == REPEATED {
      rv := RepeatedFieldPackToBuffer(S, f, mem.vs, buffer);
    } else {
      FlattenOne(ItemFor(S, f, mem.v));
      if f.lbl == OPTIONAL && !Emitted(mem) {
        return 0;
      }
      rv := RequiredFieldPackToBuffer(S, f, mem.v, buffer);
    }
  }

  // unknown_field_pack_to_buffer
  method UnknownFieldPackToBuffer(u: Unknown, buffer: BufferSimple) returns (rv: nat)
    requires u.tag < TWO_32 && u.wire < 8 && buffer.Valid()
    modifies buffer, buffer.data
    ensures rv == |ItemBytes(UnknownItem(u))| && Appended(buffer, ItemBytes(UnknownItem(u)))
  {
    ghost var was := buffer.Contents();
    var header := new Byte[10](_ => 0);
    ghost var start := header[..];
    TagSizeAgrees(u.tag, u.wire);
    rv := TagPack(u.tag, u.wire, header, 0);
    Front(start, Varint(u.tag * 8 + u.wire));
    buffer.Append(header[..rv]);
    buffer.Append(u.data);
    Associates(was, Varint(u.tag * 8 + u.wire), u.data);
    rv := rv + |u.data|;
  }

  // protobuf_c_message_pack_to_buffer: the encoding is appended, whatever the buffer held
  method PackToBuffer(S: Schema, m: Message, buffer: BufferSimple) returns (rv: nat)
    requires WellFormed(S) && Typed(S, m) && |Encode(S, m)| < TWO_32 && buffer.Valid()
    modifies buffer, buffer.data
    ensures rv == |Encode(S, m)| && Appended(buffer, Encode(S, m))
    decreases m, 5
  {
    EncodeParts(S, m);
    ghost var was := buffer.Contents();
    rv := MembersPackToBuffer(S, m, buffer);
    var n := UnknownsPackToBuffer(m.unknown, buffer);
    Associates(was, Flatten(MembersItems(S, S[m.desc], m.members)), Flatten(UnknownItems(m.unknown)));
    rv := rv + n;
  }

  method MembersPackToBuffer(S: Schema, m: Message, buffer: BufferSimple) returns (rv: nat)
    requires WellFormed(S) && Typed(S, m) && buffer.Valid()
    requires |Flatten(MembersItems(S, S[m.desc], m.members))| < TWO_32
    modifies buffer, buffer.data
    ensures var all := Flatten(MembersItems(S, S[m.desc], m.members)); rv == |all| && Appended(buffer, all)
    decreases m.members, 4
  {
    var fs := S[m.desc];
    ghost var was, all, done: Bytes := buffer.Contents(), Flatten(MembersItems(S, fs, m.members)), [];
    rv := 0;
    assert fs[0..] == fs && m.members[0..] == m.members;
    for i := 0 to |fs|
      invariant buffer.Valid() && (buffer.data == old(buffer.data) || fresh(buffer.data))
      invariant rv == |done| && all == done + Flatten(MembersItems(S, fs[i..], m.members[i..]))
      invariant buffer.Contents() == was + done
    {
      MembersFront(S, fs, m.members, i);
      ghost var next := Flatten(MemberItems(S, fs[i], m.members[i]));
      Regrouped(all, done, next, Flatten(MembersItems(S, fs[i + 1..], m.members[i + 1..])));
      var n := MemberPackToBuffer(S, fs[i], m.members[i], buffer);
      Associates(was, done, next);
      done := done + next;
      rv := rv + n;
    }
  }

  method UnknownsPackToBuffer(us: seq<Unknown>, buffer: BufferSimple) returns (rv: nat)
    requires buffer.Valid() && forall i :: 0 <= i < |us| ==> us[i].tag < TWO_32 && us[i].wire < 8
    modifies buffer, buffer.data
    ensures rv == |Flatten(UnknownItems(us))| && Appended(buffer, Flatten(UnknownItems(us)))
  {
    ghost var was, all, done: Bytes := buffer.Contents(), Flatten(UnknownItems(us)), [];
    rv := 0;
    assert us[0..] == us;
    for i := 0 to |us|
      invariant buffer.Valid() && (buffer.data == old(buffer.data) || fresh(buffer.data))
      invariant rv == |done| && all == done + Flatten(UnknownItems(us[i..])) && buffer.Contents() == was + done
    {
      UnknownsFront(us, i);
      ghost var next := ItemBytes(UnknownItem(us[i]));
      Regrouped(all, done, next, Flatten(UnknownItems(us[i + 1..])));
      var n := UnknownFieldPackToBuffer(us[i], buffer);
      Associates(was, done, next);
      done := done + next;
      rv := rv + n;
    }
  }
}
