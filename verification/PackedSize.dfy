/** protobuf_c_message_get_packed_size: the sum of the sizes of the parts is the length of the encoding. */
module PackedSize {
  import opened Base128
  import opened Wire

  // ---- taking the first part off ----

  lemma PayloadsFront(S: Schema, f: Field, vs: seq<Value>, i: nat)
    requires i < |vs|
    ensures Payloads(S, f, vs[i..]) == Payload(S, f, vs[i]) + Payloads(S, f, vs[i + 1..])
  {
    assert vs[i..][1..] == vs[i + 1..];
  }

  lemma ItemsFront(S: Schema, f: Field, vs: seq<Value>, i: nat)
    requires i < |vs|
    ensures Flatten(ItemsFor(S, f, vs[i..])) == ItemBytes(ItemFor(S, f, vs[i])) + Flatten(ItemsFor(S, f, vs[i + 1..]))
  {
    assert vs[i..][1..] == vs[i + 1..];
    assert ([ItemFor(S, f, vs[i])] + ItemsFor(S, f, vs[i + 1..]))[1..] == ItemsFor(S, f, vs[i + 1..]);
  }

  lemma MembersFront(S: Schema, fs: seq<Field>, ms: seq<Member>, i: nat)
    requires |fs| == |ms| && i < |fs|
    ensures Flatten(MembersItems(S, fs[i..], ms[i..])) ==
            Flatten(MemberItems(S, fs[i], ms[i])) + Flatten(MembersItems(S, fs[i + 1..], ms[i + 1..]))
  {
    assert fs[i..][1..] == fs[i + 1..] && ms[i..][1..] == ms[i + 1..];
    FlattenConcat(MemberItems(S, fs[i], ms[i]), MembersItems(S, fs[i + 1..], ms[i + 1..]));
  }

  lemma UnknownsFront(us: seq<Unknown>, i: nat)
    requires i < |us|
    ensures Flatten(UnknownItems(us[i..])) == ItemBytes(UnknownItem(us[i])) + Flatten(UnknownItems(us[i + 1..]))
  {
    assert UnknownItems(us[i..]) == [UnknownItem(us[i])] + UnknownItems(us[i + 1..]);
    assert ([UnknownItem(us[i])] + UnknownItems(us[i + 1..]))[1..] == UnknownItems(us[i + 1..]);
  }

  lemma EncodeParts(S: Schema, m: Message)
    requires Typed(S, m)
    ensures Encode(S, m) == Flatten(MembersItems(S, S[m.desc], m.members)) + Flatten(UnknownItems(m.unknown))
  {
    FlattenConcat(MembersItems(S, S[m.desc], m.members), UnknownItems(m.unknown));
  }

  // Each element takes its tag and its payload.
  lemma {:induction false} ItemsSize(S: Schema, f: Field, vs: seq<Value>)
    requires f.id < TWO_31
    ensures |Flatten(ItemsFor(S, f, vs))| == TagSize(f.id) * |vs| + |Payloads(S, f, vs)|
  {
    if vs != [] {
      var rest := ItemsFor(S, f, vs[1..]);
      assert ([ItemFor(S, f, vs[0])] + rest)[1..] == rest;
      ItemsSize(S, f, vs[1..]);
      TagSizeAgrees(f.id, WireOf(f.ty));
      Distribute(TagSize(f.id), |vs|);
    }
  }

  lemma Distribute(t: nat, n: nat)
    requires n > 0
    ensures t * n == t + t * (n - 1)
  {
  }

  // ---- sizes ----

  // The size of a number, as required_field_get_packed_size has it.
  function WordSize(ty: ProtoType, w: nat): nat
  {
    match ty
    case SINT32 => Uint32Size(Zigzag(Signed32(w)))
    case INT32 => Int32Size(w)
    case UINT32 | ENUM => Uint32Size(w)
    case SINT64 => Uint64Size(Zigzag(Signed64(w)))
    case INT64 | UINT64 => Uint64Size(w)
    case SFIXED32 | FIXED32 | FLOAT => 4
    case SFIXED64 | FIXED64 | DOUBLE => 8
    case BOOL => 1
    case _ => 0
  }

  lemma WordSizeAgrees(ty: ProtoType, w: nat)
    requires Packable(ty) && w < if Wide(ty) then TWO_64 else TWO_32
    ensures WordSize(ty, w) == |WordPayload(ty, w)| <= 10
    ensures WireOf(ty) == BITS32 ==> |WordPayload(ty, w)| == 4
    ensures WireOf(ty) == BITS64 ==> |WordPayload(ty, w)| == 8
  {
    TwosComplement(w, 0);
    ZigzagBijection(Signed32(w), 0);
    ZigzagBijection(Signed64(w), 0);
    FixedRoundTrip(w, 4);
    FixedRoundTrip(w, 8);
    if Wide(ty) {
      SizesAgree64(w);
      SizesAgree64(Zigzag(Signed64(w)));
    } else {
      SizesAgree32(w);
      SizesAgree32(Zigzag(Signed32(w)));
    }
  }

  // get_type_min_size
  function MinSize(ty: ProtoType): nat
  {
    if WireOf(ty) == BITS32 then 4 else if WireOf(ty) == BITS64 then 8 else 1
  }

  // Whether all values of the type have the same size.
  predicate Uniform(ty: ProtoType)
  {
    WireOf(ty) == BITS32 || WireOf(ty) == BITS64 || ty == BOOL
  }

  // An element of a packed field takes at least the minimum size of its type, and at most ten bytes.
  lemma {:induction false} PayloadsBounds(S: Schema, f: Field, vs: seq<Value>)
    requires Packable(f.ty) && forall i :: 0 <= i < |vs| ==> TypedValue(S, f, vs[i])
    ensures MinSize(f.ty) * |vs| <= |Payloads(S, f, vs)| <= 10 * |vs|
    ensures Uniform(f.ty) ==> |Payloads(S, f, vs)| == MinSize(f.ty) * |vs|
  {
    if vs != [] {
      assert TypedValue(S, f, vs[0]);
      WordSizeAgrees(f.ty, vs[0].w);
      PayloadsBounds(S, f, vs[1..]);
    }
  }

  predicate FieldOk(S: Schema, f: Field)
  {
    WellFormed(S) && WellFormedField(S, f)
  }

  // The size of a value without its tag.
  method PayloadSize(S: Schema, f: Field, v: Value) returns (rv: nat)
    requires FieldOk(S, f) && TypedValue(S, f, v) && |Payload(S, f, v)| < TWO_32
    ensures rv == |Payload(S, f, v)|
    decreases v, 0
  {
    match v
    case Word(w) =>
      WordSizeAgrees(f.ty, w);
      rv := WordSize(f.ty, w);
    case Str(p) =>
      var len := |StrBytes(f, p)|;
      SizesAgree32(len);
      rv := Uint32Size(len) + len;
    case Bin(b) =>
      SizesAgree32(|b|);
      rv := Uint32Size(|b|) + |b|;
    case Msg(p) =>
      var subrv := 0;
      if p.Sub? {
        subrv := GetPackedSize(S, p.m);
      }
      SizesAgree32(subrv);
      rv := Uint32Size(subrv) + subrv;
  }

  // required_field_get_packed_size
  method RequiredFieldSize(S: Schema, f: Field, v: Value) returns (rv: nat)
    requires FieldOk(S, f) && TypedValue(S, f, v) && |ItemBytes(ItemFor(S, f, v))| < TWO_32
    ensures rv == |ItemBytes(ItemFor(S, f, v))|
    decreases v, 1
  {
    TagSizeAgrees(f.id, WireOf(f.ty));
    var size := PayloadSize(S, f, v);
    rv := TagSize(f.id) + size;
  }

  // repeated_field_get_packed_size
  method RepeatedFieldSize(S: Schema, f: Field, vs: seq<Value>) returns (rv: nat)
    requires FieldOk(S, f) && f.lbl == REPEATED && TypedMember(S, f, Many(vs))
    requires |Flatten(MemberItems(S, f, Many(vs)))| < TWO_32
    ensures rv == |Flatten(MemberItems(S, f, Many(vs)))|
    decreases vs, 2
  {
    if |vs| == 0 {
      return 0;
    }
    RepeatedParts(S, f, vs);
    if Uniform(f.ty) {
      PayloadsBounds(S, f, vs);
      rv := MinSize(f.ty) * |vs|;
    } else {
      rv := ElementsSize(S, f, vs);
    }
    var headerSize := TagSize(f.id);
    if f.packed {
      SizesAgree32(rv);
      headerSize := headerSize + Uint32Size(rv);
    } else {
      headerSize := headerSize * |vs|;
    }
    rv := headerSize + rv;
  }

  method ElementsSize(S: Schema, f: Field, vs: seq<Value>) returns (rv: nat)
    requires FieldOk(S, f) && (forall i :: 0 <= i < |vs| ==> TypedValue(S, f, vs[i])) && |Payloads(S, f, vs)| < TWO_32
    ensures rv == |Payloads(S, f, vs)|
    decreases vs, 1
  {
    rv := 0;
    assert vs[0..] == vs;
    for i := 0 to |vs|
      invariant rv + |Payloads(S, f, vs[i..])| == |Payloads(S, f, vs)|
    {
      PayloadsFront(S, f, vs, i);
      var size := PayloadSize(S, f, vs[i]);
      rv := rv + size;
    }
  }

  lemma RepeatedParts(S: Schema, f: Field, vs: seq<Value>)
    requires f.id < TWO_31 && vs != []
    ensures |Flatten(MemberItems(S, f, Many(vs)))| ==
            if f.packed then TagSize(f.id) + |Varint(|Payloads(S, f, vs)|)| + |Payloads(S, f, vs)|
            else TagSize(f.id) * |vs| + |Payloads(S, f, vs)|
  {
    TagSizeAgrees(f.id, LENGTH_PREFIXED);
    if f.packed {
      FlattenOne(Item(f.id, LENGTH_PREFIXED, Prefixed(Payloads(S, f, vs))));
    } else {
      ItemsSize(S, f, vs);
    }
  }

  // The size of a member, by its label; nothing for an optional one that is absent.
  method MemberSize(S: Schema, f: Field, mem: Member) returns (rv: nat)
    requires FieldOk(S, f) && TypedMember(S, f, mem) && |Flatten(MemberItems(S, f, mem))| < TWO_32
    ensures rv == |Flatten(MemberItems(S, f, mem))|
    decreases mem, 3
  {
    if f.lbl == REPEATED {
      rv := RepeatedFieldSize(S, f, mem.vs);
    } else {
      FlattenOne(ItemFor(S, f, mem.v));
      if f.lbl == OPTIONAL && !Emitted(mem) {
        return 0;
      }
      rv := RequiredFieldSize(S, f, mem.v);
    }
  }

  // protobuf_c_message_get_packed_size
  method GetPackedSize(S: Schema, m: Message) returns (rv: nat)
    requires WellFormed(S) && Typed(S, m) && |Encode(S, m)| < TWO_32
    ensures rv == |Encode(S, m)|
    decreases m, 4
  {
    var fs := S[m.desc];
    EncodeParts(S, m);
    rv := 0;
    assert fs[0..] == fs && m.members[0..] == m.members && m.unknown[0..] == m.unknown;
    for i := 0 to |fs|
      invariant rv + |Flatten(MembersItems(S, fs[i..], m.members[i..]))| == |Flatten(MembersItems(S, fs, m.members))|
    {
      MembersFront(S, fs, m.members, i);
      var size := MemberSize(S, fs[i], m.members[i]);
      rv := rv + size;
    }
    for i := 0 to |m.unknown|
      invariant rv + |Flatten(UnknownItems(m.unknown[i..]))| == |Encode(S, m)|
    {
      UnknownsFront(m.unknown, i);
      TagSizeAgrees(m.unknown[i].tag, m.unknown[i].wire);
      rv := rv + TagSize(m.unknown[i].tag) + |m.unknown[i].data|;
    }
  }
}
