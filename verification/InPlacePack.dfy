/** protobuf_c_message_pack: the packer that writes into a buffer of the right size, moving what it wrote at a guess. */
module InPlacePack {
  import opened Base128
  import opened Wire
  import opened Packing
  import opened PackedSize

  // ---- how far off the guess of a prefix can be ----

  lemma {:induction false} VarintMonotone(a: nat, b: nat)
    requires a <= b
    ensures |Varint(a)| <= |Varint(b)|
  {
    if a >= 128 { VarintMonotone(a / 128, b / 128); }
  }

  // A payload of at most ten bytes an element needs the prefix of the shortest one, or a byte more.
  lemma PrefixGuess(least: nat, n: nat)
    requires 0 < least <= n < 128 * least && n < TWO_32
    ensures Uint32Size(least) <= Uint32Size(n) <= Uint32Size(least) + 1
  {
    SizesAgree32(least);
    SizesAgree32(n);
    VarintMonotone(least, n);
    VarintMonotone(n, 128 * least);
    assert Varint(128 * least) == [128] + Varint(least);
  }

  // ---- writing ----

  // What has been written grows by what is written behind it.
  lemma WroteMore(start: Bytes, now: Bytes, next: Bytes, base: nat, done: Bytes, more: Bytes)
    requires base + |done| + |more| <= |start|
    requires now == Splice(start, base, done) && next == Splice(now, base + |done|, more)
    ensures next == Splice(start, base, done + more)
  {
    SpliceSplice(start, base, done, more);
  }

  // The bytes of a number of a type, by the packers of the single types
  method WordPack(ty: ProtoType, w: nat, out: array<Byte>, at: nat) returns (rv: nat)
    requires Packable(ty) && (w < if Wide(ty) then TWO_64 else TWO_32)
    requires at + |WordPayload(ty, w)| <= out.Length
    modifies out
    ensures rv == |WordPayload(ty, w)| && out[..] == Splice(old(out[..]), at, WordPayload(ty, w))
  {
    WordKinds(ty, w);
    if ty == SINT32 {
      rv := Uint32Pack(Zigzag(Signed32(w)), out, at);
    } else if ty == INT32 {
      rv := Int32Pack(Signed32(w), out, at);
    } else if ty == UINT32 || ty == ENUM {
      rv := Uint32Pack(w, out, at);
    } else if ty == SINT64 {
      rv := Uint64Pack(Zigzag(Signed64(w)), out, at);
    } else if ty == INT64 || ty == UINT64 {
      rv := Uint64Pack(w, out, at);
    } else if ty == BOOL {
      rv := BooleanPack(w, out, at);
    } else if WireOf(ty) == BITS32 {
      rv := FixedPack(w, 4, out, at);
    } else {
      rv := FixedPack(w, 8, out, at);
    }
  }

  lemma WordKinds(ty: ProtoType, w: nat)
    requires Packable(ty) && w < if Wide(ty) then TWO_64 else TWO_32
    ensures WordPayload(ty, w) ==
            if ty == SINT32 then Varint(Zigzag(Signed32(w)))
            else if ty == INT32 then Varint(Word64(Signed32(w)))
            else if ty == UINT32 || ty == ENUM then Varint(w)
            else if ty == SINT64 then Varint(Zigzag(Signed64(w)))
            else if ty == INT64 || ty == UINT64 then Varint(w)
            else if ty == BOOL then Varint(if w != 0 then 1 else 0)
            else if WireOf(ty) == BITS32 then Fixed(w, 4) else Fixed(w, 8)
    ensures ty == SINT32 ==> Zigzag(Signed32(w)) < TWO_32
    ensures ty == INT32 ==> -TWO_31 <= Signed32(w) < TWO_31
    ensures ty == SINT64 ==> Zigzag(Signed64(w)) < TWO_64
    ensures |Fixed(w, 4)| == 4 && |Fixed(w, 8)| == 8
  {
    FixedRoundTrip(w, 4);
    FixedRoundTrip(w, 8);
    if Wide(ty) {
      TwosComplement(w, 0);
      ZigzagBijection(Signed64(w), 0);
    } else {
      SignedWord(w);
      ZigzagBijection(Signed32(w), 0);
    }
  }

  lemma SignedWord(w: nat)
    requires w < TWO_32
    ensures Word64(Signed32(w)) == SignExtend(w) && -TWO_31 <= Signed32(w) < TWO_31
  {
  }

  // string_pack and binary_data_pack; NULL is packed as the empty string
  method BytesPack(body: Bytes, out: array<Byte>, at: nat) returns (rv: nat)
    requires |Prefixed(body)| < TWO_32 && at + |Prefixed(body)| <= out.Length
    modifies out
    ensures rv == |Prefixed(body)| && out[..] == Splice(old(out[..]), at, Prefixed(body))
  {
    ghost var start := out[..];
    rv := Uint32Pack(|body|, out, at);
    ghost var now := out[..];
    CopyBytes(out, at + rv, body);
    WroteMore(start, now, out[..], at, Varint(|body|), body);
    rv := rv + |body|;
  }

  // Bytes that were written one place too early, or further, are moved behind their prefix.
  lemma MovedBehindPrefix(start: Bytes, one: Bytes, two: Bytes, three: Bytes, at: nat, guess: nat, pre: Bytes,
                          body: Bytes)
    requires 0 < guess <= |pre| && at + |pre| + |body| <= |start|
    requires one == Splice(start, at + guess, body)
    requires two == Splice(one, at + |pre|, one[at + guess..at + guess + |body|])
    requires three == Splice(two, at, pre)
    ensures three == Splice(start, at, pre + body)
  {
    assert one[at + guess..at + guess + |body|] == body;
    forall k | 0 <= k < |start| ensures three[k] == Splice(start, at, pre + body)[k] {
    }
  }

  // prefixed_message_pack: the message is written behind a prefix of one byte, and moved if it needs more
  method PrefixedMessagePack(S: Schema, p: MessagePtr, out: array<Byte>, at: nat) returns (rv: nat)
    requires WellFormed(S) && (p.Sub? ==> Typed(S, p.m))
    requires var body := if p.Sub? then Encode(S, p.m) else [];
             |body| < TWO_32 && at + |Prefixed(body)| <= out.Length
    modifies out
    ensures var body := if p.Sub? then Encode(S, p.m) else [];
            rv == |Prefixed(body)| && out[..] == Splice(old(out[..]), at, Prefixed(body))
    decreases p, 0
  {
    ghost var start := out[..];
    if p.NoMessage? {
      SpliceNothing(start, at);
      PutByte(0, out, at, start, at, []);
      rv := 1;
    } else {
      ghost var body := Encode(S, p.m);
      SizesAgree32(|body|);
      rv := MessagePack(S, p.m, out, at + 1);
      var rvPackedSize := Uint32Size(rv);
      var prefixLen := PutPrefix(out, at, 1, rvPackedSize, rv, start, body);
      rv := prefixLen + rv;
    }
  }

  // Moves a body of n bytes from where it was written, guess bytes after position at, to where a prefix of the
  // right size ends, and writes the prefix.
  method PutPrefix(out: array<Byte>, at: nat, guess: nat, size: nat, n: nat, ghost start: Bytes, ghost body: Bytes)
    returns (prefixLen: nat)
    requires n == |body| < TWO_32 && size == |Varint(n)| && 0 < guess <= size && at + size + n <= out.Length == |start|
    requires out[..] == Splice(start, at + guess, body)
    modifies out
    ensures prefixLen == size && out[..] == Splice(start, at, Prefixed(body))
  {
    ghost var one := out[..];
    if size != guess {
      MoveBytes(out, at + guess, at + size, n);
    } else {
      SpliceSame(one, at + guess, n);
    }
    ghost var two := out[..];
    prefixLen := Uint32Pack(n, out, at);
    MovedBehindPrefix(start, one, two, out[..], at, guess, Varint(n), body);
  }

  lemma SpliceSame(s: Bytes, at: nat, n: nat)
    requires at + n <= |s|
    ensures Splice(s, at, s[at..at + n]) == s
  {
  }

  // required_field_pack
  method RequiredFieldPack(S: Schema, f: Field, v: Value, out: array<Byte>, at: nat) returns (rv: nat)
    requires FieldOk(S, f) && TypedValue(S, f, v) && |ItemBytes(ItemFor(S, f, v))| < TWO_32
    requires at + |ItemBytes(ItemFor(S, f, v))| <= out.Length
    modifies out
    ensures rv == |ItemBytes(ItemFor(S, f, v))|
    ensures out[..] == Splice(old(out[..]), at, ItemBytes(ItemFor(S, f, v)))
    decreases v, 1
  {
    ghost var start := out[..];
    rv := TagPack(f.id, WireOf(f.ty), out, at);
    ghost var now := out[..];
    var n := PayloadPack(S, f, v, out, at + rv);
    WroteMore(start, now, out[..], at, Varint(f.id * 8 + WireOf(f.ty)), Payload(S, f, v));
    rv := rv + n;
  }

  method PayloadPack(S: Schema, f: Field, v: Value, out: array<Byte>, at: nat) returns (rv: nat)
    requires FieldOk(S, f) && TypedValue(S, f, v) && |Payload(S, f, v)| < TWO_32
    requires at + |Payload(S, f, v)| <= out.Length
    modifies out
    ensures rv == |Payload(S, f, v)| && out[..] == Splice(old(out[..]), at, Payload(S, f, v))
    decreases v, 0
  {
    match v
    case Word(w) => rv := WordPack(f.ty, w, out, at);
    case Str(p) => rv := BytesPack(StrBytes(f, p), out, at);
    case Bin(b) => rv := BytesPack(b, out, at);
    case Msg(p) => rv := PrefixedMessagePack(S, p, out, at);
  }

  lemma WordElement(S: Schema, f: Field, v: Value)
    requires Packable(f.ty) && TypedValue(S, f, v)
    ensures v.Word? && (v.w < if Wide(f.ty) then TWO_64 else TWO_32) && Payload(S, f, v) == WordPayload(f.ty, v.w)
  {
  }

  // The elements of a packed field.
  method PackedPayload(S: Schema, f: Field, vs: seq<Value>, out: array<Byte>, at: nat) returns (rv: nat)
    requires Packable(f.ty) && forall i :: 0 <= i < |vs| ==> TypedValue(S, f, vs[i])
    requires at + |Payloads(S, f, vs)| <= out.Length
    modifies out
    ensures rv == |Payloads(S, f, vs)| && out[..] == Splice(old(out[..]), at, Payloads(S, f, vs))
  {
    ghost var start: Bytes, done: Bytes, all := out[..], [], Payloads(S, f, vs);
    rv := 0;
    SpliceNothing(start, at);
    assert vs[0..] == vs;
    for i := 0 to |vs|
      invariant rv == |done| && Wrote(out, start, at, done)
      invariant all == done + Payloads(S, f, vs[i..])
    {
      PayloadsFront(S, f, vs, i);
      WordElement(S, f, vs[i]);
      ghost var now, next := out[..], WordPayload(f.ty, vs[i].w);
      Regrouped(all, done, next, Payloads(S, f, vs[i + 1..]));
      var n := WordPack(f.ty, vs[i].w, out, at + rv);
      WroteMore(start, now, out[..], at, done, next);
      done := done + next;
      rv := rv + n;
    }
  }

  lemma Regrouped(all: Bytes, done: Bytes, next: Bytes, rest: Bytes)
    requires all == done + (next + rest)
    ensures all == (done + next) + rest && |done| + |next| <= |all|
  {
  }

  // repeated_field_pack on a packed field: the payload is written behind a guessed prefix, and moved by one if needed
  method PackedFieldPack(S: Schema, f: Field, vs: seq<Value>, out: array<Byte>, at: nat) returns (rv: nat)
    requires FieldOk(S, f) && f.packed && vs != [] && forall i :: 0 <= i < |vs| ==> TypedValue(S, f, vs[i])
    requires var it := Item(f.id, LENGTH_PREFIXED, Prefixed(Payloads(S, f, vs)));
             |ItemBytes(it)| < TWO_32 && at + |ItemBytes(it)| <= out.Length
    modifies out
    ensures var it := Item(f.id, LENGTH_PREFIXED, Prefixed(Payloads(S, f, vs)));
            rv == |ItemBytes(it)| && out[..] == Splice(old(out[..]), at, ItemBytes(it))
  {
    ghost var start := out[..];
    ghost var body := Payloads(S, f, vs);
    var headerLen := TagPack(f.id, LENGTH_PREFIXED, out, at);
    ghost var tagged := out[..];
    var lenStart := headerLen;
    var minLength := MinSize(f.ty) * |vs|;
    GuessIsClose(S, f, vs);
    var lengthSizeMin := Uint32Size(minLength);
    headerLen := headerLen + lengthSizeMin;
    var payloadLen := PackedPayload(S, f, vs, out, at + headerLen);
    var actualLengthSize := Uint32Size(payloadLen);
    if lengthSizeMin != actualLengthSize {
      assert actualLengthSize == lengthSizeMin + 1;
      headerLen := headerLen + 1;
    }
    var n := PutPrefix(out, at + lenStart, lengthSizeMin, actualLengthSize, payloadLen, tagged, body);
    WroteMore(start, tagged, out[..], at, Varint(f.id * 8 + LENGTH_PREFIXED), Prefixed(body));
    rv := headerLen + payloadLen;
  }

  lemma GuessIsClose(S: Schema, f: Field, vs: seq<Value>)
    requires Packable(f.ty) && vs != [] && |Payloads(S, f, vs)| < TWO_32
    requires forall i :: 0 <= i < |vs| ==> TypedValue(S, f, vs[i])
    ensures var guess := Uint32Size(MinSize(f.ty) * |vs|);
            var n := |Payloads(S, f, vs)|;
            0 < guess <= Uint32Size(n) <= guess + 1 && Uint32Size(n) == |Varint(n)|
  {
    PayloadsBounds(S, f, vs);
    PrefixGuess(MinSize(f.ty) * |vs|, |Payloads(S, f, vs)|);
    SizesAgree32(|Payloads(S, f, vs)|);
  }

  // repeated_field_pack
  method RepeatedFieldPack(S: Schema, f: Field, vs: seq<Value>, out: array<Byte>, at: nat) returns (rv: nat)
    requires FieldOk(S, f) && f.lbl == REPEATED && TypedMember(S, f, Many(vs))
    requires |Flatten(MemberItems(S, f, Many(vs)))| < TWO_32
    requires at + |Flatten(MemberItems(S, f, Many(vs)))| <= out.Length
    modifies out
    ensures rv == |Flatten(MemberItems(S, f, Many(vs)))|
    ensures out[..] == Splice(old(out[..]), at, Flatten(MemberItems(S, f, Many(vs))))
    decreases vs, 3
  {
    if |vs| == 0 {
      SpliceNothing(out[..], at);
      return 0;
    }
    if f.packed {
      FlattenOne(Item(f.id, LENGTH_PREFIXED, Prefixed(Payloads(S, f, vs))));
      rv := PackedFieldPack(S, f, vs, out, at);
    } else {
      rv := ElementsPack(S, f, vs, out, at);
    }
  }

  method ElementsPack(S: Schema, f: Field, vs: seq<Value>, out: array<Byte>, at: nat) returns (rv: nat)
    requires FieldOk(S, f) && f.lbl == REPEATED && TypedMember(S, f, Many(vs))
    requires |Flatten(ItemsFor(S, f, vs))| < TWO_32 && at + |Flatten(ItemsFor(S, f, vs))| <= out.Length
    modifies out
    ensures rv == |Flatten(ItemsFor(S, f, vs))| && out[..] == Splice(old(out[..]), at, Flatten(ItemsFor(S, f, vs)))
    decreases vs, 2
  {
    ghost var start: Bytes, done: Bytes, all := out[..], [], Flatten(ItemsFor(S, f, vs));
    rv := 0;
    SpliceNothing(start, at);
    assert vs[0..] == vs;
    for i := 0 to |vs|
      invariant rv == |done| && Wrote(out, start, at, done)
      invariant all == done + Flatten(ItemsFor(S, f, vs[i..]))
    {
      ItemsFront(S, f, vs, i);
      ghost var now, next := out[..], ItemBytes(ItemFor(S, f, vs[i]));
      Regrouped(all, done, next, Flatten(ItemsFor(S, f, vs[i + 1..])));
      var n := RequiredFieldPack(S, f, vs[i], out, at + rv);
      WroteMore(start, now, out[..], at, done, next);
      done := done + next;
      rv := rv + n;
    }
  }

  // required_field_pack, optional_field_pack or repeated_field_pack, by the label
  method MemberPack(S: Schema, f: Field, mem: Member, out: array<Byte>, at: nat) returns (rv: nat)
    requires FieldOk(S, f) && TypedMember(S, f, mem) && |Flatten(MemberItems(S, f, mem))| < TWO_32
    requires at + |Flatten(MemberItems(S, f, mem))| <= out.Length
    modifies out
    ensures rv == |Flatten(MemberItems(S, f, mem))|
    ensures out[..] == Splice(old(out[..]), at, Flatten(MemberItems(S, f, mem)))
    decreases mem, 3
  {
    if f.lbl == REPEATED {
      rv := RepeatedFieldPack(S, f, mem.vs, out, at);
    } else {
      FlattenOne(ItemFor(S, f, mem.v));
      if f.lbl == OPTIONAL && !Emitted(mem) {
        SpliceNothing(out[..], at);
        return 0;
      }
      rv := RequiredFieldPack(S, f, mem.v, out, at);
    }
  }

  // unknown_field_pack
  method UnknownFieldPack(u: Unknown, out: array<Byte>, at: nat) returns (rv: nat)
    requires u.tag < TWO_32 && u.wire < 8 && at + |ItemBytes(UnknownItem(u))| <= out.Length
    modifies out
    ensures rv == |ItemBytes(UnknownItem(u))| && out[..] == Splice(old(out[..]), at, ItemBytes(UnknownItem(u)))
  {
    ghost var start := out[..];
    rv := TagPack(u.tag, u.wire, out, at);
    ghost var now := out[..];
    CopyBytes(out, at + rv, u.data);
    WroteMore(start, now, out[..], at, Varint(u.tag * 8 + u.wire), u.data);
    rv := rv + |u.data|;
  }

  // protobuf_c_message_pack: the encoding is written at the given place, and no other byte is touched
  method MessagePack(S: Schema, m: Message, out: array<Byte>, at: nat) returns (rv: nat)
    requires WellFormed(S) && Typed(S, m) && |Encode(S, m)| < TWO_32 && at + |Encode(S, m)| <= out.Length
    modifies out
    ensures rv == |Encode(S, m)| && out[..] == Splice(old(out[..]), at, Encode(S, m))
    decreases m, 4
  {
    EncodeParts(S, m);
    ghost var start := out[..];
    rv := MembersPack(S, m, out, at);
    ghost var now := out[..];
    var n := UnknownsPack(m.unknown, out, at + rv);
    WroteMore(start, now, out[..], at, Flatten(MembersItems(S, S[m.desc], m.members)),
      Flatten(UnknownItems(m.unknown)));
    rv := rv + n;
  }

  method MembersPack(S: Schema, m: Message, out: array<Byte>, at: nat) returns (rv: nat)
    requires WellFormed(S) && Typed(S, m)
    requires var all := Flatten(MembersItems(S, S[m.desc], m.members)); |all| < TWO_32 && at + |all| <= out.Length
    modifies out
    ensures var all := Flatten(MembersItems(S, S[m.desc], m.members));
            rv == |all| && out[..] == Splice(old(out[..]), at, all)
    decreases m.members, 4
  {
    var fs := S[m.desc];
    ghost var start: Bytes, done: Bytes, all := out[..], [], Flatten(MembersItems(S, fs, m.members));
    rv := 0;
    SpliceNothing(start, at);
    assert fs[0..] == fs && m.members[0..] == m.members;
    for i := 0 to |fs|
      invariant rv == |done| && Wrote(out, start, at, done)
      invariant all == done + Flatten(MembersItems(S, fs[i..], m.members[i..]))
    {
      MembersFront(S, fs, m.members, i);
      ghost var now, next := out[..], Flatten(MemberItems(S, fs[i], m.members[i]));
      Regrouped(all, done, next, Flatten(MembersItems(S, fs[i + 1..], m.members[i + 1..])));
      var n := MemberPack(S, fs[i], m.members[i], out, at + rv);
      WroteMore(start, now, out[..], at, done, next);
      done := done + next;
      rv := rv + n;
    }
  }

  method UnknownsPack(us: seq<Unknown>, out: array<Byte>, at: nat) returns (rv: nat)
    requires forall i :: 0 <= i < |us| ==> us[i].tag < TWO_32 && us[i].wire < 8
    requires at + |Flatten(UnknownItems(us))| <= out.Length
    modifies out
    ensures rv == |Flatten(UnknownItems(us))| && out[..] == Splice(old(out[..]), at, Flatten(UnknownItems(us)))
  {
    ghost var start: Bytes, done: Bytes, all := out[..], [], Flatten(UnknownItems(us));
    rv := 0;
    SpliceNothing(start, at);
    assert us[0..] == us;
    for i := 0 to |us|
      invariant rv == |done| && Wrote(out, start, at, done)
      invariant all == done + Flatten(UnknownItems(us[i..]))
    {
      UnknownsFront(us, i);
      ghost var now, next := out[..], ItemBytes(UnknownItem(us[i]));
      Regrouped(all, done, next, Flatten(UnknownItems(us[i + 1..])));
      var n := UnknownFieldPack(us[i], out, at + rv);
      WroteMore(start, now, out[..], at, done, next);
      done := done + next;
      rv := rv + n;
    }
  }
}
