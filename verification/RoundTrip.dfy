/** Unpacking what was packed gives the message back. */
module RoundTrip {
  import opened Base128
  import opened Wire
  import opened Decoder
  import opened Framing

  // ---- which messages are promised to survive ----

  // protobuf_c_message_check: no required sub-message or string is NULL, in the sub-messages either.
  predicate Checked(S: Schema, m: Message)
    decreases m
  {
    && m.desc < |S| && |m.members| == |S[m.desc]|
    && forall i :: 0 <= i < |m.members| ==> CheckedMember(S, S[m.desc][i], m.members[i])
  }

  predicate CheckedMember(S: Schema, f: Field, mem: Member)
    decreases mem
  {
    match mem
    case Single(v) => (f.lbl == REQUIRED ==> v != Str(NullStr) && v != Msg(NoMessage)) && CheckedValue(S, v)
    case Flagged(_, v) => CheckedValue(S, v)
    case Many(vs) => forall i :: 0 <= i < |vs| ==> CheckedValue(S, vs[i])
  }

  predicate CheckedValue(S: Schema, v: Value)
    decreases v
  {
    v.Msg? && v.p.Sub? ==> Checked(S, v.p.m)
  }

  // Unknown fields are outside of the descriptor and carry one whole payload, in the sub-messages too.
  predicate Foreign(S: Schema, m: Message)
    decreases m
  {
    && m.desc < |S|
    && (forall i :: 0 <= i < |m.unknown| ==>
         LexOk(UnknownItem(m.unknown[i])) && FindField(S[m.desc], m.unknown[i].tag) == -1)
    && forall i :: 0 <= i < |m.members| ==> ForeignMember(S, m.members[i])
  }

  predicate ForeignMember(S: Schema, mem: Member)
    decreases mem
  {
    match mem
    case Single(v) => ForeignValue(S, v)
    case Flagged(_, v) => ForeignValue(S, v)
    case Many(vs) => forall i :: 0 <= i < |vs| ==> ForeignValue(S, vs[i])
  }

  predicate ForeignValue(S: Schema, v: Value)
    decreases v
  {
    v.Msg? && v.p.Sub? ==> Foreign(S, v.p.m)
  }

  predicate GoodValue(S: Schema, f: Field, v: Value)
  {
    WellFormedField(S, f) && TypedValue(S, f, v) && CheckedValue(S, v) && ForeignValue(S, v)
  }

  predicate GoodMember(S: Schema, f: Field, mem: Member)
  {
    WellFormedField(S, f) && TypedMember(S, f, mem) && CheckedMember(S, f, mem) && ForeignMember(S, mem)
  }

  predicate Good(S: Schema, m: Message)
  {
    WellFormed(S) && Typed(S, m) && Checked(S, m) && Foreign(S, m)
  }

  // ---- what comes back ----

  // Absent members come back as the defaults, booleans as 0 or 1, strings up to their first NUL.
  function CanonValue(S: Schema, f: Field, v: Value): Value
    decreases v
  {
    match v
    case Word(w) => Word(CanonWord(f.ty, w))
    case Str(p) => Str(Text(StrBytes(f, p)))
    case Bin(b) => v
    case Msg(p) => Msg(if p.Sub? then Sub(Canon(S, p.m)) else NoMessage)
  }

  function CanonWord(ty: ProtoType, w: nat): nat
  {
    if ty == BOOL then (if w != 0 then 1 else 0) else w
  }

  function CanonMember(S: Schema, f: Field, mem: Member): Member
    decreases mem
  {
    match mem
    case Single(v) => if f.lbl == REQUIRED || Emitted(mem) then Single(CanonValue(S, f, v)) else InitMember(f)
    case Flagged(has, v) => if has then Flagged(true, CanonValue(S, f, v)) else InitMember(f)
    case Many(vs) => Many(seq(|vs|, i requires 0 <= i < |vs| => CanonValue(S, f, vs[i])))
  }

  function Canon(S: Schema, m: Message): Message
    decreases m
  {
    Message(m.desc,
            seq(|m.members|, i requires 0 <= i < |m.members| =>
              if m.desc < |S| && i < |S[m.desc]| then CanonMember(S, S[m.desc][i], m.members[i]) else m.members[i]),
            m.unknown)
  }

  // ---- payloads ----

  lemma PrefixedParts(body: Bytes)
    requires |body| < TWO_32
    ensures VarintPrefix(Prefixed(body), 5) == |Varint(|body|)| > 0
    ensures Prefixed(body)[|Varint(|body|)|..] == body
    ensures PrefixedLength(Prefixed(body)) == |Prefixed(body)|
  {
    var n := |body|;
    ValOfVarint(n);
    SizesAgree32(n);
    VarintPrefixFinds(Varint(n), body, 5);
    assert Prefixed(body)[..|Varint(n)|] == Varint(n);
  }

  lemma VarintOfBound(ty: ProtoType, w: nat)
    requires WireOf(ty) == VARINT
    requires w < if Wide(ty) then TWO_64 else TWO_32
    ensures VarintOf(ty, w) < TWO_64
    ensures WordOf(ty, VarintOf(ty, w)) == if ty == BOOL then CanonWord(ty, w) else w
  {
    if ty == SINT32 {
      SignedBack32(w);
    } else if ty == SINT64 {
      SignedBack64(w);
    } else if ty == INT32 {
      SignExtendLow(w);
    }
  }

  lemma SignedBack32(w: nat)
    requires w < TWO_32
    ensures Zigzag(Signed32(w)) < TWO_32 && Word32(Unzigzag(Zigzag(Signed32(w)) % TWO_32)) == w
  {
    TwosComplement(w, 0);
    ZigzagBijection(Signed32(w), 0);
  }

  lemma SignedBack64(w: nat)
    requires w < TWO_64
    ensures Zigzag(Signed64(w)) < TWO_64 && Word64(Unzigzag(Zigzag(Signed64(w)) % TWO_64)) == w
  {
    TwosComplement(w, 0);
    ZigzagBijection(Signed64(w), 0);
  }

  lemma VarintFound(n: nat, rest: Bytes)
    requires n < TWO_64
    ensures VarintPrefix(Varint(n) + rest, 10) == |Varint(n)| > 0 && Val(Varint(n)) == n
  {
    ValOfVarint(n);
    SizesAgree64(n);
    VarintPrefixFinds(Varint(n), rest, 10);
  }

  lemma WordPayloadOk(ty: ProtoType, w: nat)
    requires Packable(ty) && w < if Wide(ty) then TWO_64 else TWO_32
    ensures var p := WordPayload(ty, w); |p| > 0 && PayloadLength(WireOf(ty), p) == |p|
    ensures ParseWord(ty, WireOf(ty), WordPayload(ty, w)) == Some(CanonWord(ty, w))
  {
    if WireOf(ty) == VARINT {
      var n := VarintOf(ty, w);
      VarintOfBound(ty, w);
      VarintFound(n, []);
      assert Varint(n) + [] == Varint(n);
      if ty == BOOL && w != 0 { assert Low7(Varint(n)[0]) != 0; }
    } else {
      assert Pow256(4) == TWO_32 && Pow256(8) == TWO_64;
      FixedRoundTrip(w, 4);
      FixedRoundTrip(w, 8);
    }
  }

  lemma ItemForOk(S: Schema, f: Field, v: Value)
    requires WellFormedField(S, f) && TypedValue(S, f, v) && |Payload(S, f, v)| < TWO_32
    ensures LexOk(ItemFor(S, f, v))
  {
    match v
    case Word(w) => WordPayloadOk(f.ty, w);
    case Str(p) => PrefixedParts(StrBytes(f, p));
    case Bin(b) => PrefixedParts(b);
    case Msg(p) => PrefixedParts(if p.Sub? then Encode(S, p.m) else []);
  }

  lemma {:induction false} ItemsForOk(S: Schema, f: Field, vs: seq<Value>)
    requires WellFormedField(S, f) && (forall i :: 0 <= i < |vs| ==> TypedValue(S, f, vs[i]))
    requires |Flatten(ItemsFor(S, f, vs))| < TWO_32
    ensures AllOk(ItemsFor(S, f, vs))
  {
    if vs != [] {
      var it := ItemFor(S, f, vs[0]);
      assert Flatten([it] + ItemsFor(S, f, vs[1..])) == ItemBytes(it) + Flatten(ItemsFor(S, f, vs[1..]));
      ItemForOk(S, f, vs[0]);
      ItemsForOk(S, f, vs[1..]);
    }
  }

  predicate AllOk(items: seq<Item>)
  {
    forall i :: 0 <= i < |items| ==> LexOk(items[i])
  }

  lemma MemberItemsOk(S: Schema, f: Field, mem: Member)
    requires WellFormedField(S, f) && TypedMember(S, f, mem)
    requires |Flatten(MemberItems(S, f, mem))| < TWO_32
    ensures AllOk(MemberItems(S, f, mem))
  {
    match mem
    case Single(v) =>
      FlattenOne(ItemFor(S, f, v));
      if |MemberItems(S, f, mem)| > 0 { ItemForOk(S, f, v); }
    case Flagged(has, v) =>
      FlattenOne(ItemFor(S, f, v));
      if has { ItemForOk(S, f, v); }
    case Many(vs) =>
      if vs != [] && f.packed {
        FlattenOne(Item(f.id, LENGTH_PREFIXED, Prefixed(Payloads(S, f, vs))));
        PrefixedParts(Payloads(S, f, vs));
      } else if vs != [] {
        ItemsForOk(S, f, vs);
      }
  }

  lemma {:induction false} MembersItemsOk(S: Schema, fs: seq<Field>, ms: seq<Member>)
    requires |fs| == |ms|
    requires forall i :: 0 <= i < |fs| ==> WellFormedField(S, fs[i]) && TypedMember(S, fs[i], ms[i])
    requires |Flatten(MembersItems(S, fs, ms))| < TWO_32
    ensures AllOk(MembersItems(S, fs, ms))
  {
    if fs != [] {
      FlattenConcat(MemberItems(S, fs[0], ms[0]), MembersItems(S, fs[1..], ms[1..]));
      MemberItemsOk(S, fs[0], ms[0]);
      MembersItemsOk(S, fs[1..], ms[1..]);
    }
  }

  lemma MessageItemsOk(S: Schema, m: Message)
    requires WellFormed(S) && Typed(S, m) && Foreign(S, m) && |Encode(S, m)| < TWO_32
    ensures AllOk(MessageItems(S, m))
  {
    var fs := S[m.desc];
    FlattenConcat(MembersItems(S, fs, m.members), UnknownItems(m.unknown));
    MembersItemsOk(S, fs, m.members);
    assert forall i :: 0 <= i < |m.unknown| ==> UnknownItems(m.unknown)[i] == UnknownItem(m.unknown[i]);
  }

  // ---- parsing a member's records ----

  lemma {:induction false} PackedVarints(S: Schema, f: Field, vs: seq<Value>)
    requires Packable(f.ty) && WireOf(f.ty) == VARINT && f.ty != BOOL
    requires forall i :: 0 <= i < |vs| ==> TypedValue(S, f, vs[i])
    ensures ParseVarints(f.ty, Payloads(S, f, vs)) == Some(vs)
  {
    if vs != [] {
      var n := VarintOf(f.ty, vs[0].w);
      var rest := Payloads(S, f, vs[1..]);
      VarintOfBound(f.ty, vs[0].w);
      VarintFound(n, rest);
      var data := Varint(n) + rest;
      assert data[..|Varint(n)|] == Varint(n) && data[|Varint(n)|..] == rest;
      PackedVarints(S, f, vs[1..]);
      assert [vs[0]] + vs[1..] == vs;
    }
  }

  lemma {:induction false} PackedFixeds(S: Schema, f: Field, vs: seq<Value>, k: nat)
    requires Packable(f.ty) && ((WireOf(f.ty) == BITS32 && k == 4) || (WireOf(f.ty) == BITS64 && k == 8))
    requires forall i :: 0 <= i < |vs| ==> TypedValue(S, f, vs[i])
    ensures ParseFixeds(k, Payloads(S, f, vs)) == vs && |Payloads(S, f, vs)| == k * |vs|
  {
    if vs != [] {
      var w := vs[0].w;
      var rest := Payloads(S, f, vs[1..]);
      assert Pow256(4) == TWO_32 && Pow256(8) == TWO_64;
      FixedRoundTrip(w, k);
      var data := Fixed(w, k) + rest;
      assert data[..k] == Fixed(w, k) && data[k..] == rest;
      PackedFixeds(S, f, vs[1..], k);
      assert [vs[0]] + vs[1..] == vs;
    }
  }

  lemma {:induction false} PackedBooleans(S: Schema, f: Field, vs: seq<Value>)
    requires f.ty == BOOL
    requires forall i :: 0 <= i < |vs| ==> TypedValue(S, f, vs[i])
    ensures |Payloads(S, f, vs)| == |vs|
    ensures forall i :: 0 <= i < |vs| ==> vs[i].Word? && Payloads(S, f, vs)[i] == CanonWord(BOOL, vs[i].w)
    ensures ParsePacked(BOOL, Payloads(S, f, vs)).Some?
    ensures forall i :: 0 <= i < |vs| ==>
      ParsePacked(BOOL, Payloads(S, f, vs)).value[i] == Word(CanonWord(BOOL, vs[i].w))
  {
    if vs != [] {
      PackedBooleans(S, f, vs[1..]);
    }
  }

  lemma CanonWords(S: Schema, f: Field, vs: seq<Value>)
    requires Packable(f.ty)
    requires forall i :: 0 <= i < |vs| ==> TypedValue(S, f, vs[i])
    ensures var out := CanonMember(S, f, Many(vs)).vs;
            forall i :: 0 <= i < |vs| ==> vs[i].Word? && out[i] == Word(CanonWord(f.ty, vs[i].w))
  {
    forall i | 0 <= i < |vs| ensures vs[i].Word? && CanonValue(S, f, vs[i]) == Word(CanonWord(f.ty, vs[i].w)) {
      assert TypedValue(S, f, vs[i]);
    }
  }

  lemma PackedKinds(ty: ProtoType, data: Bytes)
    requires Packable(ty) && ty != BOOL
    ensures ParsePacked(ty, data) ==
            if WireOf(ty) == VARINT then ParseVarints(ty, data)
            else if WireOf(ty) == BITS32 then (if |data| % 4 == 0 then Some(ParseFixeds(4, data)) else None)
            else (if |data| % 8 == 0 then Some(ParseFixeds(8, data)) else None)
    ensures WireOf(ty) == VARINT || WireOf(ty) == BITS32 || WireOf(ty) == BITS64
  {
  }

  lemma PackedNumbers(S: Schema, f: Field, vs: seq<Value>)
    requires Packable(f.ty) && f.ty != BOOL
    requires forall i :: 0 <= i < |vs| ==> TypedValue(S, f, vs[i])
    ensures ParsePacked(f.ty, Payloads(S, f, vs)) == Some(vs)
  {
    PackedKinds(f.ty, Payloads(S, f, vs));
    if WireOf(f.ty) == VARINT { PackedVarints(S, f, vs); }
    else if WireOf(f.ty) == BITS32 { PackedFixeds(S, f, vs, 4); }
    else { PackedFixeds(S, f, vs, 8); }
  }

  lemma PackedRoundTrip(S: Schema, f: Field, vs: seq<Value>)
    requires Packable(f.ty)
    requires forall i :: 0 <= i < |vs| ==> TypedValue(S, f, vs[i])
    ensures ParsePacked(f.ty, Payloads(S, f, vs)) == Some(CanonMember(S, f, Many(vs)).vs)
  {
    var out := CanonMember(S, f, Many(vs)).vs;
    CanonWords(S, f, vs);
    if f.ty == BOOL {
      PackedBooleans(S, f, vs);
      assert ParsePacked(f.ty, Payloads(S, f, vs)).value == out;
    } else {
      PackedNumbers(S, f, vs);
      assert out == vs;
    }
  }

  lemma {:induction false} ValueRoundTrip(S: Schema, f: Field, v: Value)
    requires WellFormed(S) && GoodValue(S, f, v) && v != Msg(NoMessage) && |Payload(S, f, v)| < TWO_32
    ensures ParseValue(S, f, ItemFor(S, f, v)) == Some(CanonValue(S, f, v))
    decreases v, 0
  {
    match v
    case Word(w) => WordPayloadOk(f.ty, w);
    case Str(p) => PrefixedParts(StrBytes(f, p));
    case Bin(b) => PrefixedParts(b);
    case Msg(p) =>
      PrefixedParts(Encode(S, p.m));
      MessageRoundTrip(S, p.m);
  }

  // A member after its records, read one by one.
  function FoldMember(S: Schema, f: Field, mem: Member, items: seq<Item>): Option<Member>
    decreases |items|
  {
    if items == [] then Some(mem) else
      match ParseMember(S, f, mem, items[0])
      case None => None
      case Some(mem') => FoldMember(S, f, mem', items[1..])
  }

  lemma FoldOne(S: Schema, f: Field, mem: Member, it: Item)
    ensures FoldMember(S, f, mem, [it]) == ParseMember(S, f, mem, it)
  {
    assert [it][1..] == [];
  }

  lemma {:induction false} ElementsRoundTrip(S: Schema, f: Field, before: seq<Value>, vs: seq<Value>)
    requires WellFormed(S) && f.lbl == REPEATED && GoodMember(S, f, Many(vs)) && !f.packed
    requires |Flatten(ItemsFor(S, f, vs))| < TWO_32
    ensures FoldMember(S, f, Many(before), ItemsFor(S, f, vs)) == Some(Many(before + CanonMember(S, f, Many(vs)).vs))
    decreases vs, 1
  {
    var out := CanonMember(S, f, Many(vs)).vs;
    if vs == [] {
      assert before + out == before;
    } else {
      var it := ItemFor(S, f, vs[0]);
      assert Flatten(ItemsFor(S, f, vs)) == ItemBytes(it) + Flatten(ItemsFor(S, f, vs[1..]));
      ValueRoundTrip(S, f, vs[0]);
      ElementWire(S, f, vs[0]);
      ElementsRoundTrip(S, f, before + [CanonValue(S, f, vs[0])], vs[1..]);
      assert before + [CanonValue(S, f, vs[0])] + CanonMember(S, f, Many(vs[1..])).vs == before + out;
    }
  }

  // An element that is written by itself is never taken for a packed run.
  lemma ElementWire(S: Schema, f: Field, v: Value)
    requires !f.packed
    ensures !IsPackedRun(f, ItemFor(S, f, v))
  {
  }

  lemma {:induction false} MemberRoundTrip(S: Schema, f: Field, mem: Member)
    requires WellFormed(S) && GoodMember(S, f, mem) && |Flatten(MemberItems(S, f, mem))| < TWO_32
    ensures FoldMember(S, f, InitMember(f), MemberItems(S, f, mem)) == Some(CanonMember(S, f, mem))
    decreases mem, 2
  {
    match mem
    case Single(v) =>
      if |MemberItems(S, f, mem)| > 0 {
        FlattenOne(ItemFor(S, f, v));
        FoldOne(S, f, InitMember(f), ItemFor(S, f, v));
        ValueRoundTrip(S, f, v);
      }
    case Flagged(has, v) =>
      if has {
        FlattenOne(ItemFor(S, f, v));
        FoldOne(S, f, InitMember(f), ItemFor(S, f, v));
        ValueRoundTrip(S, f, v);
      }
    case Many(vs) =>
      if vs != [] && f.packed {
        var it := Item(f.id, LENGTH_PREFIXED, Prefixed(Payloads(S, f, vs)));
        FlattenOne(it);
        FoldOne(S, f, InitMember(f), it);
        PrefixedParts(Payloads(S, f, vs));
        PackedRoundTrip(S, f, vs);
        assert [] + CanonMember(S, f, mem).vs == CanonMember(S, f, mem).vs;
      } else if vs != [] {
        ElementsRoundTrip(S, f, [], vs);
        assert [] + CanonMember(S, f, mem).vs == CanonMember(S, f, mem).vs;
      }
  }

  // ---- the whole message ----

  lemma {:induction false} ApplyConcat(S: Schema, fs: seq<Field>, m: Message, a: seq<Item>, b: seq<Item>, bound: nat)
    requires |m.members| == |fs|
    requires forall k :: 0 <= k < |a| ==> |a[k].payload| < bound
    requires forall k :: 0 <= k < |b| ==> |b[k].payload| < bound
    ensures var half := ApplyAll(S, fs, m, a, bound);
            ApplyAll(S, fs, m, a + b, bound) == if half.None? then None else ApplyAll(S, fs, half.value, b, bound)
    decreases |a|
  {
    if a == [] {
      assert a + b == b;
    } else {
      assert (a + b)[1..] == a[1..] + b;
      var one := Apply(S, fs, m, a[0]);
      if one.Some? { ApplyConcat(S, fs, one.value, a[1..], b, bound); }
    }
  }

  lemma {:induction false} IdsIncrease(fs: seq<Field>, i: nat, j: nat)
    requires i < j < |fs| && forall k :: 0 < k < |fs| ==> fs[k - 1].id < fs[k].id
    ensures fs[i].id < fs[j].id
  {
    if i + 1 < j { IdsIncrease(fs, i, j - 1); }
  }

  lemma FindsField(S: Schema, d: nat, i: nat)
    requires WellFormed(S) && d < |S| && i < |S[d]|
    ensures FindField(S[d], S[d][i].id) == i
  {
    var fs := S[d];
    var j := FindField(fs, fs[i].id);
    assert forall k :: 0 < k < |fs| ==> fs[k - 1].id < fs[k].id;
    if j < i && j >= 0 { IdsIncrease(fs, j, i); }
    if i < j { IdsIncrease(fs, i, j); }
  }

  // Records of one field touch that field's member only.
  lemma {:induction false} ApplyMember(S: Schema, d: nat, m: Message, i: nat, items: seq<Item>, bound: nat)
    requires WellFormed(S) && d < |S| && |m.members| == |S[d]| && i < |S[d]|
    requires forall k :: 0 <= k < |items| ==> |items[k].payload| < bound && items[k].tag == S[d][i].id
    ensures var fold := FoldMember(S, S[d][i], m.members[i], items);
            ApplyAll(S, S[d], m, items, bound) ==
            if fold.None? then None else Some(m.(members := m.members[i := fold.value]))
    decreases |items|
  {
    if items == [] {
      assert m.members[i := m.members[i]] == m.members;
    } else {
      FindsField(S, d, i);
      var mem := ParseMember(S, S[d][i], m.members[i], items[0]);
      if mem.Some? {
        var m1 := m.(members := m.members[i := mem.value]);
        ApplyMember(S, d, m1, i, items[1..], bound);
        var fold := FoldMember(S, S[d][i], mem.value, items[1..]);
        if fold.Some? { assert m1.members[i := fold.value] == m.members[i := fold.value]; }
      }
    }
  }

  lemma {:induction false} ItemsForTags(S: Schema, f: Field, vs: seq<Value>)
    ensures forall k :: 0 <= k < |ItemsFor(S, f, vs)| ==> ItemsFor(S, f, vs)[k].tag == f.id
    ensures |ItemsFor(S, f, vs)| == |vs|
  {
    if vs != [] { ItemsForTags(S, f, vs[1..]); }
  }

  lemma MemberItemsTags(S: Schema, f: Field, mem: Member)
    ensures forall k :: 0 <= k < |MemberItems(S, f, mem)| ==> MemberItems(S, f, mem)[k].tag == f.id
  {
    if mem.Many? { ItemsForTags(S, f, mem.vs); }
  }

  predicate Small(items: seq<Item>, bound: nat)
  {
    forall k :: 0 <= k < |items| ==> |items[k].payload| < bound
  }

  // The members from the i-th on are read into a message whose earlier members are already back.
  lemma {:induction false} MembersRoundTrip(S: Schema, whole: Message, m: Message, i: nat, bound: nat)
    requires Good(S, whole) && m.desc == whole.desc && i <= |whole.members|
    requires |m.members| == |whole.members|
    requires forall j :: 0 <= j < i ==> m.members[j] == Canon(S, whole).members[j]
    requires forall j :: i <= j < |m.members| ==> m.members[j] == InitMember(S[m.desc][j])
    requires var items := MembersItems(S, S[m.desc][i..], whole.members[i..]);
             Small(items, bound) && |Flatten(items)| < TWO_32
    ensures ApplyAll(S, S[m.desc], m, MembersItems(S, S[m.desc][i..], whole.members[i..]), bound)
            == Some(m.(members := Canon(S, whole).members))
    decreases whole.members, |whole.members| - i, 3
  {
    var fs := S[m.desc];
    var rest := MembersItems(S, fs[i..], whole.members[i..]);
    if i == |whole.members| {
      assert m.members == Canon(S, whole).members;
    } else {
      var mine := MemberItems(S, fs[i], whole.members[i]);
      var others := MembersItems(S, fs[i + 1..], whole.members[i + 1..]);
      assert fs[i..][1..] == fs[i + 1..] && whole.members[i..][1..] == whole.members[i + 1..];
      assert rest == mine + others;
      FlattenConcat(mine, others);
      SmallParts(mine, others, bound);
      MemberItemsTags(S, fs[i], whole.members[i]);
      MemberRoundTrip(S, fs[i], whole.members[i]);
      ApplyMember(S, m.desc, m, i, mine, bound);
      ApplyConcat(S, fs, m, mine, others, bound);
      var m1 := m.(members := m.members[i := CanonMember(S, fs[i], whole.members[i])]);
      MembersRoundTrip(S, whole, m1, i + 1, bound);
    }
  }

  lemma SmallParts(a: seq<Item>, b: seq<Item>, bound: nat)
    requires Small(a + b, bound)
    ensures Small(a, bound) && Small(b, bound)
  {
    assert forall k :: 0 <= k < |a| ==> a[k] == (a + b)[k];
    assert forall k :: 0 <= k < |b| ==> b[k] == (a + b)[|a| + k];
  }

  lemma {:induction false} UnknownRoundTrip(S: Schema, m: Message, us: seq<Unknown>, bound: nat)
    requires m.desc < |S| && |m.members| == |S[m.desc]| && Small(UnknownItems(us), bound)
    requires forall i :: 0 <= i < |us| ==> FindField(S[m.desc], us[i].tag) == -1
    ensures ApplyAll(S, S[m.desc], m, UnknownItems(us), bound) == Some(m.(unknown := m.unknown + us))
    decreases |us|
  {
    if us == [] {
      assert m.unknown + us == m.unknown;
    } else {
      assert UnknownItems(us)[1..] == UnknownItems(us[1..]);
      var m1 := m.(unknown := m.unknown + [us[0]]);
      UnknownRoundTrip(S, m1, us[1..], bound);
      assert m.unknown + [us[0]] + us[1..] == m.unknown + us;
    }
  }

  lemma {:induction false} MembersItemsHave(S: Schema, fs: seq<Field>, ms: seq<Member>, i: nat)
    requires |fs| == |ms| && i < |fs| && fs[i].lbl == REQUIRED && ms[i].Single?
    ensures exists k :: 0 <= k < |MembersItems(S, fs, ms)| && MembersItems(S, fs, ms)[k].tag == fs[i].id
  {
    if i == 0 {
      assert MembersItems(S, fs, ms)[0].tag == fs[0].id;
    } else {
      MembersItemsHave(S, fs[1..], ms[1..], i - 1);
      var k :| 0 <= k < |MembersItems(S, fs[1..], ms[1..])| && MembersItems(S, fs[1..], ms[1..])[k].tag == fs[i].id;
      assert MembersItems(S, fs, ms)[|MemberItems(S, fs[0], ms[0])| + k] == MembersItems(S, fs[1..], ms[1..])[k];
    }
  }

  // A packed message is never reported to miss a required field.
  lemma PackedHasRequired(S: Schema, m: Message)
    requires WellFormed(S) && Typed(S, m)
    ensures RequiredOk(S[m.desc], MessageItems(S, m))
  {
    var fs := S[m.desc];
    forall f | 0 <= f < |fs| ensures !ReportedMissing(fs, MessageItems(S, m), f) {
      if fs[f].lbl == REQUIRED {
        MembersItemsHave(S, fs, m.members, f);
        var k :| 0 <= k < |MembersItems(S, fs, m.members)| && MembersItems(S, fs, m.members)[k].tag == fs[f].id;
        FindsField(S, m.desc, f);
        assert MarksByte(fs, MessageItems(S, m)[k], (f / 8) % 16);
      }
    }
  }

  // The full round trip.
  lemma {:induction false} MessageRoundTrip(S: Schema, m: Message)
    requires Good(S, m) && |Encode(S, m)| < TWO_32
    ensures Decode(S, m.desc, Encode(S, m)) == Some(Canon(S, m))
    decreases m, 0
  {
    var data := Encode(S, m);
    var items := MessageItems(S, m);
    MessageItemsOk(S, m);
    LexFlatten(items);
    LexIsOk(data);
    PackedHasRequired(S, m);
    ItemsRoundTrip(S, m, |data|);
  }

  lemma {:induction false} ItemsRoundTrip(S: Schema, m: Message, bound: nat)
    requires Good(S, m) && |Encode(S, m)| < TWO_32 && Small(MessageItems(S, m), bound)
    ensures ApplyAll(S, S[m.desc], Message(m.desc, InitMembers(S[m.desc]), []), MessageItems(S, m), bound)
            == Some(Canon(S, m))
    decreases m.members, |m.members|, 4
  {
    var fs := S[m.desc];
    var known := MembersItems(S, fs, m.members);
    var unknown := UnknownItems(m.unknown);
    FlattenConcat(known, unknown);
    SmallParts(known, unknown, bound);
    var start := Message(m.desc, InitMembers(fs), []);
    assert fs[0..] == fs && m.members[0..] == m.members;
    MembersRoundTrip(S, m, start, 0, bound);
    ApplyConcat(S, fs, start, known, unknown, bound);
    UnknownRoundTrip(S, start.(members := Canon(S, m).members), m.unknown, bound);
    assert [] + m.unknown == m.unknown;
  }

  // ---- when exactly nothing changes ----

  // Booleans are 0 or 1, strings are the message's own and hold no NUL, absent members hold their defaults.
  predicate Canonical(S: Schema, m: Message)
    decreases m
  {
    && m.desc < |S| && |m.members| == |S[m.desc]|
    && forall i :: 0 <= i < |m.members| ==> CanonicalMember(S, S[m.desc][i], m.members[i])
  }

  predicate CanonicalMember(S: Schema, f: Field, mem: Member)
    decreases mem
  {
    match mem
    case Single(v) => if f.lbl == REQUIRED || Emitted(mem) then CanonicalValue(S, f, v) else mem == InitMember(f)
    case Flagged(has, v) => if has then CanonicalValue(S, f, v) else mem == InitMember(f)
    case Many(vs) => forall i :: 0 <= i < |vs| ==> CanonicalValue(S, f, vs[i])
  }

  predicate CanonicalValue(S: Schema, f: Field, v: Value)
    decreases v
  {
    match v
    case Word(w) => f.ty == BOOL ==> w <= 1
    case Str(p) => p.Text? && 0 !in p.s
    case Bin(_) => true
    case Msg(p) => p.Sub? ==> Canonical(S, p.m)
  }

  lemma {:induction false} CStrWhole(s: Bytes)
    ensures CStr(s) == s <==> 0 !in s
    ensures 0 !in CStr(s)
  {
    if s != [] && s[0] != 0 {
      CStrWhole(s[1..]);
      assert s == [s[0]] + s[1..];
      if CStr(s) == s { assert CStr(s)[1..] == CStr(s[1..]); }
    }
  }

  lemma {:induction false} CanonFixesValue(S: Schema, f: Field, v: Value)
    requires WellFormed(S) && GoodValue(S, f, v)
    ensures CanonValue(S, f, v) == v <==> CanonicalValue(S, f, v)
    decreases v
  {
    match v
    case Word(w) =>
    case Str(p) => if p.Text? { CStrWhole(p.s); }
    case Bin(_) =>
    case Msg(p) => if p.Sub? { CanonFixes(S, p.m); }
  }

  lemma {:induction false} CanonFixesMember(S: Schema, f: Field, mem: Member)
    requires WellFormed(S) && GoodMember(S, f, mem)
    ensures CanonMember(S, f, mem) == mem <==> CanonicalMember(S, f, mem)
    decreases mem
  {
    match mem
    case Single(v) => CanonFixesValue(S, f, v);
    case Flagged(_, v) => CanonFixesValue(S, f, v);
    case Many(vs) =>
      var out := CanonMember(S, f, mem).vs;
      forall i | 0 <= i < |vs| ensures out[i] == vs[i] <==> CanonicalValue(S, f, vs[i]) {
        CanonFixesValue(S, f, vs[i]);
      }
      assert out == vs <==> forall i :: 0 <= i < |vs| ==> out[i] == vs[i];
  }

  lemma {:induction false} CanonFixes(S: Schema, m: Message)
    requires Good(S, m)
    ensures Canon(S, m) == m <==> Canonical(S, m)
    decreases m
  {
    var out := Canon(S, m).members;
    forall i | 0 <= i < |m.members| ensures out[i] == m.members[i] <==> CanonicalMember(S, S[m.desc][i], m.members[i]) {
      CanonFixesMember(S, S[m.desc][i], m.members[i]);
    }
    assert out == m.members <==> forall i :: 0 <= i < |m.members| ==> out[i] == m.members[i];
  }

  // Unpacking gives back the very message exactly when it is canonical.
  lemma RoundTripExact(S: Schema, m: Message)
    requires Good(S, m) && |Encode(S, m)| < TWO_32
    ensures Decode(S, m.desc, Encode(S, m)) == Some(m) <==> Canonical(S, m)
  {
    MessageRoundTrip(S, m);
    CanonFixes(S, m);
  }

  // ---- packing again ----

  lemma {:induction false} PayloadAgain(S: Schema, f: Field, v: Value)
    requires WellFormed(S) && GoodValue(S, f, v)
    ensures Payload(S, f, CanonValue(S, f, v)) == Payload(S, f, v)
    decreases v, 0
  {
    match v
    case Word(w) =>
    case Str(p) => CStrWhole(StrBytes(f, p)); StrBytesWhole(f, p);
    case Bin(_) =>
    case Msg(p) => if p.Sub? { PackAgain(S, p.m); }
  }

  lemma StrBytesWhole(f: Field, p: CString)
    ensures 0 !in StrBytes(f, p)
  {
    match p
    case NullStr =>
    case DefaultStr => if f.dflt.Default? && f.dflt.v.Str? && f.dflt.v.str.Text? { CStrWhole(f.dflt.v.str.s); }
    case Text(s) => CStrWhole(s);
  }

  lemma {:induction false} PayloadsAgain(S: Schema, f: Field, vs: seq<Value>)
    requires WellFormed(S) && f.lbl == REPEATED && GoodMember(S, f, Many(vs))
    ensures var out := CanonMember(S, f, Many(vs)).vs;
            Payloads(S, f, out) == Payloads(S, f, vs) && ItemsFor(S, f, out) == ItemsFor(S, f, vs)
    decreases vs, 1
  {
    if vs != [] {
      PayloadAgain(S, f, vs[0]);
      PayloadsAgain(S, f, vs[1..]);
      assert CanonMember(S, f, Many(vs)).vs[1..] == CanonMember(S, f, Many(vs[1..])).vs;
    }
  }

  lemma {:induction false} MemberItemsAgain(S: Schema, f: Field, mem: Member)
    requires WellFormed(S) && GoodMember(S, f, mem)
    ensures MemberItems(S, f, CanonMember(S, f, mem)) == MemberItems(S, f, mem)
    decreases mem, 2
  {
    match mem
    case Single(v) => PayloadAgain(S, f, v);
    case Flagged(_, v) => PayloadAgain(S, f, v);
    case Many(vs) => PayloadsAgain(S, f, vs);
  }

  lemma {:induction false} MembersItemsAgain(S: Schema, m: Message, i: nat)
    requires Good(S, m) && i <= |m.members|
    ensures MembersItems(S, S[m.desc][i..], Canon(S, m).members[i..]) == MembersItems(S, S[m.desc][i..], m.members[i..])
    decreases m.members, |m.members| - i, 3
  {
    if i < |m.members| {
      MemberItemsAgain(S, S[m.desc][i], m.members[i]);
      MembersItemsAgain(S, m, i + 1);
      assert S[m.desc][i..][1..] == S[m.desc][i + 1..] && m.members[i..][1..] == m.members[i + 1..];
      assert Canon(S, m).members[i..][1..] == Canon(S, m).members[i + 1..];
    }
  }

  // What comes back packs to the same bytes.
  lemma {:induction false} PackAgain(S: Schema, m: Message)
    requires Good(S, m)
    ensures Encode(S, Canon(S, m)) == Encode(S, m)
    decreases m, 0
  {
    MembersItemsAgain(S, m, 0);
    assert S[m.desc][0..] == S[m.desc] && m.members[0..] == m.members
      && Canon(S, m).members[0..] == Canon(S, m).members;
  }
}
