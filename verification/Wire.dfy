/** Descriptors, messages, and the wire format of a message as a simple recursive encoding. */
module Wire {
  import opened Base128

  datatype Option<+T> = None | Some(value: T)

  datatype ProtoType =
    | INT32 | SINT32 | SFIXED32 | INT64 | SINT64 | SFIXED64
    | UINT32 | FIXED32 | UINT64 | FIXED64 | FLOAT | DOUBLE
    | BOOL | ENUM | STRING | BYTES | MESSAGE

  datatype Label = REQUIRED | OPTIONAL | REPEATED

  const VARINT := 0
  const BITS64 := 1
  const LENGTH_PREFIXED := 2
  const BITS32 := 5

  // A char pointer: NULL, the default value of the descriptor, or a string of the message's own.
  datatype CString = NullStr | DefaultStr | Text(s: Bytes)

  datatype MessagePtr = NoMessage | Sub(m: Message)

  // A number is held as the 32-bit or 64-bit word that represents it.
  datatype Value = Word(w: nat) | Str(str: CString) | Bin(b: Bytes) | Msg(p: MessagePtr)

  // A member of a message: a value; a value with a has-flag; or an array with its length.
  datatype Member = Single(v: Value) | Flagged(has: bool, v: Value) | Many(vs: seq<Value>)

  datatype Unknown = Unknown(tag: nat, wire: nat, data: Bytes)

  datatype Message = Message(desc: nat, members: seq<Member>, unknown: seq<Unknown>)

  datatype Default = NoDefault | Default(v: Value)

  datatype Field = Field(id: nat, lbl: Label, ty: ProtoType, sub: nat, packed: bool, dflt: Default)

  // The message descriptors of a program; a field names the descriptor of its sub-messages by index.
  type Schema = seq<seq<Field>>

  function WireOf(ty: ProtoType): nat
  {
    match ty
    case SFIXED32 | FIXED32 | FLOAT => BITS32
    case SFIXED64 | FIXED64 | DOUBLE => BITS64
    case STRING | BYTES | MESSAGE => LENGTH_PREFIXED
    case _ => VARINT
  }

  // is_packable_type
  predicate Packable(ty: ProtoType)
  {
    ty != STRING && ty != BYTES && ty != MESSAGE
  }

  // The types whose optional members are told absent by their pointer rather than by a has-flag.
  predicate Pointer(ty: ProtoType)
  {
    ty == STRING || ty == MESSAGE
  }

  predicate Wide(ty: ProtoType)
  {
    ty in {INT64, SINT64, SFIXED64, UINT64, FIXED64, DOUBLE}
  }

  // ---- well-formed descriptors and messages ----

  predicate DefaultFits(f: Field)
  {
    match f.dflt
    case NoDefault => true
    case Default(v) =>
      match f.ty
      case STRING => v.Str? && v.str.Text?
      case BYTES => v.Bin?
      case MESSAGE => false
      case _ => v.Word? && v.w < if Wide(f.ty) then TWO_64 else TWO_32
  }

  predicate WellFormedField(S: Schema, f: Field)
  {
    && 0 < f.id < TWO_31 - 1
    && (f.ty == MESSAGE ==> f.sub < |S|)
    && (f.packed ==> f.lbl == REPEATED && Packable(f.ty))
    && (f.lbl == REPEATED ==> f.dflt == NoDefault)
    && DefaultFits(f)
  }

  predicate WellFormed(S: Schema)
  {
    forall d, i :: 0 <= d < |S| && 0 <= i < |S[d]| ==>
      WellFormedField(S, S[d][i]) && (i > 0 ==> S[d][i - 1].id < S[d][i].id)
  }

  // The value is of the field's C type.
  predicate TypedValue(S: Schema, f: Field, v: Value)
    decreases v
  {
    match f.ty
    case STRING => v.Str? && (v.str.DefaultStr? ==> f.dflt.Default? && f.dflt.v.Str? && f.dflt.v.str.Text?)
    case BYTES => v.Bin?
    case MESSAGE => v.Msg? && (v.p.Sub? ==> v.p.m.desc == f.sub && Typed(S, v.p.m))
    case _ => v.Word? && v.w < if Wide(f.ty) then TWO_64 else TWO_32
  }

  predicate TypedMember(S: Schema, f: Field, mem: Member)
    decreases mem
  {
    match f.lbl
    case REQUIRED => mem.Single? && TypedValue(S, f, mem.v)
    case OPTIONAL => if Pointer(f.ty) then mem.Single? && TypedValue(S, f, mem.v)
                     else mem.Flagged? && TypedValue(S, f, mem.v)
    case REPEATED =>
      mem.Many? && forall i :: 0 <= i < |mem.vs| ==> TypedValue(S, f, mem.vs[i]) && Present(mem.vs[i])
  }

  // Elements of repeated string and message fields are not NULL.
  predicate Present(v: Value)
  {
    (v.Str? ==> v.str.Text?) && (v.Msg? ==> v.p.Sub?)
  }

  predicate Typed(S: Schema, m: Message)
    decreases m
  {
    && m.desc < |S| && |m.members| == |S[m.desc]|
    && (forall i :: 0 <= i < |m.members| ==> TypedMember(S, S[m.desc][i], m.members[i]))
    && (forall i :: 0 <= i < |m.unknown| ==> m.unknown[i].tag < TWO_32 && m.unknown[i].wire < 8)
  }

  // ---- the wire format ----

  // A record on the wire: a key made of a field number and a wire type, and the bytes after the key.
  datatype Item = Item(tag: nat, wire: nat, payload: Bytes)

  function ItemBytes(it: Item): Bytes
  {
    Varint(it.tag * 8 + it.wire) + it.payload
  }

  function Flatten(items: seq<Item>): Bytes
  {
    if items == [] then [] else ItemBytes(items[0]) + Flatten(items[1..])
  }

  function Prefixed(body: Bytes): Bytes
  {
    Varint(|body|) + body
  }

  // What strlen sees of a block of memory.
  function CStr(s: Bytes): Bytes
  {
    if s == [] || s[0] == 0 then [] else [s[0]] + CStr(s[1..])
  }

  function StrBytes(f: Field, p: CString): Bytes
  {
    match p
    case NullStr => []
    case DefaultStr => if f.dflt.Default? && f.dflt.v.Str? && f.dflt.v.str.Text? then CStr(f.dflt.v.str.s) else []
    case Text(s) => CStr(s)
  }

  // The number that goes on the wire for a word of one of the varint types.
  function VarintOf(ty: ProtoType, w: nat): nat
  {
    match ty
    case INT32 => SignExtend(w)
    case SINT32 => Zigzag(Signed32(w))
    case SINT64 => Zigzag(Signed64(w))
    case BOOL => if w != 0 then 1 else 0
    case _ => w
  }

  function WordPayload(ty: ProtoType, w: nat): Bytes
  {
    match WireOf(ty)
    case 5 => Fixed(w, 4)
    case 1 => Fixed(w, 8)
    case _ => Varint(VarintOf(ty, w))
  }

  function Payload(S: Schema, f: Field, v: Value): Bytes
    decreases v, 0
  {
    match v
    case Word(w) => WordPayload(f.ty, w)
    case Str(p) => Prefixed(StrBytes(f, p))
    case Bin(b) => Prefixed(b)
    case Msg(p) => Prefixed(if p.Sub? then Encode(S, p.m) else [])
  }

  function ItemFor(S: Schema, f: Field, v: Value): Item
    decreases v, 1
  {
    Item(f.id, WireOf(f.ty), Payload(S, f, v))
  }

  function Payloads(S: Schema, f: Field, vs: seq<Value>): Bytes
    decreases vs
  {
    if vs == [] then [] else Payload(S, f, vs[0]) + Payloads(S, f, vs[1..])
  }

  function ItemsFor(S: Schema, f: Field, vs: seq<Value>): seq<Item>
    decreases vs
  {
    if vs == [] then [] else [ItemFor(S, f, vs[0])] + ItemsFor(S, f, vs[1..])
  }

  // Whether an optional member is packed at all.
  predicate Emitted(mem: Member)
  {
    match mem
    case Single(Str(p)) => p.Text?
    case Single(Msg(p)) => p.Sub?
    case Single(_) => true
    case Flagged(has, _) => has
    case Many(_) => true
  }

  function MemberItems(S: Schema, f: Field, mem: Member): seq<Item>
    decreases mem
  {
    match mem
    case Single(v) => if f.lbl == REQUIRED || Emitted(mem) then [ItemFor(S, f, v)] else []
    case Flagged(has, v) => if has then [ItemFor(S, f, v)] else []
    case Many(vs) =>
      if vs == [] then []
      else if f.packed then [Item(f.id, LENGTH_PREFIXED, Prefixed(Payloads(S, f, vs)))]
      else ItemsFor(S, f, vs)
  }

  function MembersItems(S: Schema, fs: seq<Field>, ms: seq<Member>): seq<Item>
    decreases ms
  {
    if ms == [] || fs == [] then [] else MemberItems(S, fs[0], ms[0]) + MembersItems(S, fs[1..], ms[1..])
  }

  lemma FlattenOne(it: Item)
    ensures Flatten([it]) == ItemBytes(it)
  {
    assert [it][1..] == [];
  }

  function UnknownItem(u: Unknown): Item { Item(u.tag, u.wire, u.data) }

  function UnknownItems(us: seq<Unknown>): seq<Item>
  {
    seq(|us|, i requires 0 <= i < |us| => UnknownItem(us[i]))
  }

  function MessageItems(S: Schema, m: Message): seq<Item>
    decreases m, 0
  {
    (if m.desc < |S| then MembersItems(S, S[m.desc], m.members) else []) + UnknownItems(m.unknown)
  }

  function Encode(S: Schema, m: Message): Bytes
    decreases m, 1
  {
    Flatten(MessageItems(S, m))
  }

  lemma {:induction false} FlattenConcat(a: seq<Item>, b: seq<Item>)
    ensures Flatten(a + b) == Flatten(a) + Flatten(b)
  {
    if a == [] {
      assert a + b == b;
    } else {
      assert (a + b)[1..] == a[1..] + b;
      FlattenConcat(a[1..], b);
    }
  }
}
