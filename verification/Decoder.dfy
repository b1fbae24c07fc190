/** The decoder of protobuf-c.c as a function: records are cut off the front, then applied to a message in order. */
module Decoder {
  import opened Base128
  import opened Wire

  // ---- cutting records ----

  // The length of the key at the start of data, or 0: parse_tag_and_wiretype reads at most five bytes.
  function KeyLength(data: Bytes): nat
  {
    VarintPrefix(data, 5)
  }

  // What scan_length_prefixed_data is meant to give: the length of a prefix and the bytes it announces, or 0.
  function PrefixedLength(data: Bytes): (n: nat)
    ensures n <= |data|
  {
    var hdr := VarintPrefix(data, 5);
    var val := Val(data[..hdr]) % TWO_32;
    if hdr == 0 || hdr + val > |data| then 0 else hdr + val
  }

  // The length of the payload at the start of data for a wire type, or 0.
  function PayloadLength(wire: nat, data: Bytes): (n: nat)
    ensures n <= |data|
  {
    if wire == VARINT then VarintPrefix(data, 10)
    else if wire == BITS64 then if |data| < 8 then 0 else 8
    else if wire == LENGTH_PREFIXED then PrefixedLength(data)
    else if wire == BITS32 then if |data| < 4 then 0 else 4
    else 0
  }

  // The record at the start of data and its length.
  function Cut(data: Bytes): (r: Option<(Item, nat)>)
    ensures r.Some? ==> r.value.1 <= |data| && |r.value.0.payload| < r.value.1
  {
    var k := KeyLength(data);
    if k == 0 then None else
      var key := Val(data[..k]);
      var n := PayloadLength(key % 8, data[k..]);
      if n == 0 then None else Some((Item(key / 8, key % 8, data[k..k + n]), k + n))
  }

  // The scan of a whole message.
  function Lex(data: Bytes): (r: Option<seq<Item>>)
    ensures r.Some? ==> forall i :: 0 <= i < |r.value| ==> |r.value[i].payload| < |data|
  {
    if data == [] then Some([]) else
      match Cut(data)
      case None => None
      case Some((it, n)) =>
        match Lex(data[n..])
        case None => None
        case Some(its) => Some([it] + its)
  }

  // The length of a record's own length prefix, and what follows it.
  function PrefixLength(it: Item): nat
  {
    VarintPrefix(it.payload, 5)
  }

  function Body(it: Item): Bytes
  {
    it.payload[PrefixLength(it)..]
  }

  // ---- applying records ----

  function FindField(fs: seq<Field>, tag: nat): (i: int)
    ensures -1 <= i < |fs| && (i >= 0 ==> fs[i].id == tag)
    ensures i == -1 ==> forall j :: 0 <= j < |fs| ==> fs[j].id != tag
  {
    if fs == [] then -1
    else if fs[0].id == tag then 0
    else
      var k := FindField(fs[1..], tag);
      assert forall j :: 1 <= j < |fs| ==> fs[j] == fs[1..][j - 1];
      if k < 0 then -1 else k + 1
  }

  // The value of a member before anything has been read.
  function InitValue(f: Field): Value
  {
    match f.ty
    case STRING => Str(if f.dflt.Default? then DefaultStr else NullStr)
    case MESSAGE => Msg(NoMessage)
    case BYTES => if f.dflt.Default? then f.dflt.v else Bin([])
    case _ => if f.dflt.Default? then f.dflt.v else Word(0)
  }

  // protobuf_c_message_init_generic
  function InitMember(f: Field): Member
  {
    match f.lbl
    case REQUIRED => Single(InitValue(f))
    case OPTIONAL => if Pointer(f.ty) then Single(InitValue(f)) else Flagged(false, InitValue(f))
    case REPEATED => Many([])
  }

  function InitMembers(fs: seq<Field>): (ms: seq<Member>)
    ensures |ms| == |fs| && forall i :: 0 <= i < |fs| ==> ms[i] == InitMember(fs[i])
  {
    seq(|fs|, i requires 0 <= i < |fs| => InitMember(fs[i]))
  }

  // The word that a varint stands for in a member of a type.
  function WordOf(ty: ProtoType, v: nat): nat
  {
    match ty
    case SINT32 => Word32(Unzigzag(v % TWO_32))
    case SINT64 => Word64(Unzigzag(v % TWO_64))
    case INT64 | UINT64 => v % TWO_64
    case _ => v % TWO_32
  }

  predicate AnyBits(bs: Bytes)
  {
    exists i :: 0 <= i < |bs| && Low7(bs[i]) != 0
  }

  // parse_required_member for the types that are numbers; a boolean may come with any wire type
  function ParseWord(ty: ProtoType, wire: nat, payload: Bytes): Option<nat>
    requires Packable(ty)
  {
    if ty == BOOL then Some(if AnyBits(payload) then 1 else 0)
    else if wire != WireOf(ty) then None
    else if wire == VARINT then Some(WordOf(ty, Val(payload)))
    else Some(FixedVal(payload))
  }

  // parse_packed_repeated_member on varints
  function ParseVarints(ty: ProtoType, data: Bytes): Option<seq<Value>>
  {
    if data == [] then Some([]) else
      var s := VarintPrefix(data, 10);
      if s == 0 then None else
        match ParseVarints(ty, data[s..])
        case None => None
        case Some(vs) => Some([Word(WordOf(ty, Val(data[..s])))] + vs)
  }

  function ParseFixeds(k: nat, data: Bytes): seq<Value>
    requires k > 0
  {
    if |data| < k then [] else [Word(FixedVal(data[..k]))] + ParseFixeds(k, data[k..])
  }

  // count_packed_elements and parse_packed_repeated_member together
  function ParsePacked(ty: ProtoType, data: Bytes): Option<seq<Value>>
  {
    if !Packable(ty) then None
    else if ty == BOOL then
      if forall i :: 0 <= i < |data| ==> data[i] <= 1
      then Some(seq(|data|, i requires 0 <= i < |data| => Word(data[i])))
      else None
    else if WireOf(ty) == BITS32 then if |data| % 4 == 0 then Some(ParseFixeds(4, data)) else None
    else if WireOf(ty) == BITS64 then if |data| % 8 == 0 then Some(ParseFixeds(8, data)) else None
    else ParseVarints(ty, data)
  }

  // Whether a record carries a packed run of elements.
  predicate IsPackedRun(f: Field, it: Item)
  {
    it.wire == LENGTH_PREFIXED && (f.packed || Packable(f.ty))
  }

  // The required-field check.  The macro expands to !bitmap[(f/8)%16] & (1<<(f%8)), so a field is reported
  // only if it sits first in its group of eight and no required field of a group that shares its byte was scanned.
  predicate ReportedMissing(fs: seq<Field>, items: seq<Item>, f: nat)
    requires f < |fs|
  {
    && fs[f].lbl == REQUIRED && fs[f].dflt == NoDefault && f % 8 == 0
    && forall k :: 0 <= k < |items| ==> !MarksByte(fs, items[k], (f / 8) % 16)
  }

  predicate MarksByte(fs: seq<Field>, it: Item, byte: nat)
  {
    var g := FindField(fs, it.tag);
    g >= 0 && fs[g].lbl == REQUIRED && (g / 8) % 16 == byte
  }

  predicate RequiredOk(fs: seq<Field>, items: seq<Item>)
  {
    forall f :: 0 <= f < |fs| ==> !ReportedMissing(fs, items, f)
  }

  // The records that fit the slabs: 16 in the first and twice as many in each of the 54 after it.
  const MAX_ITEMS := 0x10 * (0x80_0000_0000_0000 - 1)

  // parse_required_member
  function ParseValue(S: Schema, f: Field, it: Item): Option<Value>
    decreases |it.payload|, 0
  {
    match f.ty
    case STRING => if it.wire == LENGTH_PREFIXED then Some(Str(Text(Body(it)))) else None
    case BYTES => if it.wire == LENGTH_PREFIXED then Some(Bin(Body(it))) else None
    case MESSAGE =>
      if it.wire != LENGTH_PREFIXED || PrefixLength(it) == 0 || f.sub >= |S| then None else
        (match Decode(S, f.sub, Body(it))
         case None => None
         case Some(m) => Some(Msg(Sub(m))))
    case _ =>
      match ParseWord(f.ty, it.wire, it.payload)
      case None => None
      case Some(w) => Some(Word(w))
  }

  // parse_member on a member of a known field
  function ParseMember(S: Schema, f: Field, mem: Member, it: Item): Option<Member>
    decreases |it.payload|, 1
  {
    match mem
    case Many(vs) =>
      if IsPackedRun(f, it) then
        (match ParsePacked(f.ty, Body(it))
         case None => None
         case Some(more) => Some(Many(vs + more)))
      else
        (match ParseValue(S, f, it)
         case None => None
         case Some(v) => Some(Many(vs + [v])))
    case _ =>
      match ParseValue(S, f, it)
      case None => None
      case Some(v) => Some(if mem.Single? then Single(v) else Flagged(true, v))
  }

  // parse_member
  function Apply(S: Schema, fs: seq<Field>, m: Message, it: Item): (r: Option<Message>)
    requires |m.members| == |fs|
    ensures r.Some? ==> |r.value.members| == |fs| && r.value.desc == m.desc
    decreases |it.payload|, 2
  {
    var i := FindField(fs, it.tag);
    if i < 0 then Some(m.(unknown := m.unknown + [Unknown(it.tag, it.wire, it.payload)])) else
      match ParseMember(S, fs[i], m.members[i], it)
      case None => None
      case Some(mem) => Some(m.(members := m.members[i := mem]))
  }

  function ApplyAll(S: Schema, fs: seq<Field>, m: Message, items: seq<Item>, bound: nat): (r: Option<Message>)
    requires |m.members| == |fs|
    requires forall k :: 0 <= k < |items| ==> |items[k].payload| < bound
    ensures r.Some? ==> |r.value.members| == |fs| && r.value.desc == m.desc
    decreases bound, 0, |items|
  {
    if items == [] then Some(m) else
      match Apply(S, fs, m, items[0])
      case None => None
      case Some(m') => ApplyAll(S, fs, m', items[1..], bound)
  }

  // protobuf_c_message_unpack
  function Decode(S: Schema, d: nat, data: Bytes): (r: Option<Message>)
    requires d < |S|
    ensures r.Some? ==> r.value.desc == d && |r.value.members| == |S[d]|
    decreases |data|, 3
  {
    match Lex(data)
    case None => None
    case Some(items) =>
      if |items| > MAX_ITEMS || !RequiredOk(S[d], items) then None
      else ApplyAll(S, S[d], Message(d, InitMembers(S[d]), []), items, |data|)
  }
}
