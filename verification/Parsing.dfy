/** The parse pass of protobuf_c_message_unpack: members are written into memory that is already there. */
module Parsing {
  import opened Base128
  import opened Basics
  import opened Wire
  import opened Decoder
  import opened Framing
  import opened Counting
  import opened Memory

  // A record found by the scan: where its payload lies, and the field it belongs to (-1 for none).
  datatype ScannedMember = ScannedMember(tag: nat, wire: nat, prefixLen: nat, field: int, len: nat, at: nat)

  predicate GoodScan(fs: seq<Field>, data: Bytes, sm: ScannedMember)
  {
    && sm.at + sm.len <= |data| && LexOk(ItemAt(data, sm)) && sm.field == FindField(fs, sm.tag)
    && (sm.wire == LENGTH_PREFIXED ==> sm.prefixLen == PrefixLength(ItemAt(data, sm)))
  }

  function ItemAt(data: Bytes, sm: ScannedMember): Item
    requires sm.at + sm.len <= |data|
  {
    Item(sm.tag, sm.wire, data[sm.at..sm.at + sm.len])
  }

  // ---- numbers ----

  method ParseVarint(ty: ProtoType, data: Bytes) returns (w: nat)
    requires WireOf(ty) == VARINT && 0 < |data| <= 10
    ensures w == WordOf(ty, Val(data))
  {
    ParseUint32IsVal(data);
    if ty == SINT64 || ty == INT64 || ty == UINT64 {
      w := ParseUint64(data);
      if ty == SINT64 { w := Word64(Unzigzag(w)); }
    } else {
      w := ParseUint32(data);
      if ty == SINT32 { w := Word32(Unzigzag(w)); }
    }
  }

  method ParseNumber(ty: ProtoType, it: Item) returns (r: Option<nat>)
    requires Packable(ty) && LexOk(it)
    ensures r == ParseWord(ty, it.wire, it.payload)
  {
    if ty == BOOL {
      var b := ParseBoolean(it.payload);
      r := Some(b);
    } else if it.wire != WireOf(ty) {
      r := None;
    } else if it.wire == VARINT {
      var w := ParseVarint(ty, it.payload);
      r := Some(w);
    } else {
      r := Some(FixedVal(it.payload));
    }
  }

  // A store into the array of a repeated member stays inside of what was allocated.
  function Store(slots: seq<AValue>, room: nat, v: AValue): seq<AValue>
    requires |slots| < room
  {
    slots + [v]
  }

  // Numbers as they are stored in memory.
  function Stored(vs: seq<Value>): (slots: seq<AValue>)
    ensures |slots| == |vs|
  {
    if vs == [] then []
    else
      var last := vs[|vs| - 1];
      Stored(vs[..|vs| - 1]) + [AWord(if last.Word? then last.w else 0)]
  }

  // What the array holds after the numbers of vs have been stored behind it.
  predicate StoredAfter(before: seq<AValue>, slots: seq<AValue>, vs: seq<Value>)
  {
    slots == before + Stored(vs) && forall i :: 0 <= i < |vs| ==> vs[i].Word?
  }

  lemma StoreOne(before: seq<AValue>, slots: seq<AValue>, vs: seq<Value>, w: nat)
    requires StoredAfter(before, slots, vs)
    ensures StoredAfter(before, slots + [AWord(w)], vs + [Word(w)])
  {
    assert (vs + [Word(w)])[..|vs|] == vs;
    assert (before + Stored(vs)) + [AWord(w)] == before + (Stored(vs) + [AWord(w)]);
  }

  lemma {:induction false} StoredAt(vs: seq<Value>, i: nat)
    requires i < |vs| && vs[i].Word?
    ensures Stored(vs)[i] == AWord(vs[i].w)
  {
    if i < |vs| - 1 { StoredAt(vs[..|vs| - 1], i); }
  }

  // The values read before position at, and what is still to come.
  predicate VarintsRead(ty: ProtoType, data: Bytes, at: nat, vs: seq<Value>)
  {
    && at <= |data| && |vs| == ClearTopBits(data[..at])
    && var rest := ParseVarints(ty, data[at..]);
       ParseVarints(ty, data) == if rest.None? then None else Some(vs + rest.value)
  }

  lemma VarintStep(ty: ProtoType, data: Bytes, at: nat, vs: seq<Value>) returns (next: seq<Value>, at': nat)
    requires at < |data| && VarintsRead(ty, data, at, vs)
    ensures var s := VarintPrefix(data[at..], 10);
            if s == 0 then ParseVarints(ty, data).None? else
              && |vs| < ClearTopBits(data) && at' == at + s <= |data|
              && next == vs + [Word(WordOf(ty, Val(data[at..][..s])))] && VarintsRead(ty, data, at', next)
  {
    var tail := data[at..];
    var s := VarintPrefix(tail, 10);
    next, at' := vs, at + s;
    VarintsUnfold(ty, tail);
    if s > 0 {
      VarintCounted(data, at, s);
      Tails(data, at, s);
      next := vs + [Word(WordOf(ty, Val(tail[..s])))];
      Prepend(ParseVarints(ty, data), ParseVarints(ty, tail), ParseVarints(ty, tail[s..]), vs,
              Word(WordOf(ty, Val(tail[..s]))));
    }
  }

  lemma Tails(data: Bytes, at: nat, s: nat)
    requires at + s <= |data|
    ensures data[at..][s..] == data[at + s..]
  {
  }

  lemma Prepend(all: Option<seq<Value>>, one: Option<seq<Value>>, two: Option<seq<Value>>, vs: seq<Value>, v: Value)
    requires all == if one.None? then None else Some(vs + one.value)
    requires one == if two.None? then None else Some([v] + two.value)
    ensures all == if two.None? then None else Some((vs + [v]) + two.value)
  {
    if two.Some? { Associates(vs, [v], two.value); }
  }

  lemma VarintsUnfold(ty: ProtoType, data: Bytes)
    requires data != []
    ensures var s := VarintPrefix(data, 10);
            ParseVarints(ty, data) ==
              if s == 0 || ParseVarints(ty, data[s..]).None? then None
              else Some([Word(WordOf(ty, Val(data[..s])))] + ParseVarints(ty, data[s..]).value)
  {
  }

  lemma VarintCounted(data: Bytes, at: nat, s: nat)
    requires at < |data| && s == VarintPrefix(data[at..], 10) > 0
    ensures ClearTopBits(data[..at + s]) == ClearTopBits(data[..at]) + 1 <= ClearTopBits(data)
  {
    var one := data[at..][..s];
    assert data[..at + s] == data[..at] + one && data == data[..at + s] + data[at + s..];
    ClearTopBitsConcat(data[..at], one);
    ClearTopBitsConcat(data[..at + s], data[at + s..]);
    OneVarint(one);
  }

  // parse_packed_repeated_member on varints
  method ParsePackedVarints(ty: ProtoType, data: Bytes, before: seq<AValue>, room: nat)
    returns (ok: bool, slots: seq<AValue>, ghost vs: seq<Value>)
    requires WireOf(ty) == VARINT && |before| + ClearTopBits(data) <= room
    ensures ok == ParseVarints(ty, data).Some?
    ensures ok ==> ParseVarints(ty, data) == Some(vs) && StoredAfter(before, slots, vs)
  {
    slots, vs := before, [];
    var at := 0;
    VarintsStart(ty, data);
    while at < |data|
      invariant VarintsRead(ty, data, at, vs) && StoredAfter(before, slots, vs)
      decreases |data| - at
    {
      ghost var next, at' := VarintStep(ty, data, at, vs);
      var s := ScanVarint(data[at..]);
      if s == 0 {
        return false, slots, vs;
      }
      var w := ParseVarint(ty, data[at..][..s]);
      StoreOne(before, slots, vs, w);
      slots := Store(slots, room, AWord(w));
      vs := next;
      at := at + s;
      assert at == at';
    }
    VarintsDone(ty, data, at, vs);
    ok := true;
  }

  lemma VarintsDone(ty: ProtoType, data: Bytes, at: nat, vs: seq<Value>)
    requires VarintsRead(ty, data, at, vs) && at == |data|
    ensures ParseVarints(ty, data) == Some(vs)
  {
    assert data[at..] == [] && vs + [] == vs;
  }

  lemma VarintsStart(ty: ProtoType, data: Bytes)
    ensures VarintsRead(ty, data, 0, [])
  {
    assert data[0..] == data && data[..0] == [];
    var rest := ParseVarints(ty, data);
    if rest.Some? { assert [] + rest.value == rest.value; }
  }

  lemma FixedStep(k: nat, data: Bytes, at: nat, vs: seq<Value>)
    requires k > 0 && at + k <= |data| && ParseFixeds(k, data) == vs + ParseFixeds(k, data[at..])
    ensures ParseFixeds(k, data) == (vs + [Word(FixedVal(data[at..at + k]))]) + ParseFixeds(k, data[at + k..])
  {
    assert data[at..][..k] == data[at..at + k] && data[at..][k..] == data[at + k..];
  }

  // parse_packed_repeated_member on words of k bytes
  method ParsePackedFixeds(k: nat, data: Bytes, before: seq<AValue>, room: nat)
    returns (slots: seq<AValue>, ghost vs: seq<Value>)
    requires (k == 4 || k == 8) && |data| % k == 0 && |before| + |data| / k <= room
    ensures vs == ParseFixeds(k, data) && StoredAfter(before, slots, vs)
  {
    slots, vs := before, [];
    var at, count := 0, |data| / k;
    assert data[0..] == data;
    for i := 0 to count
      invariant at == k * i <= |data| && StoredAfter(before, slots, vs) && |vs| == i
      invariant ParseFixeds(k, data) == vs + ParseFixeds(k, data[at..])
    {
      FixedStep(k, data, at, vs);
      var w := FixedVal(data[at..at + k]);
      StoreOne(before, slots, vs, w);
      slots := Store(slots, room, AWord(w));
      vs := vs + [Word(w)];
      at := at + k;
    }
  }

  // parse_packed_repeated_member on booleans
  method ParsePackedBooleans(data: Bytes, before: seq<AValue>, room: nat)
    returns (ok: bool, slots: seq<AValue>, ghost vs: seq<Value>)
    requires |before| + |data| <= room
    ensures ok == ParsePacked(BOOL, data).Some?
    ensures ok ==> ParsePacked(BOOL, data) == Some(vs) && StoredAfter(before, slots, vs)
  {
    slots, vs := before, [];
    for i := 0 to |data|
      invariant StoredAfter(before, slots, vs) && |vs| == i
      invariant forall j :: 0 <= j < i ==> data[j] <= 1 && vs[j] == Word(data[j])
    {
      if data[i] > 1 {
        return false, slots, vs;
      }
      StoreOne(before, slots, vs, data[i]);
      slots := Store(slots, room, AWord(data[i]));
      vs := vs + [Word(data[i])];
    }
    assert seq(|data|, i requires 0 <= i < |data| => Word(data[i])) == vs;
    ok := true;
  }

  // parse_packed_repeated_member
  method ParsePackedRepeated(ty: ProtoType, data: Bytes, before: seq<AValue>, room: nat)
    returns (ok: bool, slots: seq<AValue>, ghost vs: seq<Value>)
    requires CountPacked(ty, data).Some? && |before| + CountPacked(ty, data).value <= room
    ensures ok == ParsePacked(ty, data).Some?
    ensures ok ==> ParsePacked(ty, data) == Some(vs) && StoredAfter(before, slots, vs)
  {
    if ty == BOOL {
      ok, slots, vs := ParsePackedBooleans(data, before, room);
    } else if WireOf(ty) == BITS32 {
      ok := true;
      slots, vs := ParsePackedFixeds(4, data, before, room);
    } else if WireOf(ty) == BITS64 {
      ok := true;
      slots, vs := ParsePackedFixeds(8, data, before, room);
    } else {
      ok, slots, vs := ParsePackedVarints(ty, data, before, room);
    }
  }
}
