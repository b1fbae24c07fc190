/** protobuf_c_message_unpack: for every input and every pattern of refused requests it either gives the decoded
    message, which owns every block it kept, or NULL and keeps none. */
module Unpack {
  import opened Base128
  import opened Basics
  import opened Wire
  import opened Decoder
  import opened Framing
  import opened RoundTrip
  import opened Counting
  import opened Memory
  import opened Parsing
  import opened Scanning
  import opened ScanPass
  import opened ArrayPass

  // ---- one record ----

  // A value that owns nothing, as the memory of an array is taken before it is written.
  // No length in the sub-message that the record carries wraps around.
  predicate SubUnwrapped(S: Schema, f: Field, it: Item)
  {
    f.ty == MESSAGE && f.sub < |S| && it.wire == LENGTH_PREFIXED && PrefixLength(it) > 0 ==>
      Unwrapped(S, f.sub, Body(it))
  }

  method Clear(S: Schema, al: Allocator, f: Field, v: AValue, maybeClear: bool, ghost rest: multiset<nat>)
    requires al.Valid() && Fits(S, f, v) && al.live == rest + OfValue(v)
    requires !maybeClear ==> OfValue(v) == multiset{}
    modifies al
    ensures al.Valid() && al.live == rest && al.refused == old(al.refused)
  {
    if maybeClear {
      FreeValue(S, al, f, v, rest);
    }
  }

  method NewString(al: Allocator, body: Bytes) returns (ok: bool, v: AValue)
    requires al.Valid()
    modifies al
    ensures al.Valid() && al.live == old(al.live) + OfValue(v)
    ensures al.refused == old(al.refused) + if ok then 0 else 1
    ensures if ok then v.AStr? && v.p.Own? && v.s == body else v == AStr(Null, [])
  {
    var p := al.Alloc(|body| + 1);
    ok := p != 0;
    v := if ok then AStr(Own(p), body) else AStr(Null, []);
  }

  method NewBytes(al: Allocator, body: Bytes) returns (ok: bool, v: AValue)
    requires al.Valid()
    modifies al
    ensures al.Valid() && al.live == old(al.live) + OfValue(v)
    ensures al.refused == old(al.refused) + if ok then 0 else 1
    ensures v.ABin? && !v.p.Dflt? && if ok then v.b == body else v == ABin(Null, [])
  {
    var p := al.Alloc(|body|);
    ok := p != 0 || |body| == 0;
    v := ABin(if p != 0 then Own(p) else Null, if ok then body else []);
  }

  // parse_required_member; what the member held is released first if maybeClear
  method ParseRequiredMember(S: Schema, tables: seq<Table>, al: Allocator, f: Field, it: Item, prefixLen: nat,
                             v0: AValue,
                             maybeClear: bool, ghost rest: multiset<nat>)
    returns (ok: bool, v: AValue)
    requires WellFormed(S) && Tables(S, tables) && WellFormedField(S, f)
    requires LexOk(it) && |it.payload| < TWO_32 && (it.wire == LENGTH_PREFIXED ==> prefixLen == PrefixLength(it))
    requires SubUnwrapped(S, f, it)
    requires al.Valid() && Fits(S, f, v0) && (!maybeClear ==> OfValue(v0) == multiset{})
    requires al.live == rest + OfValue(v0)
    modifies al
    ensures al.Valid() && al.refused >= old(al.refused)
    ensures Fits(S, f, v) && al.live == rest + OfValue(v)
    ensures ok ==> Element(v) && ParseValue(S, f, it) == Some(ValueIn(v))
    ensures !ok ==> ParseValue(S, f, it).None? || al.refused > old(al.refused)
    ensures !ok && OfValue(v0) == multiset{} ==> OfValue(v) == multiset{}
    decreases |it.payload|, 1
  {
    v := v0;
    if Packable(f.ty) {
      NumbersOwnNothing(S, f, v0);
      var w := ParseNumber(f.ty, it);
      ok := w.Some?;
      if ok { v := AWord(w.value); }
    } else if it.wire != LENGTH_PREFIXED {
      ok := false;
    } else {
      Clear(S, al, f, v, maybeClear, rest);
      ok, v := ParseBody(S, tables, al, f, it, it.payload[prefixLen..]);
    }
  }

  // The value in a length-prefixed record, once its member has been cleared.
  method ParseBody(S: Schema, tables: seq<Table>, al: Allocator, f: Field, it: Item, body: Bytes)
    returns (ok: bool, v: AValue)
    requires WellFormed(S) && Tables(S, tables) && WellFormedField(S, f) && !Packable(f.ty)
    requires LexOk(it) && |it.payload| < TWO_32 && it.wire == LENGTH_PREFIXED && body == Body(it)
    requires SubUnwrapped(S, f, it) && al.Valid()
    modifies al
    ensures al.Valid() && al.refused >= old(al.refused)
    ensures Fits(S, f, v) && al.live == old(al.live) + OfValue(v)
    ensures ok ==> Element(v) && ParseValue(S, f, it) == Some(ValueIn(v))
    ensures !ok ==> OfValue(v) == multiset{} && (ParseValue(S, f, it).None? || al.refused > old(al.refused))
    decreases |it.payload|, 0
  {
    if f.ty == STRING {
      ok, v := NewString(al, body);
    } else if f.ty == BYTES {
      ok, v := NewBytes(al, body);
    } else {
      PrefixPositive(it);
      var subm := UnpackMessage(S, tables, al, f.sub, body);
      ok := subm.Some?;
      v := AMsg(if ok then SubRef(subm.value) else NoRef);
    }
  }

  lemma NumbersOwnNothing(S: Schema, f: Field, v: AValue)
    requires Packable(f.ty) && Fits(S, f, v)
    ensures v.AWord? && OfValue(v) == multiset{}
  {
  }

  lemma PrefixPositive(it: Item)
    requires LexOk(it) && it.wire == LENGTH_PREFIXED
    ensures 0 < PrefixLength(it) <= |it.payload| && |Body(it)| < |it.payload|
  {
  }

  predicate SameArray(a: AMember, b: AMember)
  {
    (a.AMany? <==> b.AMany?) && (a.AMany? ==> a.arr == b.arr && a.room == b.room)
  }

  // parse_required_member and parse_optional_member
  method ParseSingularMember(S: Schema, tables: seq<Table>, al: Allocator, f: Field, it: Item, prefixLen: nat,
                             mem0: AMember, ghost rest: multiset<nat>)
    returns (ok: bool, mem: AMember)
    requires WellFormed(S) && Tables(S, tables) && WellFormedField(S, f)
    requires LexOk(it) && |it.payload| < TWO_32 && (it.wire == LENGTH_PREFIXED ==> prefixLen == PrefixLength(it))
    requires SubUnwrapped(S, f, it)
    requires al.Valid() && SoundMember(S, f, mem0) && al.live == rest + OfMember(mem0)
    requires f.lbl != REPEATED
    modifies al
    ensures al.Valid() && al.refused >= old(al.refused)
    ensures SoundMember(S, f, mem) && al.live == rest + OfMember(mem)
    ensures SameArray(mem0, mem)
    ensures ok ==> ParseMember(S, f, MemberIn(mem0), it) == Some(MemberIn(mem))
    ensures !ok ==> ParseMember(S, f, MemberIn(mem0), it).None? || al.refused > old(al.refused)
    decreases |it.payload|, 2
  {
    var v;
    ok, v := ParseRequiredMember(S, tables, al, f, it, prefixLen, mem0.v, true, rest);
    mem := if mem0.ASingle? then ASingle(v) else AFlagged(if ok then true else mem0.has, v);
  }

  // parse_repeated_member
  method ParseRepeatedMember(S: Schema, tables: seq<Table>, al: Allocator, f: Field, it: Item, prefixLen: nat,
                             mem0: AMember, ghost rest: multiset<nat>)
    returns (ok: bool, mem: AMember)
    requires WellFormed(S) && Tables(S, tables) && WellFormedField(S, f)
    requires LexOk(it) && |it.payload| < TWO_32 && (it.wire == LENGTH_PREFIXED ==> prefixLen == PrefixLength(it))
    requires SubUnwrapped(S, f, it)
    requires al.Valid() && SoundMember(S, f, mem0) && al.live == rest + OfMember(mem0)
    requires f.lbl == REPEATED && !IsPackedRun(f, it) && mem0.n < mem0.room
    modifies al
    ensures al.Valid() && al.refused >= old(al.refused)
    ensures SoundMember(S, f, mem) && al.live == rest + OfMember(mem)
    ensures SameArray(mem0, mem)
    ensures ok ==> ParseMember(S, f, MemberIn(mem0), it) == Some(MemberIn(mem))
    ensures !ok ==> ParseMember(S, f, MemberIn(mem0), it).None? || al.refused > old(al.refused)
    decreases |it.payload|, 2
  {
    mem := mem0;
    var v;
    ok, v := ParseRequiredMember(S, tables, al, f, it, prefixLen, ZeroValue(f), false, rest + OfMember(mem0));
    if ok {
      ElementStored(S, f, mem, v);
      mem := mem.(n := mem.n + 1, vs := Store(mem.vs, mem.room, v));
    }
  }

  // parse_packed_repeated_member
  method ParsePackedMember(S: Schema, f: Field, it: Item, prefixLen: nat, mem0: AMember)
    returns (ok: bool, mem: AMember)
    requires LexOk(it) && SoundMember(S, f, mem0) && prefixLen == PrefixLength(it)
    requires f.lbl == REPEATED && IsPackedRun(f, it) && Packable(f.ty)
    requires CountOf(f, it).Some? && mem0.n + CountOf(f, it).value <= mem0.room
    ensures SoundMember(S, f, mem) && OfMember(mem) == OfMember(mem0) && SameArray(mem0, mem)
    ensures if ok then ParseMember(S, f, MemberIn(mem0), it) == Some(MemberIn(mem))
            else ParseMember(S, f, MemberIn(mem0), it).None?
  {
    mem := mem0;
    var slots; ghost var more;
    ok, slots, more := ParsePackedRepeated(f.ty, it.payload[prefixLen..], mem.vs, mem.room);
    if ok {
      PackedStored(S, f, mem, slots, more);
      mem := mem.(n := mem.n + (|slots| - |mem.vs|), vs := slots);
    }
  }

  // parse_member on the member of a known field
  method ParseKnownMember(S: Schema, tables: seq<Table>, al: Allocator, f: Field, it: Item, prefixLen: nat,
                          mem0: AMember, ghost rest: multiset<nat>)
    returns (ok: bool, mem: AMember)
    requires WellFormed(S) && Tables(S, tables) && WellFormedField(S, f)
    requires LexOk(it) && |it.payload| < TWO_32 && (it.wire == LENGTH_PREFIXED ==> prefixLen == PrefixLength(it))
    requires SubUnwrapped(S, f, it)
    requires al.Valid() && SoundMember(S, f, mem0) && al.live == rest + OfMember(mem0)
    requires mem0.AMany? ==> CountOf(f, it).Some? && mem0.n + CountOf(f, it).value <= mem0.room
    modifies al
    ensures al.Valid() && al.refused >= old(al.refused)
    ensures SoundMember(S, f, mem) && al.live == rest + OfMember(mem)
    ensures SameArray(mem0, mem)
    ensures ok ==> ParseMember(S, f, MemberIn(mem0), it) == Some(MemberIn(mem))
    ensures !ok ==> ParseMember(S, f, MemberIn(mem0), it).None? || al.refused > old(al.refused)
    decreases |it.payload|, 3
  {
    match f.lbl
    case REQUIRED =>
      ok, mem := ParseSingularMember(S, tables, al, f, it, prefixLen, mem0, rest);
    case OPTIONAL =>
      ok, mem := ParseSingularMember(S, tables, al, f, it, prefixLen, mem0, rest);
    case REPEATED =>
      if it.wire == LENGTH_PREFIXED && (f.packed || Packable(f.ty)) {
        ok, mem := ParsePackedMember(S, f, it, prefixLen, mem0);
      } else {
        ok, mem := ParseRepeatedMember(S, tables, al, f, it, prefixLen, mem0, rest);
      }
  }

  lemma ElementStored(S: Schema, f: Field, mem: AMember, v: AValue)
    requires f.lbl == REPEATED && SoundMember(S, f, mem) && Fits(S, f, v) && Element(v)
    ensures var mem' := mem.(n := mem.n + 1, vs := mem.vs + [v]);
            SoundMember(S, f, mem') && OfMember(mem') == OfMember(mem) + OfValue(v)
            && MemberIn(mem') == Many(MemberIn(mem).vs + [ValueIn(v)])
  {
    var mem' := mem.(n := mem.n + 1, vs := mem.vs + [v]);
    assert mem'.vs[..|mem.vs|] == mem.vs;
    assert MemberIn(mem').vs == MemberIn(mem).vs + [ValueIn(v)];
  }

  lemma {:induction false} WordsStored(S: Schema, f: Field, before: seq<AValue>, slots: seq<AValue>, vs: seq<Value>)
    requires Packable(f.ty) && StoredAfter(before, slots, vs)
    ensures OfValues(slots) == OfValues(before)
    ensures forall i :: |before| <= i < |slots| ==> Fits(S, f, slots[i]) && Element(slots[i])
    decreases |vs|
  {
    if vs == [] {
      assert slots == before;
    } else {
      var n, front := |slots| - 1, vs[..|vs| - 1];
      assert slots[..n] == before + Stored(front);
      WordsStored(S, f, before, slots[..n], front);
      assert slots[n] == Stored(vs)[|vs| - 1];
    }
  }

  lemma PackedStored(S: Schema, f: Field, mem: AMember, slots: seq<AValue>, vs: seq<Value>)
    requires f.lbl == REPEATED && Packable(f.ty) && SoundMember(S, f, mem) && StoredAfter(mem.vs, slots, vs)
    ensures var mem' := mem.(n := mem.n + (|slots| - |mem.vs|), vs := slots);
            SoundMember(S, f, mem') && OfMember(mem') == OfMember(mem)
            && MemberIn(mem') == Many(MemberIn(mem).vs + vs)
  {
    var mem' := mem.(n := mem.n + (|slots| - |mem.vs|), vs := slots);
    WordsStored(S, f, mem.vs, slots, vs);
    forall i | 0 <= i < |slots|
      ensures MemberIn(mem').vs[i] == (MemberIn(mem).vs + vs)[i] && Fits(S, f, slots[i]) && Element(slots[i])
    {
      if i < |mem.vs| {
        assert slots[i] == mem.vs[i];
      } else {
        StoredAt(vs, i - |mem.vs|);
        assert slots[i] == Stored(vs)[i - |mem.vs|];
      }
    }
  }

  // ---- all records ----

  // The member has room for everything the record will write.
  predicate Room(fs: seq<Field>, rv: AMessage, sm: ScannedMember, it: Item)
    requires |rv.members| == |fs| && sm.field < |fs|
  {
    if sm.field < 0 then rv.nUnknown < rv.unknownRoom
    else fs[sm.field].lbl == REPEATED ==>
      && rv.members[sm.field].AMany? && CountOf(fs[sm.field], it).Some?
      && rv.members[sm.field].n + CountOf(fs[sm.field], it).value <= rv.members[sm.field].room
  }

  // The arrays stay where they are.
  predicate SameArrays(a: AMessage, b: AMessage)
  {
    && a.block == b.block && a.desc == b.desc && |a.members| == |b.members|
    && a.unknownArr == b.unknownArr && a.unknownRoom == b.unknownRoom
    && forall i :: 0 <= i < |a.members| ==> SameArray(a.members[i], b.members[i])
  }

  // The message with one more unknown record, which is kept as it is.
  function WithUnknown(rv: AMessage, u: AUnknown): AMessage
  {
    rv.(nUnknown := rv.nUnknown + 1, unknown := rv.unknown + [u])
  }

  lemma UnknownStored(rv: AMessage, u: AUnknown)
    ensures OfMessage(WithUnknown(rv, u)) == OfMessage(rv) + Block(u.block)
    ensures MessageIn(WithUnknown(rv, u)) ==
            MessageIn(rv).(unknown := MessageIn(rv).unknown + [Unknown(u.tag, u.wire, u.data)])
  {
    assert (rv.unknown + [u])[..|rv.unknown|] == rv.unknown;
  }

  lemma UnknownSound(S: Schema, rv: AMessage, u: AUnknown)
    requires Sound(S, rv)
    ensures Whole(Sound(S, WithUnknown(rv, u)) && SameArrays(rv, WithUnknown(rv, u)))
  {
  }

  lemma UnknownApplies(S: Schema, rv: AMessage, it: Item)
    requires Sound(S, rv) && FindField(S[rv.desc], it.tag) < 0
    ensures Apply(S, S[rv.desc], MessageIn(rv), it)
            == Some(MessageIn(rv).(unknown := MessageIn(rv).unknown + [Unknown(it.tag, it.wire, it.payload)]))
  {
  }

  lemma UnknownAdded(S: Schema, rv: AMessage, it: Item, u: AUnknown)
    requires Sound(S, rv) && FindField(S[rv.desc], it.tag) < 0
    requires u.tag == it.tag && u.wire == it.wire && u.data == it.payload
    ensures Whole(Sound(S, WithUnknown(rv, u)) && SameArrays(rv, WithUnknown(rv, u)))
    ensures OfMessage(WithUnknown(rv, u)) == OfMessage(rv) + Block(u.block)
    ensures Whole(Apply(S, S[rv.desc], MessageIn(rv), it) == Some(MessageIn(WithUnknown(rv, u))))
  {
    UnknownStored(rv, u);
    UnknownSound(S, rv, u);
    UnknownApplies(S, rv, it);
  }

  // parse_member on an unknown field
  method ParseUnknown(S: Schema, al: Allocator, data: Bytes, rv0: AMessage, sm: ScannedMember,
                      ghost rest: multiset<nat>)
    returns (ok: bool, rv: AMessage)
    requires Sound(S, rv0) && GoodScan(S[rv0.desc], data, sm) && sm.field < 0 && rv0.nUnknown < rv0.unknownRoom
    requires al.Valid() && al.live == rest + OfMessage(rv0)
    modifies al
    ensures al.Valid() && al.refused >= old(al.refused)
    ensures Whole(Sound(S, rv) && SameArrays(rv0, rv)) && al.live == rest + OfMessage(rv)
    ensures ok ==> Whole(Apply(S, S[rv0.desc], MessageIn(rv0), ItemAt(data, sm)) == Some(MessageIn(rv)))
    ensures !ok ==> Apply(S, S[rv0.desc], MessageIn(rv0), ItemAt(data, sm)).None? || al.refused > old(al.refused)
  {
    var p := al.Alloc(sm.len);
    ok := p != 0;
    var u := AUnknown(sm.tag, sm.wire, data[sm.at..sm.at + sm.len], p);
    UnknownAdded(S, rv0, ItemAt(data, sm), u);
    rv := WithUnknown(rv0, u);
  }

  // parse_member
  method ParseScanned(S: Schema, tables: seq<Table>, al: Allocator, data: Bytes, rv0: AMessage, sm: ScannedMember,
                      ghost rest: multiset<nat>)
    returns (ok: bool, rv: AMessage)
    requires WellFormed(S) && Tables(S, tables) && |data| < TWO_32 && Sound(S, rv0)
    requires GoodScan(S[rv0.desc], data, sm) && Room(S[rv0.desc], rv0, sm, ItemAt(data, sm))
    requires ItemUnwrapped(S, S[rv0.desc], ItemAt(data, sm))
    requires al.Valid() && al.live == rest + OfMessage(rv0)
    modifies al
    ensures al.Valid() && al.refused >= old(al.refused)
    ensures Sound(S, rv) && al.live == rest + OfMessage(rv) && SameArrays(rv0, rv)
    ensures ok ==> Apply(S, S[rv0.desc], MessageIn(rv0), ItemAt(data, sm)) == Some(MessageIn(rv))
    ensures !ok ==> Apply(S, S[rv0.desc], MessageIn(rv0), ItemAt(data, sm)).None? || al.refused > old(al.refused)
    decreases sm.len, 4
  {
    if sm.field < 0 {
      ok, rv := ParseUnknown(S, al, data, rv0, sm, rest);
    } else {
      var i := sm.field;
      var f := S[rv0.desc][i];
      OfAllButSplits(rv0, i);
      var mem;
      ok, mem := ParseKnownMember(S, tables, al, f, ItemAt(data, sm), sm.prefixLen, rv0.members[i],
                                  rest + OfAllBut(rv0, i));
      MemberStored(rv0, i, mem);
      SoundStored(S, rv0, i, mem);
      rv := rv0.(members := rv0.members[i := mem]);
    }
  }

  lemma SoundStored(S: Schema, rv: AMessage, i: nat, mem: AMember)
    requires Sound(S, rv) && i < |rv.members| && SoundMember(S, S[rv.desc][i], mem) && SameArray(rv.members[i], mem)
    ensures var rv' := rv.(members := rv.members[i := mem]); Sound(S, rv') && SameArrays(rv, rv')
  {
  }

  // ---- the parse pass ----

  // rv holds what the first k records make.
  predicate Parsed(S: Schema, items: seq<Item>, bound: nat, k: nat, rv: AMessage)
  {
    && k <= |items| && Small(items, bound) && Sound(S, rv)
    && ApplyAll(S, S[rv.desc], Start(S, rv.desc), items[..k], bound) == Some(MessageIn(rv))
  }

  lemma RoomThere(S: Schema, items: seq<Item>, bound: nat, k: nat, rv: AMessage, sm: ScannedMember)
    requires Parsed(S, items, bound, k, rv) && Prepared(S[rv.desc], rv, items) && k < |items|
    requires sm.field == FindField(S[rv.desc], items[k].tag)
    ensures Room(S[rv.desc], rv, sm, items[k])
  {
    var fs := S[rv.desc];
    var next := items[..k + 1];
    CountingAgrees(S, rv.desc, items, bound, k);
    assert next[..k] == items[..k] && next[k] == items[k];
    assert Countable(fs, items[k]);
    if sm.field >= 0 {
      CountsGrow(fs, items, k + 1, sm.field);
      assert SoundMember(S, fs[sm.field], rv.members[sm.field]);
      assert fs[sm.field].lbl == REPEATED ==> |MessageIn(rv).members[sm.field].vs| == rv.members[sm.field].n;
    } else {
      CountsGrow(fs, items, k + 1, 0);
    }
  }

  lemma NextRecord(S: Schema, items: seq<Item>, bound: nat, k: nat, rv: AMessage)
    requires Parsed(S, items, bound, k, rv) && k < |items|
    ensures var r := Apply(S, S[rv.desc], MessageIn(rv), items[k]);
            ApplyAll(S, S[rv.desc], Start(S, rv.desc), items[..k + 1], bound) == r
            && (r.None? ==> ApplyAll(S, S[rv.desc], Start(S, rv.desc), items, bound).None?)
  {
    var fs, start := S[rv.desc], Start(S, rv.desc);
    assert items[..k] + [items[k]] == items[..k + 1];
    ApplyOne(S, fs, start, items[..k], items[k], bound);
    assert items[..k + 1] + items[k + 1..] == items;
    ApplyConcat(S, fs, start, items[..k + 1], items[k + 1..], bound);
  }

  lemma PreparedStays(S: Schema, items: seq<Item>, a: AMessage, b: AMessage)
    requires a.desc < |S| && Prepared(S[a.desc], a, items) && SameArrays(a, b)
    ensures b.desc == a.desc && Prepared(S[a.desc], b, items)
  {
    forall i | 0 <= i < |S[a.desc]| && S[a.desc][i].lbl == REPEATED
      ensures b.members[i].AMany? && b.members[i].room == Elements(S[a.desc], items, i)
    {
      assert SameArray(a.members[i], b.members[i]);
    }
  }

  // rv, of descriptor d, holds what the first k records make, and has room for all.
  ghost predicate Going(S: Schema, d: nat, items: seq<Item>, bound: nat, k: nat, rv: AMessage)
  {
    d < |S| && rv.desc == d && Parsed(S, items, bound, k, rv) && Prepared(S[d], rv, items)
  }

  // The records make no message.
  ghost predicate Failing(S: Schema, d: nat, items: seq<Item>, bound: nat)
    requires d < |S| && Small(items, bound)
  {
    ApplyAll(S, S[d], Start(S, d), items, bound).None?
  }

  // The k-th record
  method ParseNext(S: Schema, tables: seq<Table>, al: Allocator, data: Bytes, rv0: AMessage, sm: ScannedMember,
                   ghost d: nat, ghost items: seq<Item>, ghost k: nat, ghost rest: multiset<nat>, ghost k': nat)
    returns (ok: bool, rv: AMessage)
    requires WellFormed(S) && Tables(S, tables) && |data| < TWO_32
    requires Whole(Going(S, d, items, |data|, k, rv0)) && k' == k + 1
    requires k < |items| && GoodScan(S[d], data, sm) && items[k] == ItemAt(data, sm)
    requires ItemUnwrapped(S, S[d], items[k])
    requires al.Valid() && al.live == rest + OfMessage(rv0)
    modifies al
    ensures al.Valid() && al.refused >= old(al.refused)
    ensures Sound(S, rv) && al.live == rest + OfMessage(rv) && rv.desc == d
    ensures ok ==> Whole(Going(S, d, items, |data|, k', rv))
    ensures !ok ==> Failing(S, d, items, |data|) || al.refused > old(al.refused)
    decreases sm.len, 5
  {
    RoomThere(S, items, |data|, k, rv0, sm);
    NextRecord(S, items, |data|, k, rv0);
    ok, rv := ParseScanned(S, tables, al, data, rv0, sm, rest);
    PreparedStays(S, items, rv0, rv);
  }

  predicate AllUnwrapped(S: Schema, fs: seq<Field>, items: seq<Item>)
  {
    forall k :: 0 <= k < |items| ==> ItemUnwrapped(S, fs, items[k])
  }

  // The slab holds the records from the k-th on.
  predicate Holds(data: Bytes, slab: seq<ScannedMember>, items: seq<Item>, k: nat)
  {
    && k + |slab| <= |items|
    && forall j :: 0 <= j < |slab| ==>
         slab[j].at + slab[j].len <= |data| && items[k + j] == ItemAt(data, slab[j])
  }

  method ParseSlab(S: Schema, tables: seq<Table>, al: Allocator, data: Bytes, rv0: AMessage,
                   slab: seq<ScannedMember>, ghost d: nat, ghost items: seq<Item>, ghost k: nat,
                   ghost rest: multiset<nat>)
    returns (ok: bool, rv: AMessage, ghost k': nat)
    requires WellFormed(S) && Tables(S, tables) && |data| < TWO_32
    requires Whole(Going(S, d, items, |data|, k, rv0))
    requires GoodScans(S[d], data, slab) && Holds(data, slab, items, k) && AllUnwrapped(S, S[d], items)
    requires al.Valid() && al.live == rest + OfMessage(rv0)
    modifies al
    ensures al.Valid() && al.refused >= old(al.refused)
    ensures Sound(S, rv) && al.live == rest + OfMessage(rv) && rv.desc == d
    ensures ok ==> k' == k + |slab| && Whole(Going(S, d, items, |data|, k', rv))
    ensures !ok ==> Failing(S, d, items, |data|) || al.refused > old(al.refused)
    decreases |data|, 2
  {
    ok, rv, k' := true, rv0, k;
    for j := 0 to |slab|
      invariant al.Valid() && al.refused >= old(al.refused) && al.live == rest + OfMessage(rv)
      invariant k' == k + j && Whole(Going(S, d, items, |data|, k', rv))
    {
      ghost var next := k' + 1;
      ok, rv := ParseNext(S, tables, al, data, rv, slab[j], d, items, k', rest, next);
      if !ok {
        return;
      }
      k' := next;
    }
    ok := true;
  }

  // The records of slab i, counted over all slabs.
  lemma SlabItems(data: Bytes, slabs: seq<seq<ScannedMember>>, fs: seq<Field>, i: nat, k: nat)
    requires GoodScans(fs, data, Flat(slabs)) && i < |slabs| && k == |Flat(slabs[..i])|
    ensures GoodScans(fs, data, slabs[i]) && Holds(data, slabs[i], Items(data, Flat(slabs)), k)
    ensures |Flat(slabs[..i + 1])| == k + |slabs[i]|
  {
    assert slabs[..i + 1][..i] == slabs[..i];
    forall j | 0 <= j < |slabs[i]|
      ensures |Flat(slabs[..i])| + j < |Flat(slabs)| && Flat(slabs)[|Flat(slabs[..i])| + j] == slabs[i][j]
    {
      FlatAt(slabs, i, j);
    }
    FlatPrefix(slabs, i + 1);
  }

  lemma {:induction false} FlatPrefix(slabs: seq<seq<ScannedMember>>, i: nat)
    requires i <= |slabs|
    ensures |Flat(slabs[..i])| <= |Flat(slabs)|
  {
    if i < |slabs| {
      FlatPrefix(slabs[..|slabs| - 1], i);
      assert slabs[..|slabs| - 1][..i] == slabs[..i];
    } else {
      assert slabs[..i] == slabs;
    }
  }

  lemma AllParsed(S: Schema, items: seq<Item>, bound: nat, rv: AMessage)
    requires Parsed(S, items, bound, |items|, rv)
    ensures ApplyAll(S, S[rv.desc], Start(S, rv.desc), items, bound) == Some(MessageIn(rv))
  {
    assert items[..|items|] == items;
  }

  // The replay of the slabs, in scan order.
  method ParseAll(S: Schema, tables: seq<Table>, al: Allocator, data: Bytes, rv0: AMessage,
                  slabs: seq<seq<ScannedMember>>, ghost d: nat, ghost items: seq<Item>, ghost rest: multiset<nat>)
    returns (ok: bool, rv: AMessage)
    requires WellFormed(S) && Tables(S, tables) && |data| < TWO_32
    requires Whole(Going(S, d, items, |data|, 0, rv0))
    requires GoodScans(S[d], data, Flat(slabs)) && items == Items(data, Flat(slabs)) && AllUnwrapped(S, S[d], items)
    requires al.Valid() && al.live == rest + OfMessage(rv0)
    modifies al
    ensures al.Valid() && al.refused >= old(al.refused)
    ensures Sound(S, rv) && al.live == rest + OfMessage(rv) && rv.desc == d
    ensures if ok then ApplyAll(S, S[d], Start(S, d), items, |data|) == Some(MessageIn(rv))
            else Failing(S, d, items, |data|) || al.refused > old(al.refused)
    decreases |data|, 3
  {
    ghost var k := 0;
    ok, rv := true, rv0;
    for i := 0 to |slabs|
      invariant al.Valid() && al.refused >= old(al.refused) && al.live == rest + OfMessage(rv)
      invariant k == |Flat(slabs[..i])| && Whole(Going(S, d, items, |data|, k, rv))
    {
      SlabItems(data, slabs, S[d], i, k);
      ok, rv, k := ParseSlab(S, tables, al, data, rv, slabs[i], d, items, k, rest);
      if !ok {
        return;
      }
    }
    assert slabs[..|slabs|] == slabs;
    AllParsed(S, items, |data|, rv);
    ok := true;
  }

  // protobuf_c_message_unpack
  method UnpackMessage(S: Schema, tables: seq<Table>, al: Allocator, d: nat, data: Bytes) returns (rv: Option<AMessage>)
    requires WellFormed(S) && Tables(S, tables) && d < |S| && |data| < TWO_32 && Unwrapped(S, d, data) && al.Valid()
    modifies al
    ensures al.Valid() && al.refused >= old(al.refused)
    ensures al.live == old(al.live) + if rv.Some? then OfMessage(rv.value) else multiset{}
    ensures rv.Some? ==> Sound(S, rv.value) && Decode(S, d, data) == Some(MessageIn(rv.value))
    ensures rv.None? ==> Decode(S, d, data).None? || al.refused > old(al.refused)
    ensures (forall k :: !al.refuses(k)) ==> (rv.None? <==> Decode(S, d, data).None?)
    decreases |data|, 6
  {
    ghost var rest := al.live;
    var block := al.Alloc(1);
    if block == 0 {
      return None;
    }
    var m := InitMessage(S, d, block);
    FreshIsScanned(S, d, m);
    rv := UnpackInto(S, tables, al, d, data, m, rest);
    if forall k :: !al.refuses(k) { al.NoneRefused(al.requests); }
  }

  // The scan, and what follows it, into a message that has just been initialized.
  method UnpackInto(S: Schema, tables: seq<Table>, al: Allocator, d: nat, data: Bytes, m0: AMessage,
                    ghost rest: multiset<nat>)
    returns (rv: Option<AMessage>)
    requires WellFormed(S) && Tables(S, tables) && d < |S| && |data| < TWO_32 && Unwrapped(S, d, data)
    requires m0.block != 0 && ScanState(S, d, [], m0, 0, NoBits())
    requires al.Valid() && al.live == rest + Block(m0.block)
    modifies al
    ensures al.Valid() && al.refused >= old(al.refused)
    ensures al.live == rest + if rv.Some? then OfMessage(rv.value) else multiset{}
    ensures rv.Some? ==> Whole(Sound(S, rv.value)) && Decode(S, d, data) == Some(MessageIn(rv.value))
    ensures rv.None? ==> Decode(S, d, data).None? || al.refused > old(al.refused)
    decreases |data|, 5
  {
    var ok, slabs, blocks, m, nUnknown, bitmap;
    ok, slabs, blocks, m, nUnknown, bitmap := ScanAll(S, d, tables[d], al, data, m0, rest + Block(m0.block));
    if !ok {
      if Doomed(S, d, data) { DoomedFails(S, d, data); }
      al.Free(m0.block);
      FreeSlabs(al, blocks, rest);
      return None;
    }
    ok, m := UnpackScanned(S, tables, al, d, data, m, slabs, nUnknown, bitmap, rest + OfBlocks(blocks));
    FreeSlabs(al, blocks, rest + if ok then OfMessage(m) else multiset{});
    rv := if ok then Some(m) else None;
  }

  // What the records of the data come to, before any of it has been replayed.
  lemma LexedDecodes(S: Schema, d: nat, data: Bytes, items: seq<Item>) returns (decoded: Option<Message>)
    requires d < |S| && Lex(data) == Some(items) && |items| <= MAX_ITEMS && Unwrapped(S, d, data)
    ensures Small(items, |data|) && AllUnwrapped(S, S[d], items) && decoded == Decode(S, d, data)
    ensures decoded ==
      if RequiredOk(S[d], items) then ApplyAll(S, S[d], Start(S, d), items, |data|) else None
  {
    decoded := Decode(S, d, data);
  }

  lemma ParseStarts(S: Schema, d: nat, items: seq<Item>, bound: nat, rv: AMessage)
    requires d < |S| && Sound(S, rv) && rv.desc == d && Small(items, bound)
    requires Prepared(S[d], rv, items) && MessageIn(rv) == Start(S, d)
    ensures Whole(Going(S, d, items, bound, 0, rv))
  {
    assert items[..0] == [];
  }

  // Everything after the scan: the message is released again on an error.
  method UnpackScanned(S: Schema, tables: seq<Table>, al: Allocator, d: nat, data: Bytes, rv0: AMessage,
                       slabs: seq<seq<ScannedMember>>, nUnknown: nat, bitmap: Bitmap, ghost rest: multiset<nat>)
    returns (ok: bool, rv: AMessage)
    requires WellFormed(S) && Tables(S, tables) && d < |S| && |data| < TWO_32
    requires GoodScans(S[d], data, Flat(slabs)) && |Flat(slabs)| <= MAX_ITEMS
    requires Lex(data) == Some(Items(data, Flat(slabs))) && Unwrapped(S, d, data)
    requires rv0.block != 0 && ScanState(S, d, Items(data, Flat(slabs)), rv0, nUnknown, bitmap)
    requires al.Valid() && al.live == rest + Block(rv0.block)
    modifies al
    ensures al.Valid() && al.refused >= old(al.refused)
    ensures al.live == rest + if ok then OfMessage(rv) else multiset{}
    ensures ok ==> Whole(Sound(S, rv)) && Decode(S, d, data) == Some(MessageIn(rv))
    ensures !ok ==> Decode(S, d, data).None? || al.refused > old(al.refused)
    decreases |data|, 4
  {
    ghost var items := Items(data, Flat(slabs));
    ghost var decoded := LexedDecodes(S, d, data, items);
    ok, rv := AllocateArrays(S, d, al, rv0, nUnknown, bitmap, items, rest);
    if ok {
      ParseStarts(S, d, items, |data|, rv);
      ok, rv := ParseAll(S, tables, al, data, rv, slabs, d, items, rest);
    }
    if !ok {
      FreeUnpacked(S, al, rv, rest);
    }
  }
}
