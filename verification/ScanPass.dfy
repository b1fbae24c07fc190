/** The scan pass over a whole message, and the allocation of its arrays. */
module ScanPass {
  import opened Base128
  import opened Basics
  import opened Wire
  import opened Decoder
  import opened Framing
  import opened RoundTrip
  import opened Counting
  import opened Memory
  import opened Parsing
  import opened Scanning
  import opened RangeTables

  // ---- a fresh message ----

  function ZeroValue(f: Field): (v: AValue)
    ensures OfValue(v) == multiset{}
  {
    match f.ty
    case STRING => AStr(Null, [])
    case BYTES => ABin(Null, [])
    case MESSAGE => AMsg(NoRef)
    case _ => AWord(0)
  }

  function DefaultValue(f: Field): AValue
    requires f.dflt.Default? && DefaultFits(f)
  {
    if f.ty == STRING then AStr(Dflt, [])
    else if f.ty == BYTES then ABin(Dflt, f.dflt.v.b)
    else AWord(f.dflt.v.w)
  }

  function MemberWith(f: Field, v: AValue): AMember
  {
    match f.lbl
    case REQUIRED => ASingle(v)
    case OPTIONAL => if Pointer(f.ty) then ASingle(v) else AFlagged(false, v)
    case REPEATED => AMany(0, 0, 0, [])
  }

  function FreshMember(f: Field): AMember
    requires DefaultFits(f)
  {
    MemberWith(f, if f.dflt == NoDefault then ZeroValue(f) else DefaultValue(f))
  }

  // protobuf_c_message_init_generic
  method InitMessage(S: Schema, d: nat, block: nat) returns (rv: AMessage)
    requires WellFormed(S) && d < |S|
    ensures rv == AMessage(block, d, rv.members, 0, 0, 0, []) && |rv.members| == |S[d]|
    ensures forall i :: 0 <= i < |S[d]| ==> DefaultFits(S[d][i]) && rv.members[i] == FreshMember(S[d][i])
  {
    var fs := S[d];
    rv := AMessage(block, d, seq(|fs|, i requires 0 <= i < |fs| => MemberWith(fs[i], ZeroValue(fs[i]))), 0, 0, 0, []);
    for i := 0 to |fs|
      invariant rv == AMessage(block, d, rv.members, 0, 0, 0, []) && |rv.members| == |fs|
      invariant forall j :: 0 <= j < i ==> WellFormedField(S, fs[j]) && rv.members[j] == FreshMember(fs[j])
      invariant forall j :: i <= j < |fs| ==> rv.members[j] == MemberWith(fs[j], ZeroValue(fs[j]))
    {
      assert WellFormedField(S, fs[i]);
      if fs[i].dflt != NoDefault && fs[i].lbl != REPEATED {
        rv := rv.(members := rv.members[i := MemberWith(fs[i], DefaultValue(fs[i]))]);
      }
    }
  }

  lemma FreshMemberIn(S: Schema, f: Field)
    requires WellFormedField(S, f)
    ensures MemberIn(FreshMember(f)) == InitMember(f)
    ensures SoundMember(S, f, FreshMember(f)) && OfMember(FreshMember(f)) == multiset{}
  {
  }

  // ---- counting ----

  // The bits that are set in each of the sixteen bytes of required_fields_bitmap.
  type Bitmap = seq<set<nat>>

  function NoBits(): (b: Bitmap)
    ensures |b| == 16 && forall i :: 0 <= i < 16 ==> b[i] == {}
  {
    seq(16, _ => {})
  }

  // REQUIRED_FIELD_BITMAP_SET
  function SetBit(b: Bitmap, index: nat): Bitmap
    requires |b| == 16
  {
    b[(index / 8) % 16 := b[(index / 8) % 16] + {index % 8}]
  }

  predicate BitmapTells(fs: seq<Field>, items: seq<Item>, bitmap: Bitmap)
  {
    |bitmap| == 16 && forall b :: 0 <= b < 16 ==>
      (bitmap[b] == {} <==> forall k :: 0 <= k < |items| ==> !MarksByte(fs, items[k], b))
  }

  // A member after the records have been scanned: a repeated one has its count and no array.
  function ScannedInto(fs: seq<Field>, items: seq<Item>, i: nat): AMember
    requires i < |fs| && DefaultFits(fs[i])
  {
    if fs[i].lbl == REPEATED then AMany(Elements(fs, items, i), 0, 0, []) else FreshMember(fs[i])
  }

  predicate ScanState(S: Schema, d: nat, items: seq<Item>, rv: AMessage, nUnknown: nat, bitmap: Bitmap)
  {
    && d < |S| && rv == AMessage(rv.block, d, rv.members, 0, 0, 0, []) && |rv.members| == |S[d]|
    && BitmapTells(S[d], items, bitmap) && nUnknown == Unknowns(S[d], items)
    && (forall k :: 0 <= k < |items| ==> Countable(S[d], items[k]))
    && forall i :: 0 <= i < |S[d]| ==> DefaultFits(S[d][i]) && rv.members[i] == ScannedInto(S[d], items, i)
  }

  lemma MarksLater(fs: seq<Field>, items: seq<Item>, it: Item, b: nat)
    ensures (forall k :: 0 <= k < |items + [it]| ==> !MarksByte(fs, (items + [it])[k], b)) <==>
            (forall k :: 0 <= k < |items| ==> !MarksByte(fs, items[k], b)) && !MarksByte(fs, it, b)
  {
    assert (items + [it])[|items|] == it;
    assert forall k :: 0 <= k < |items| ==> (items + [it])[k] == items[k];
  }

  lemma BitmapStep(fs: seq<Field>, items: seq<Item>, it: Item, bitmap: Bitmap)
    requires BitmapTells(fs, items, bitmap)
    ensures var g := FindField(fs, it.tag);
            BitmapTells(fs, items + [it], if g >= 0 && fs[g].lbl == REQUIRED then SetBit(bitmap, g) else bitmap)
  {
    var g := FindField(fs, it.tag);
    var after := if g >= 0 && fs[g].lbl == REQUIRED then SetBit(bitmap, g) else bitmap;
    forall b | 0 <= b < 16
      ensures after[b] == {} <==> forall k :: 0 <= k < |items + [it]| ==> !MarksByte(fs, (items + [it])[k], b)
    {
      MarksLater(fs, items, it, b);
      if MarksByte(fs, it, b) { assert g % 8 in after[b]; }
    }
  }

  lemma ScannedIntoStep(fs: seq<Field>, items: seq<Item>, it: Item, j: nat)
    requires j < |fs| && DefaultFits(fs[j]) && Countable(fs, it)
    ensures var was := ScannedInto(fs, items, j);
            ScannedInto(fs, items + [it], j) ==
            if fs[j].lbl == REPEATED && FindField(fs, it.tag) == j then was.(n := was.n + CountOf(fs[j], it).value)
            else was
  {
    assert (items + [it])[..|items|] == items;
  }

  lemma CountableStep(fs: seq<Field>, items: seq<Item>, it: Item)
    requires Countable(fs, it) && forall k :: 0 <= k < |items| ==> Countable(fs, items[k])
    ensures forall k :: 0 <= k < |items + [it]| ==> Countable(fs, (items + [it])[k])
    ensures Unknowns(fs, items + [it]) == Unknowns(fs, items) + if FindField(fs, it.tag) < 0 then 1 else 0
  {
    assert (items + [it])[..|items|] == items;
  }

  // The members after one more record.
  function CountedInto(fs: seq<Field>, ms: seq<AMember>, it: Item): seq<AMember>
    requires |ms| == |fs| && Countable(fs, it)
  {
    var i := FindField(fs, it.tag);
    if i >= 0 && fs[i].lbl == REPEATED && ms[i].AMany? then
      ms[i := ms[i].(n := ms[i].n + CountOf(fs[i], it).value)]
    else ms
  }

  lemma ScanStateStep(S: Schema, d: nat, items: seq<Item>, it: Item, rv: AMessage, nUnknown: nat, bitmap: Bitmap)
    requires ScanState(S, d, items, rv, nUnknown, bitmap) && Countable(S[d], it)
    ensures var i := FindField(S[d], it.tag);
            ScanState(S, d, items + [it], rv.(members := CountedInto(S[d], rv.members, it)),
                      if i < 0 then nUnknown + 1 else nUnknown,
                      if i >= 0 && S[d][i].lbl == REQUIRED then SetBit(bitmap, i) else bitmap)
  {
    var fs := S[d];
    var ms := CountedInto(fs, rv.members, it);
    BitmapStep(fs, items, it, bitmap);
    CountableStep(fs, items, it);
    forall j | 0 <= j < |fs| ensures DefaultFits(fs[j]) && ms[j] == ScannedInto(fs, items + [it], j) {
      assert rv.members[j] == ScannedInto(fs, items, j);
      ScannedIntoStep(fs, items, it, j);
    }
  }

  // What the scan does for one record besides keeping it.
  method CountRecord(S: Schema, d: nat, sm: ScannedMember, it: Item, rv0: AMessage, nUnknown0: nat, bitmap0: Bitmap,
                     ghost items: seq<Item>)
    returns (ok: bool, rv: AMessage, nUnknown: nat, bitmap: Bitmap)
    requires ScanState(S, d, items, rv0, nUnknown0, bitmap0)
    requires sm.field == FindField(S[d], it.tag) && sm.wire == it.wire
    requires it.wire == LENGTH_PREFIXED ==> sm.prefixLen == PrefixLength(it)
    ensures ok == Countable(S[d], it)
    ensures ok ==> rv.block == rv0.block && ScanState(S, d, items + [it], rv, nUnknown, bitmap)
  {
    var fs, i := S[d], sm.field;
    ok, rv, nUnknown, bitmap := true, rv0, nUnknown0, bitmap0;
    if Countable(fs, it) { ScanStateStep(S, d, items, it, rv0, nUnknown0, bitmap0); }
    if i < 0 {
      nUnknown := nUnknown + 1;
    } else if fs[i].lbl == REQUIRED {
      bitmap := SetBit(bitmap, i);
    } else if fs[i].lbl == REPEATED {
      var count := Some(1);
      if sm.wire == LENGTH_PREFIXED && (fs[i].packed || Packable(fs[i].ty)) {
        count := CountPackedElements(fs[i].ty, it.payload[sm.prefixLen..]);
      }
      if count.None? {
        return false, rv, nUnknown, bitmap;
      }
      rv := rv.(members := rv.members[i := rv.members[i].(n := rv.members[i].n + count.value)]);
    }
  }

  // ---- the scan ----

  // The records before position at are cut off.
  predicate LexedTo(data: Bytes, at: nat, items: seq<Item>)
  {
    at <= |data| &&
    Lex(data) == if Lex(data[at..]).None? then None else Some(items + Lex(data[at..]).value)
  }

  lemma LexOne(data: Bytes, at: nat, items: seq<Item>, it: Item, n: nat)
    requires LexedTo(data, at, items) && at < |data| && Cut(data[at..]) == Some((it, n))
    ensures LexedTo(data, at + n, items + [it])
    ensures Lex(data).Some? ==> |Lex(data).value| > |items| && Lex(data).value[|items|] == it
  {
    var tail := data[at..];
    LexStep(tail);
    assert tail[n..] == data[at + n..];
    if Lex(tail[n..]).Some? { Append(items, it, Lex(tail[n..]).value); }
  }

  lemma Append(items: seq<Item>, it: Item, rest: seq<Item>)
    ensures items + ([it] + rest) == (items + [it]) + rest && (items + ([it] + rest))[|items|] == it
  {
  }

  // No message comes of these bytes: a record is broken, there are too many, or one cannot be counted.
  predicate Doomed(S: Schema, d: nat, data: Bytes)
  {
    d < |S| &&
    match Lex(data)
    case None => true
    case Some(items) => |items| > MAX_ITEMS || exists k :: 0 <= k < |items| && !Countable(S[d], items[k])
  }

  lemma DoomedFails(S: Schema, d: nat, data: Bytes)
    requires Doomed(S, d, data)
    ensures Decode(S, d, data).None?
  {
    if Lex(data).Some? && |Lex(data).value| <= MAX_ITEMS {
      var items := Lex(data).value;
      var fs, start := S[d], Message(d, InitMembers(S[d]), []);
      var k :| 0 <= k < |items| && !Countable(fs, items[k]);
      CountingAgrees(S, d, items, |data|, k);
      ApplyOne(S, fs, start, items[..k], items[k], |data|);
      assert items[..k] + [items[k]] + items[k + 1..] == items;
      ApplyConcat(S, fs, start, items[..k] + [items[k]], items[k + 1..], |data|);
      var r := ApplyAll(S, fs, start, items[..k], |data|);
      if r.Some? { UncountableFails(S, fs, r.value, items[k]); }
    }
  }

  // What is known when the scan has come to position at.
  predicate ScannedTo(S: Schema, d: nat, data: Bytes, at: nat, items: seq<Item>, slabs: seq<seq<ScannedMember>>)
  {
    && d < |S| && |data| < TWO_32 && GoodScans(S[d], data, Flat(slabs)) && Slabbed(slabs) && |slabs| <= 55
    && at <= |data| && !Wraps(data[at..])
    && items == Items(data, Flat(slabs)) && LexedTo(data, at, items)
  }

  lemma RecordKept(S: Schema, d: nat, data: Bytes, at: nat, items: seq<Item>, slabs: seq<seq<ScannedMember>>,
                   sm: ScannedMember, n: nat, slabs': seq<seq<ScannedMember>>,
                   at': nat, items': seq<Item>)
    requires ScannedTo(S, d, data, at, items, slabs) && at < |data| && sm.len < |data| && at' == at + n
    requires sm.at + sm.len <= |data| && items' == items + [ItemAt(data, sm)]
    requires GoodScan(S[d], data, sm) && Cut(data[at..]) == Some((ItemAt(data, sm), n))
    requires Slabbed(slabs') && |slabs'| <= 55 && Flat(slabs') == Flat(slabs) + [sm]
    ensures ScannedTo(S, d, data, at', items', slabs')
  {
    LexOne(data, at, items, ItemAt(data, sm), n);
    NoWrapLater(data[at..], ItemAt(data, sm), n);
    SamePlace(data, at, n, at', items');
    ItemsSnoc(S[d], data, Flat(slabs), sm);
  }

  lemma SamePlace(data: Bytes, at: nat, n: nat, b: nat, items: seq<Item>)
    requires LexedTo(data, at + n, items) && b == at + n <= |data| && !Wraps(data[at..][n..])
    ensures LexedTo(data, b, items) && !Wraps(data[b..])
  {
    assert data[at..][n..] == data[b..];
  }

  lemma ItemsSnoc(fs: seq<Field>, data: Bytes, sms: seq<ScannedMember>, sm: ScannedMember)
    requires GoodScans(fs, data, sms) && GoodScan(fs, data, sm) && sm.len < |data|
    ensures GoodScans(fs, data, sms + [sm]) && Items(data, sms + [sm]) == Items(data, sms) + [ItemAt(data, sm)]
  {
  }

  // One turn of the scan loop.
  method ScanNext(S: Schema, d: nat, table: Table, al: Allocator, data: Bytes, at: nat, last: int,
                  slabs0: seq<seq<ScannedMember>>, blocks0: seq<nat>, ghost items: seq<Item>, ghost rest: multiset<nat>)
    returns (ok: bool, sm: ScannedMember, slabs: seq<seq<ScannedMember>>, blocks: seq<nat>,
             at': nat, ghost items': seq<Item>)
    requires WellFormed(S) && d < |S| && IsTable(table.ranges, table.n, FieldIds(S[d])) && -1 <= last < |S[d]|
    requires ScannedTo(S, d, data, at, items, slabs0) && at < |data|
    requires al.Valid() && al.live == rest + OfBlocks(blocks0)
    modifies al
    ensures al.Valid() && al.live == rest + OfBlocks(blocks) && al.refused >= old(al.refused)
    ensures ok ==> GoodScan(S[d], data, sm) && items' == items + [ItemAt(data, sm)] && at < at'
    ensures ok ==> ScannedTo(S, d, data, at', items', slabs)
    ensures ok && !Countable(S[d], ItemAt(data, sm)) ==> Doomed(S, d, data)
    ensures !ok ==> Doomed(S, d, data) || al.refused > old(al.refused)
  {
    slabs, blocks, at', items' := slabs0, blocks0, at, items;
    ghost var it, n;
    NoWrapHere(data[at..]);
    ok, sm, it, n := ScanRecord(S, d, table, data, at, last, data[at..]);
    if !ok {
      return;
    }
    RecordSeen(S, d, data, at, items, it, n);
    SlabsHold(S, d, data, at, items, slabs0);
    ok, slabs, blocks := KeepRecord(al, slabs, blocks, sm, rest);
    at', items' := sm.at + sm.len, items + [ItemAt(data, sm)];
    if ok {
      RecordKept(S, d, data, at, items, slabs0, sm, n, slabs, at', items');
    }
  }

  // One more record than the slabs hold, or one that cannot be counted, dooms the message.
  lemma RecordSeen(S: Schema, d: nat, data: Bytes, at: nat, items: seq<Item>, it: Item, n: nat)
    requires d < |S| && LexedTo(data, at, items) && at < |data| && Cut(data[at..]) == Some((it, n))
    ensures |items| == MAX_ITEMS ==> Doomed(S, d, data)
    ensures !Countable(S[d], it) ==> Doomed(S, d, data)
  {
    LexOne(data, at, items, it, n);
  }

  lemma SlabsHold(S: Schema, d: nat, data: Bytes, at: nat, items: seq<Item>, slabs: seq<seq<ScannedMember>>)
    requires ScannedTo(S, d, data, at, items, slabs)
    ensures |items| == |Flat(slabs)|
  {
  }

  method ScanAll(S: Schema, d: nat, table: Table, al: Allocator, data: Bytes, rv0: AMessage, ghost rest: multiset<nat>)
    returns (ok: bool, slabs: seq<seq<ScannedMember>>, blocks: seq<nat>, rv: AMessage, nUnknown: nat, bitmap: Bitmap)
    requires WellFormed(S) && d < |S| && IsTable(table.ranges, table.n, FieldIds(S[d]))
    requires ScanState(S, d, [], rv0, 0, NoBits()) && |data| < TWO_32 && !Wraps(data)
    requires al.Valid() && al.live == rest
    modifies al
    ensures al.Valid() && al.live == rest + OfBlocks(blocks) && al.refused >= old(al.refused)
    ensures ok ==> GoodScans(S[d], data, Flat(slabs)) && |Flat(slabs)| <= MAX_ITEMS
    ensures ok ==> Lex(data) == Some(Items(data, Flat(slabs)))
    ensures ok ==> rv.block == rv0.block && ScanState(S, d, Items(data, Flat(slabs)), rv, nUnknown, bitmap)
    ensures !ok ==> Doomed(S, d, data) || al.refused > old(al.refused)
  {
    slabs, blocks, rv, nUnknown, bitmap := [[]], [], rv0, 0, NoBits();
    var at := 0;
    var last := if |S[d]| == 0 then -1 else 0;
    ghost var items: seq<Item> := [];
    ScanStarts(S, d, data);
    while at < |data|
      invariant al.Valid() && al.live == rest + OfBlocks(blocks) && al.refused >= old(al.refused)
      invariant -1 <= last < |S[d]| && ScannedTo(S, d, data, at, items, slabs)
      invariant rv.block == rv0.block && ScanState(S, d, items, rv, nUnknown, bitmap)
      decreases |data| - at
    {
      var sm;
      ghost var before := items;
      ok, sm, slabs, blocks, at, items := ScanNext(S, d, table, al, data, at, last, slabs, blocks, items, rest);
      if !ok {
        return;
      }
      last := if sm.field >= 0 then sm.field else last;
      ok, rv, nUnknown, bitmap := CountRecord(S, d, sm, ItemAt(data, sm), rv, nUnknown, bitmap, before);
      if !ok {
        return;
      }
    }
    ScanEnds(S, d, data, at, items, slabs);
    ok := true;
  }

  lemma ScanStarts(S: Schema, d: nat, data: Bytes)
    requires d < |S| && |data| < TWO_32 && !Wraps(data)
    ensures ScannedTo(S, d, data, 0, [], [[]])
  {
    var one: seq<seq<ScannedMember>> := [[]];
    assert data[0..] == data && one[..0] == [] && Flat(one) == [];
    if Lex(data).Some? { assert [] + Lex(data).value == Lex(data).value; }
  }

  lemma ScanEnds(S: Schema, d: nat, data: Bytes, at: nat, items: seq<Item>, slabs: seq<seq<ScannedMember>>)
    requires ScannedTo(S, d, data, at, items, slabs) && at >= |data|
    ensures Lex(data) == Some(items) && |Flat(slabs)| <= MAX_ITEMS
  {
    assert data[at..] == [] && items + [] == items;
    SlabbedSize(slabs);
    LastSlab();
    Pow2Grows(|slabs| - 1, 54);
  }
}
