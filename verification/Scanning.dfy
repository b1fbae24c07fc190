/** The scan pass of protobuf_c_message_unpack: records go into slabs that double in size, elements are counted. */
module Scanning {
  import opened Base128
  import opened Basics
  import opened Wire
  import opened Decoder
  import opened Framing
  import opened RoundTrip
  import opened RangeTables
  import opened Memory
  import opened Parsing

  // ---- tables of field numbers ----

  datatype Table = Table(n: nat, ranges: seq<IntRange>)

  function FieldIds(fs: seq<Field>): (ids: seq<int>)
    ensures |ids| == |fs| && forall i :: 0 <= i < |fs| ==> ids[i] == fs[i].id
  {
    seq(|fs|, i requires 0 <= i < |fs| => fs[i].id)
  }

  // Every descriptor comes with the ranges of its field numbers.
  predicate Tables(S: Schema, tables: seq<Table>)
  {
    |tables| == |S| && forall d :: 0 <= d < |S| ==> IsTable(tables[d].ranges, tables[d].n, FieldIds(S[d]))
  }

  lemma FieldIdsIncrease(S: Schema, d: nat)
    requires WellFormed(S) && d < |S|
    ensures Increasing(FieldIds(S[d])) && INT_MAX !in FieldIds(S[d])
  {
    var fs := S[d];
    forall i, j | 0 <= i < j < |fs| ensures fs[i].id < fs[j].id {
      IdsIncrease(fs, i, j);
    }
  }

  // The field of a number, remembering the field of the record before.
  method LookupField(S: Schema, d: nat, table: Table, last: int, tag: nat) returns (field: int)
    requires WellFormed(S) && d < |S| && IsTable(table.ranges, table.n, FieldIds(S[d]))
    requires -1 <= last < |S[d]| && tag < TWO_32
    ensures field == FindField(S[d], tag)
  {
    var fs := S[d];
    ghost var ids := FieldIds(fs);
    FieldIdsIncrease(S, d);
    if last < 0 || fs[last].id != tag {
      field := IntRangeLookup(table.n, table.ranges, ids, Signed32(tag));
      assert ids[..Reach(table.ranges, table.n, ids)] == ids;
      if field >= 0 { FindsField(S, d, field); }
      ghost var k := FindField(fs, tag);
      if k >= 0 { assert ids[k] == tag; }
    } else {
      field := last;
      FindsField(S, d, last);
    }
  }

  // ---- one record ----

  // parse_tag_and_wiretype
  method ParseTagAndWiretype(data: Bytes) returns (used: nat, tag: nat, wire: nat)
    requires |data| > 0
    ensures used == KeyLength(data)
    ensures used > 0 ==> wire < 8 && tag < TWO_32 && tag * 8 + wire == Val(data[..used])
  {
    var maxRv := if |data| > 5 then 5 else |data|;
    tag, wire := Low7(data[0]) / 8, data[0] % 8;
    FirstTagBits(data);
    if data[0] < 128 {
      TagEnds(data, 1, tag, wire);
      return 1, tag, wire;
    }
    var shift: nat := 0x10;
    for rv := 1 to maxRv
      invariant 8 * shift == Pow128(rv) && wire < 8 && tag * 8 + wire == Val(data[..rv])
      invariant forall j :: 0 <= j < rv ==> data[j] >= 128
    {
      TagBits(data, rv, tag, wire, shift);
      if data[rv] >= 128 {
        tag := tag + Low7(data[rv]) * shift;
        shift := shift * 128;
      } else {
        tag := tag + data[rv] * shift;
        used := rv + 1;
        TagEnds(data, used, tag, wire);
        return;
      }
    }
    return 0, tag, wire;
  }

  lemma FirstTagBits(data: Bytes)
    requires |data| > 0
    ensures (Low7(data[0]) / 8) * 8 + data[0] % 8 == Val(data[..1])
  {
    assert data[..1] == [data[0]] && [data[0]][1..] == [];
  }

  lemma TagBits(data: Bytes, rv: nat, tag: nat, wire: nat, shift: nat)
    requires rv < |data| && 8 * shift == Pow128(rv) && tag * 8 + wire == Val(data[..rv])
    ensures (tag + Low7(data[rv]) * shift) * 8 + wire == Val(data[..rv + 1])
  {
    assert data[..rv + 1] == data[..rv] + [data[rv]];
    ValSnoc(data[..rv], data[rv]);
    assert (Low7(data[rv]) * shift) * 8 == Low7(data[rv]) * (8 * shift);
  }

  // The tag ends at its first byte below 128.
  lemma TagEnds(data: Bytes, used: nat, tag: nat, wire: nat)
    requires 0 < used <= |data| && used <= 5 && data[used - 1] < 128 && tag * 8 + wire == Val(data[..used])
    requires forall j :: 0 <= j < used - 1 ==> data[j] >= 128
    ensures KeyLength(data) == used && tag < TWO_32
  {
    PrefixScanned(data, used);
    ValBound(data[..used]);
    Pow128Grows(used, 5);
    Pow128Values();
  }

  // scan_length_prefixed_data
  method ScanLengthPrefixedData(data: Bytes) returns (n: nat, prefixLen: nat)
    ensures n == ScannedLength(data) && (n > 0 ==> prefixLen == VarintPrefix(data, 5))
  {
    var hdrMax := if |data| < 5 then |data| else 5;
    var val: nat, shift: nat, i: nat := 0, 1, 0;
    while i < hdrMax
      invariant i <= hdrMax && shift == Pow128(i) && val == Val(data[..i]) % TWO_32
      invariant forall j :: 0 <= j < i ==> data[j] >= 128
    {
      GroupAdded(data, i, val, shift);
      val := (val + Low7(data[i]) * shift) % TWO_32;
      shift := shift * 128;
      if data[i] < 128 {
        break;
      }
      i := i + 1;
    }
    prefixLen := i + 1;
    if i == hdrMax {
      return 0, prefixLen;
    }
    PrefixScanned(data, prefixLen);
    var sum := (prefixLen + val) % TWO_32;
    n := if sum > |data| then 0 else sum;
  }

  lemma GroupAdded(data: Bytes, i: nat, val: nat, shift: nat)
    requires i < |data| && shift == Pow128(i) && val == Val(data[..i]) % TWO_32
    ensures (val + Low7(data[i]) * shift) % TWO_32 == Val(data[..i + 1]) % TWO_32
  {
    assert data[..i + 1] == data[..i] + [data[i]];
    ValSnoc(data[..i], data[i]);
    AddBits(Val(data[..i]), Low7(data[i]) * shift);
  }

  // The prefix ends at its first byte below 128.
  lemma PrefixScanned(data: Bytes, prefixLen: nat)
    requires 0 < prefixLen <= |data| && prefixLen <= 5 && data[prefixLen - 1] < 128
    requires forall j :: 0 <= j < prefixLen - 1 ==> data[j] >= 128
    ensures VarintPrefix(data, 5) == prefixLen
  {
    assert data == data[..prefixLen] + data[prefixLen..];
    VarintPrefixFinds(data[..prefixLen], data[prefixLen..], 5);
  }

  lemma AddBits(a: nat, b: nat)
    ensures (a % TWO_32 + b) % TWO_32 == (a + b) % TWO_32
  {
  }

  // The length of a payload, and of its length prefix.
  method ScanPayload(wire: nat, data: Bytes) returns (n: nat, prefixLen: nat)
    ensures n == if wire == LENGTH_PREFIXED then ScannedLength(data) else PayloadLength(wire, data)
    ensures n > 0 && wire == LENGTH_PREFIXED ==> prefixLen == VarintPrefix(data, 5)
  {
    n, prefixLen := 0, 0;
    if wire == VARINT {
      n := ScanVarint(data);
    } else if wire == BITS64 {
      n := if |data| < 8 then 0 else 8;
    } else if wire == LENGTH_PREFIXED {
      n, prefixLen := ScanLengthPrefixedData(data);
    } else if wire == BITS32 {
      n := if |data| < 4 then 0 else 4;
    }
  }

  // One record: its tag and wire type, its field, and where its payload lies.
  method ScanRecord(S: Schema, d: nat, table: Table, data: Bytes, at0: nat, last: int, ghost tail: Bytes)
    returns (ok: bool, sm: ScannedMember, ghost it: Item, ghost length: nat)
    requires WellFormed(S) && d < |S| && IsTable(table.ranges, table.n, FieldIds(S[d]))
    requires -1 <= last < |S[d]| && at0 < |data| < TWO_32 && tail == data[at0..] && !WrapsHere(tail)
    ensures !ok ==> Cut(tail).None?
    ensures ok ==> Cut(tail) == Some((it, length))
    ensures ok ==> GoodScan(S[d], data, sm) && sm.len < length && at0 + length == sm.at + sm.len
    ensures ok ==> it == ItemAt(data, sm)
  {
    sm, it, length := ScannedMember(0, 0, 0, -1, 0, 0), Item(0, 0, []), 0;
    var used, tag, wire := ParseTagAndWiretype(data[at0..]);
    if used == 0 {
      return false, sm, it, length;
    }
    var field := LookupField(S, d, table, last, tag);
    var at := at0 + used;
    var n, prefixLen := ScanPayload(wire, data[at..]);
    Slice(data, at0, used, n);
    if wire == LENGTH_PREFIXED { ScannedIsPrefixed(tail, used, tag); }
    if n == 0 {
      NoRecord(tail, used, tag, wire);
      return false, sm, it, length;
    }
    it, length := RecordScanned(tail, used, tag, wire, n, prefixLen);
    sm := ScannedMember(tag, wire, prefixLen, field, n, at);
    ScanIsGood(S[d], data, sm, it);
    ok := true;
  }

  lemma ScanIsGood(fs: seq<Field>, data: Bytes, sm: ScannedMember, it: Item)
    requires sm.at + sm.len <= |data| && it == Item(sm.tag, sm.wire, data[sm.at..sm.at + sm.len]) && LexOk(it)
    requires sm.field == FindField(fs, sm.tag) && (sm.wire == LENGTH_PREFIXED ==> sm.prefixLen == PrefixLength(it))
    ensures GoodScan(fs, data, sm) && it == ItemAt(data, sm)
  {
  }

  lemma Slice(data: Bytes, at0: nat, used: nat, n: nat)
    requires at0 + used + n <= |data|
    ensures data[at0..][used..] == data[at0 + used..]
    ensures data[at0..][used..used + n] == data[at0 + used..at0 + used + n]
  {
  }

  lemma NoRecord(tail: Bytes, used: nat, tag: nat, wire: nat)
    requires 0 < used == KeyLength(tail) && wire < 8 && Val(tail[..used]) == tag * 8 + wire
    requires PayloadLength(wire, tail[used..]) == 0
    ensures Cut(tail).None?
  {
    KeyParts(tag, wire);
  }

  lemma RecordScanned(tail: Bytes, used: nat, tag: nat, wire: nat, n: nat, prefixLen: nat)
    returns (it: Item, length: nat)
    requires 0 < used == KeyLength(tail) && wire < 8 && Val(tail[..used]) == tag * 8 + wire
    requires 0 < n == PayloadLength(wire, tail[used..])
    requires wire == LENGTH_PREFIXED ==> prefixLen == VarintPrefix(tail[used..], 5)
    ensures it == Item(tag, wire, tail[used..used + n]) && length == used + n
    ensures Cut(tail) == Some((it, length)) && LexOk(it) && (wire == LENGTH_PREFIXED ==> prefixLen == PrefixLength(it))
  {
    it, length := Item(tag, wire, tail[used..used + n]), used + n;
    CutAt(tail, used, n, tag, wire);
    CutIsOk(tail);
    assert tail[used..used + n] == tail[used..][..n];
    if wire == LENGTH_PREFIXED { PrefixOfPayload(tail[used..], n); }
  }

  // The prefix is found again in the payload that was cut off.
  lemma PrefixOfPayload(data: Bytes, n: nat)
    requires 0 < n == PrefixedLength(data)
    ensures VarintPrefix(data[..n], 5) == VarintPrefix(data, 5)
  {
    var h := VarintPrefix(data, 5);
    assert data[..n] == data[..h] + data[h..n];
    VarintPrefixFinds(data[..h], data[h..n], 5);
  }

  // ---- slabs ----

  lemma LastSlab()
    ensures Pow2(54) == 0x40_0000_0000_0000
  {
    assert Pow2(10) == 0x400;
    assert Pow2(20) == 0x10_0000;
    assert Pow2(30) == 0x4000_0000;
    assert Pow2(40) == 0x100_0000_0000;
    assert Pow2(47) == 0x8000_0000_0000;
  }

  // The records in the order in which they were scanned.
  function Flat(slabs: seq<seq<ScannedMember>>): seq<ScannedMember>
  {
    if slabs == [] then [] else Flat(slabs[..|slabs| - 1]) + slabs[|slabs| - 1]
  }

  // All slabs but the last are full, and each is twice as large as the one before.
  predicate Slabbed(slabs: seq<seq<ScannedMember>>)
  {
    && |slabs| > 0
    && (forall i :: 0 <= i < |slabs| - 1 ==> |slabs[i]| == 16 * Pow2(i))
    && |slabs[|slabs| - 1]| <= 16 * Pow2(|slabs| - 1)
  }

  lemma {:induction false} SlabbedSize(slabs: seq<seq<ScannedMember>>)
    requires Slabbed(slabs)
    ensures |Flat(slabs)| == 16 * (Pow2(|slabs| - 1) - 1) + |slabs[|slabs| - 1]|
  {
    var n := |slabs| - 1;
    if n > 0 {
      SlabbedSize(slabs[..n]);
    } else {
      assert slabs[..0] == [] && Flat(slabs[..0]) == [];
    }
  }

  // Appending to the last slab, or a new slab, appends to the records.
  lemma FlatGrows(slabs: seq<seq<ScannedMember>>, sm: ScannedMember)
    requires slabs != []
    ensures Flat(slabs + [[]]) == Flat(slabs)
    ensures var n := |slabs| - 1; Flat(slabs[n := slabs[n] + [sm]]) == Flat(slabs) + [sm]
  {
    var n := |slabs| - 1;
    assert (slabs + [[]])[..n + 1] == slabs;
    assert slabs[n := slabs[n] + [sm]][..n] == slabs[..n];
  }

  // The j-th record of slab i, counted over all slabs.
  lemma {:induction false} FlatAt(slabs: seq<seq<ScannedMember>>, i: nat, j: nat)
    requires i < |slabs| && j < |slabs[i]|
    ensures |Flat(slabs[..i])| + j < |Flat(slabs)| && Flat(slabs)[|Flat(slabs[..i])| + j] == slabs[i][j]
  {
    var n := |slabs| - 1;
    if i < n {
      FlatAt(slabs[..n], i, j);
      assert slabs[..n][..i] == slabs[..i];
    }
  }

  function Items(data: Bytes, sms: seq<ScannedMember>): (items: seq<Item>)
    requires forall k :: 0 <= k < |sms| ==> sms[k].at + sms[k].len <= |data|
    ensures |items| == |sms| && forall k :: 0 <= k < |sms| ==> items[k] == ItemAt(data, sms[k])
  {
    seq(|sms|, k requires 0 <= k < |sms| => ItemAt(data, sms[k]))
  }

  predicate GoodScans(fs: seq<Field>, data: Bytes, sms: seq<ScannedMember>)
  {
    forall k :: 0 <= k < |sms| ==> GoodScan(fs, data, sms[k]) && sms[k].len < |data|
  }

  function OfBlocks(blocks: seq<nat>): multiset<nat>
  {
    if blocks == [] then multiset{} else OfBlocks(blocks[..|blocks| - 1]) + Block(blocks[|blocks| - 1])
  }

  // The same element is the last of a and of c, and b and d are what comes before it.
  lemma OfBlocksStep(a: seq<nat>, b: seq<nat>, c: seq<nat>, d: seq<nat>, x: nat, z: nat)
    requires a != [] && a[..|a| - 1] == b && a[|a| - 1] == z && c != [] && c[..|c| - 1] == d && c[|c| - 1] == z
    requires OfBlocks(b) == Block(x) + OfBlocks(d)
    ensures OfBlocks(a) == Block(x) + OfBlocks(c)
  {
    FirstOut(OfBlocks(a), OfBlocks(b), OfBlocks(c), Block(x), OfBlocks(d), Block(z));
  }

  lemma OfBlocksOne(a: seq<nat>)
    requires |a| == 1
    ensures OfBlocks(a) == Block(a[0])
  {
    assert a[..0] == [];
  }

  lemma {:induction false} OfBlocksSplit(blocks: seq<nat>, i: nat)
    requires i < |blocks|
    ensures OfBlocks(blocks[i..]) == Block(blocks[i]) + OfBlocks(blocks[i + 1..])
    decreases |blocks|
  {
    var n := |blocks| - 1;
    if i == n {
      OfBlocksOne(blocks[i..]);
      assert blocks[i + 1..] == [];
    } else {
      OfBlocksSplit(blocks[..n], i);
      Slices(blocks, i);
      OfBlocksStep(blocks[i..], blocks[..n][i..], blocks[i + 1..], blocks[..n][i + 1..], blocks[i], blocks[n]);
    }
  }

  method FreeSlabs(al: Allocator, blocks: seq<nat>, ghost rest: multiset<nat>)
    requires al.Valid() && al.live == rest + OfBlocks(blocks)
    modifies al
    ensures al.Valid() && al.live == rest && al.refused == old(al.refused)
  {
    assert blocks[0..] == blocks;
    for j := 0 to |blocks|
      invariant al.Valid() && al.refused == old(al.refused)
      invariant al.live == rest + OfBlocks(blocks[j..])
    {
      OfBlocksSplit(blocks, j);
      al.Free(blocks[j]);
    }
  }

  // A further slab, twice as large as the last one.
  method NewSlab(al: Allocator, slabs0: seq<seq<ScannedMember>>, blocks0: seq<nat>, ghost rest: multiset<nat>)
    returns (ok: bool, slabs: seq<seq<ScannedMember>>, blocks: seq<nat>)
    requires al.Valid() && Slabbed(slabs0) && |slabs0| <= 55 && al.live == rest + OfBlocks(blocks0)
    requires |slabs0[|slabs0| - 1]| == 16 * Pow2(|slabs0| - 1)
    modifies al
    ensures al.Valid() && al.live == rest + OfBlocks(blocks) && al.refused >= old(al.refused)
    ensures ok ==> |slabs0| < 55 && slabs == slabs0 + [[]]
    ensures !ok ==> |Flat(slabs0)| == MAX_ITEMS || al.refused > old(al.refused)
  {
    ok, slabs, blocks := true, slabs0, blocks0;
    var which := |slabs| - 1;
    if which == 54 {
      SlabbedSize(slabs0);
      LastSlab();
      return false, slabs, blocks;
    }
    which := which + 1;
    var p := al.Alloc(32 * 16 * Pow2(which));
    assert (blocks + [p])[..|blocks|] == blocks;
    blocks := blocks + [p];
    slabs := slabs + [[]];
    ok := p != 0;
  }

  // Takes the record into the last slab, or into a new one if that is full.  The first slab is not allocated.
  method KeepRecord(al: Allocator, slabs0: seq<seq<ScannedMember>>, blocks0: seq<nat>, sm: ScannedMember,
                    ghost rest: multiset<nat>)
    returns (ok: bool, slabs: seq<seq<ScannedMember>>, blocks: seq<nat>)
    requires al.Valid() && Slabbed(slabs0) && |slabs0| <= 55 && al.live == rest + OfBlocks(blocks0)
    modifies al
    ensures al.Valid() && al.live == rest + OfBlocks(blocks) && al.refused >= old(al.refused)
    ensures ok ==> Slabbed(slabs) && |slabs| <= 55 && Flat(slabs) == Flat(slabs0) + [sm]
    ensures !ok ==> |Flat(slabs0)| == MAX_ITEMS || al.refused > old(al.refused)
  {
    ok, slabs, blocks := true, slabs0, blocks0;
    if |slabs[|slabs| - 1]| == 16 * Pow2(|slabs| - 1) {
      ok, slabs, blocks := NewSlab(al, slabs0, blocks0, rest);
      if !ok {
        return;
      }
    }
    FlatGrows(slabs0, sm);
    FlatGrows(slabs, sm);
    var which := |slabs| - 1;
    slabs := slabs[which := slabs[which] + [sm]];
  }
}
