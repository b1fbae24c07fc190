/** Cutting records off a byte string undoes writing them, and splits over concatenation. */
module Framing {
  import opened Base128
  import opened Basics
  import opened Wire
  import opened Decoder

  // A record that the scan finds again: its payload is one whole payload of its wire type.
  predicate LexOk(it: Item)
  {
    it.tag < TWO_32 && it.wire < 8 && |it.payload| > 0 && PayloadLength(it.wire, it.payload) == |it.payload|
  }

  lemma PrefixExtends(data: Bytes, more: Bytes, max: nat)
    ensures VarintPrefix(data, max) > 0 ==> VarintPrefix(data + more, max) == VarintPrefix(data, max)
  {
    var n := VarintPrefix(data, max);
    if n > 0 {
      assert data + more == data[..n] + (data[n..] + more);
      VarintPrefixFinds(data[..n], data[n..] + more, max);
    }
  }

  lemma PayloadExtends(wire: nat, data: Bytes, more: Bytes)
    requires PayloadLength(wire, data) > 0
    ensures PayloadLength(wire, data + more) == PayloadLength(wire, data)
  {
    PrefixExtends(data, more, 10);
    PrefixExtends(data, more, 5);
    var h := VarintPrefix(data, 5);
    assert (data + more)[..h] == data[..h];
  }

  // The payload that is cut off is a whole payload by itself.
  lemma PayloadShrinks(wire: nat, data: Bytes)
    ensures var n := PayloadLength(wire, data); n > 0 ==> PayloadLength(wire, data[..n]) == n
  {
    var n := PayloadLength(wire, data);
    var v := VarintPrefix(data, 10);
    if wire == VARINT && v > 0 {
      VarintPrefixFinds(data[..v], [], 10);
      assert data[..v] + [] == data[..v];
    }
    var h := VarintPrefix(data, 5);
    if wire == LENGTH_PREFIXED && n > 0 {
      VarintPrefixFinds(data[..h], data[h..n], 5);
      assert data[..h] + data[h..n] == data[..n];
      assert data[..n][..h] == data[..h];
    }
  }

  lemma CutExtends(data: Bytes, more: Bytes)
    requires Cut(data).Some?
    ensures Cut(data + more) == Cut(data)
  {
    PrefixExtends(data, more, 5);
    var k := KeyLength(data);
    SliceOfFront(data, more, 0, k);
    RestOfFront(data, more, k);
    var tag, wire := Val(data[..k]) / 8, Val(data[..k]) % 8;
    PayloadExtends(wire, data[k..], more);
    var n := PayloadLength(wire, data[k..]);
    SliceOfFront(data, more, k, k + n);
    CutAt(data, k, n, tag, wire);
    CutAt(data + more, k, n, tag, wire);
  }

  // What is cut off can be cut off again.
  lemma CutIsOk(data: Bytes)
    requires Cut(data).Some?
    ensures LexOk(Cut(data).value.0)
  {
    var k := KeyLength(data);
    ValBound(data[..k]);
    Pow128Grows(k, 5);
    Pow128Values();
    PayloadShrinks(Val(data[..k]) % 8, data[k..]);
    var n := PayloadLength(Val(data[..k]) % 8, data[k..]);
    assert data[k..][..n] == data[k..k + n];
  }

  lemma CutFinds(it: Item, rest: Bytes)
    requires LexOk(it)
    ensures Cut(ItemBytes(it) + rest) == Some((it, |ItemBytes(it)|))
  {
    KeyFinds(it.tag, it.wire, it.payload + rest);
    PayloadExtends(it.wire, it.payload, rest);
    var kb := Varint(it.tag * 8 + it.wire);
    var data := ItemBytes(it) + rest;
    assert data == kb + (it.payload + rest);
    assert data[..|kb|] == kb && data[|kb|..] == it.payload + rest;
    assert data[|kb|..|kb| + |it.payload|] == it.payload;
    CutAt(data, |kb|, |it.payload|, it.tag, it.wire);
  }

  lemma KeyFinds(tag: nat, wire: nat, rest: Bytes)
    requires tag < TWO_32 && wire < 8
    ensures var kb := Varint(tag * 8 + wire);
            |kb| > 0 && Val(kb) == tag * 8 + wire && KeyLength(kb + rest) == |kb|
  {
    ValOfVarint(tag * 8 + wire);
    TagSizeAgrees(tag, wire);
    VarintPrefixFinds(Varint(tag * 8 + wire), rest, 5);
  }

  lemma CutAt(data: Bytes, k: nat, n: nat, tag: nat, wire: nat)
    requires k == KeyLength(data) > 0 && Val(data[..k]) == tag * 8 + wire && wire < 8
    requires n == PayloadLength(wire, data[k..]) > 0
    ensures Cut(data) == Some((Item(tag, wire, data[k..k + n]), k + n))
  {
    KeyParts(tag, wire);
  }

  lemma KeyParts(tag: nat, wire: nat)
    requires wire < 8
    ensures (tag * 8 + wire) / 8 == tag && (tag * 8 + wire) % 8 == wire
  {
  }

  // Scanning undoes writing.
  lemma {:induction false} LexFlatten(items: seq<Item>)
    requires forall i :: 0 <= i < |items| ==> LexOk(items[i])
    ensures Lex(Flatten(items)) == Some(items)
    ensures |items| <= |Flatten(items)|
  {
    if items != [] {
      var b := ItemBytes(items[0]);
      var rest := Flatten(items[1..]);
      CutFinds(items[0], rest);
      LexFlatten(items[1..]);
      assert (b + rest)[|b|..] == rest;
      assert Flatten(items) == b + rest;
      assert [items[0]] + items[1..] == items;
    }
  }

  // Scanning a concatenation scans the parts.
  lemma {:induction false} LexConcat(a: Bytes, b: Bytes)
    requires Lex(a).Some?
    ensures Lex(a + b) == if Lex(b).Some? then Some(Lex(a).value + Lex(b).value) else None
    decreases |a|
  {
    if a == [] {
      assert a + b == b;
      if Lex(b).Some? { assert Lex(a).value + Lex(b).value == Lex(b).value; }
    } else {
      CutExtends(a, b);
      var n := Cut(a).value.1;
      assert (a + b)[n..] == a[n..] + b;
      LexConcat(a[n..], b);
      LexStep(a);
      LexStep(a + b);
      if Lex(b).Some? {
        Associates([Cut(a).value.0], Lex(a[n..]).value, Lex(b).value);
      }
    }
  }

  lemma LexStep(a: Bytes)
    requires a != [] && Cut(a).Some?
    ensures var rest := Lex(a[Cut(a).value.1..]);
            Lex(a) == if rest.Some? then Some([Cut(a).value.0] + rest.value) else None
  {
  }

  // Every scanned record would be found again, and there are at most half as many as bytes.
  lemma {:induction false} LexIsOk(data: Bytes)
    requires Lex(data).Some?
    ensures forall i :: 0 <= i < |Lex(data).value| ==> LexOk(Lex(data).value[i])
    ensures 2 * |Lex(data).value| <= |data|
    decreases |data|
  {
    if data != [] {
      CutIsOk(data);
      LexIsOk(data[Cut(data).value.1..]);
    }
  }

  // ---- announced lengths ----

  // The prefix and what it announces, as scan_length_prefixed_data adds them.
  function Announced(data: Bytes): nat
  {
    var hdr := VarintPrefix(data, 5);
    hdr + Val(data[..hdr]) % TWO_32
  }

  // The 32-bit sum, or 0 if it is more than there is.
  function Sum32(hdr: nat, val: nat, size: nat): (n: nat)
    ensures n <= size
  {
    var sum := (hdr + val) % TWO_32;
    if sum > size then 0 else sum
  }

  // What scan_length_prefixed_data returns: its sum is taken in 32 bits.
  function ScannedLength(data: Bytes): (n: nat)
    ensures n <= |data|
  {
    var hdr := VarintPrefix(data, 5);
    var val := Val(data[..hdr]) % TWO_32;
    if hdr == 0 then 0 else Sum32(hdr, val, |data|)
  }

  // The scan of a length is right exactly when the sum is at most two to the 32.
  lemma LengthIsRightIff(data: Bytes)
    requires |data| < TWO_32 && VarintPrefix(data, 5) > 0
    ensures ScannedLength(data) == PrefixedLength(data) <==> Announced(data) <= TWO_32
  {
    var hdr := VarintPrefix(data, 5);
    var val := Val(data[..hdr]) % TWO_32;
    SumIsRightIff(hdr, val, |data|);
  }

  lemma SumIsRightIff(hdr: nat, val: nat, size: nat)
    requires 0 < hdr <= 5 && val < TWO_32 && hdr <= size < TWO_32
    ensures Sum32(hdr, val, size) == (if hdr + val > size then 0 else hdr + val) <==> hdr + val <= TWO_32
  {
  }

  // The five bytes of a prefix that announces 0xffffffff bytes: the scan gives a record of four bytes, which
  // is shorter than its own prefix.
  lemma WrappedLength()
    ensures VarintPrefix([0xff, 0xff, 0xff, 0xff, 0x0f], 5) == 5
    ensures ScannedLength([0xff, 0xff, 0xff, 0xff, 0x0f]) == 4 && PrefixedLength([0xff, 0xff, 0xff, 0xff, 0x0f]) == 0
    ensures Announced([0xff, 0xff, 0xff, 0xff, 0x0f]) > TWO_32
  {
    var v: Bytes := [0xff, 0xff, 0xff, 0xff, 0x0f];
    VarintPrefixFinds(v, [], 5);
    assert v + [] == v && v[..5] == v;
    ParseUint32IsVal(v);
    assert ParseUint32(v) == 0xffff_ffff;
  }

  // The record at the start of data announces a length whose sum wraps around.
  predicate WrapsHere(data: Bytes)
  {
    var k := KeyLength(data);
    && k > 0 && Val(data[..k]) % 8 == LENGTH_PREFIXED
    && VarintPrefix(data[k..], 5) > 0 && Announced(data[k..]) > TWO_32
  }

  // The scan of a message comes to such a record.
  predicate Wraps(data: Bytes)
    decreases |data|
  {
    data != [] &&
    match Cut(data)
    case None => WrapsHere(data)
    case Some((_, n)) => n <= |data| && Wraps(data[n..])
  }

  // A message of six bytes that comes to it at once: a record of field 1 that announces 0xffffffff bytes.
  lemma WrappedMessage()
    ensures var data: Bytes := [0x0a, 0xff, 0xff, 0xff, 0xff, 0x0f];
            Wraps(data) && Lex(data).None? && KeyLength(data) == 1 && ScannedLength(data[1..]) == 4
  {
    var v: Bytes := [0xff, 0xff, 0xff, 0xff, 0x0f];
    var data: Bytes := [0x0a, 0xff, 0xff, 0xff, 0xff, 0x0f];
    WrappedLength();
    assert data == [0x0a] + v && data[1..] == v && data[..1] == [0x0a];
    VarintPrefixFinds([0x0a], v, 5);
    assert Val([0x0a]) == 10 by { assert [0x0a][1..] == []; }
    WrapsIsNotCut(data);
  }

  // No length wraps around, in the sub-messages either.
  predicate Unwrapped(S: Schema, d: nat, data: Bytes)
    requires d < |S|
    decreases |data|, 1
  {
    && !Wraps(data)
    && (Lex(data).Some? ==> forall k :: 0 <= k < |Lex(data).value| ==>
         |Lex(data).value[k].payload| < |data| && ItemUnwrapped(S, S[d], Lex(data).value[k]))
  }

  predicate ItemUnwrapped(S: Schema, fs: seq<Field>, it: Item)
    decreases |it.payload|, 0
  {
    var i := FindField(fs, it.tag);
    i >= 0 && fs[i].ty == MESSAGE && fs[i].sub < |S| && it.wire == LENGTH_PREFIXED && PrefixLength(it) > 0 ==>
      Unwrapped(S, fs[i].sub, Body(it))
  }

  // A record that wraps around cannot be cut.
  lemma WrapsIsNotCut(data: Bytes)
    requires |data| < TWO_32 && WrapsHere(data)
    ensures Cut(data).None?
  {
  }

  lemma {:induction false} LexedIsUnwrapped(data: Bytes)
    requires Lex(data).Some?
    ensures !Wraps(data)
    decreases |data|
  {
    if data != [] { LexedIsUnwrapped(data[Cut(data).value.1..]); }
  }

  lemma NoWrapHere(data: Bytes)
    requires !Wraps(data) && data != [] && |data| < TWO_32
    ensures !WrapsHere(data)
  {
    if Cut(data).Some? && WrapsHere(data) { WrapsIsNotCut(data); }
  }

  lemma NoWrapLater(data: Bytes, it: Item, n: nat)
    requires !Wraps(data) && data != [] && Cut(data) == Some((it, n))
    ensures n <= |data| && !Wraps(data[n..])
  {
  }

  // Where nothing wraps around, the length that the scan takes is the one that it is meant to take.
  lemma ScannedIsPrefixed(data: Bytes, used: nat, tag: nat)
    requires !WrapsHere(data) && |data| < TWO_32 && 0 < used == KeyLength(data)
    requires Val(data[..used]) == tag * 8 + LENGTH_PREFIXED
    ensures ScannedLength(data[used..]) == PrefixedLength(data[used..])
  {
    KeyParts(tag, LENGTH_PREFIXED);
    if VarintPrefix(data[used..], 5) > 0 { LengthIsRightIff(data[used..]); }
  }
}
