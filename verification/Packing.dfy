/** The functions of protobuf-c.c that write numbers in place: each writes exactly its encoding and nothing else. */
module Packing {
  import opened Base128

  // s with bs written over it from position at on.
  function Splice(s: Bytes, at: nat, bs: Bytes): (r: Bytes)
    requires at + |bs| <= |s|
    ensures |r| == |s|
  {
    s[..at] + bs + s[at + |bs|..]
  }

  lemma SpliceNothing(s: Bytes, at: nat)
    requires at <= |s|
    ensures Splice(s, at, []) == s
  {
  }

  lemma SpliceSnoc(s: Bytes, at: nat, bs: Bytes, b: Byte)
    requires at + |bs| < |s|
    ensures Splice(s, at, bs)[at + |bs| := b] == Splice(s, at, bs + [b])
  {
  }

  // Writing next to what has been written.
  lemma SpliceSplice(s: Bytes, at: nat, a: Bytes, b: Bytes)
    requires at + |a| + |b| <= |s|
    ensures Splice(Splice(s, at, a), at + |a|, b) == Splice(s, at, a + b)
  {
  }

  // ---- base 128 ----

  // A base-128 encoding is the one that is written if its last byte is needed.
  lemma {:induction false} VarintUnique(bs: Bytes)
    requires IsVarint(bs) && (|bs| > 1 ==> bs[|bs| - 1] != 0)
    ensures Varint(Val(bs)) == bs
  {
    if |bs| > 1 {
      VarintUnique(bs[1..]);
      ValPositive(bs[1..]);
      assert bs == [bs[0]] + bs[1..];
    } else {
      assert bs == [bs[0]] && Val(bs[1..]) == 0;
    }
  }

  lemma {:induction false} ValPositive(bs: Bytes)
    requires IsVarint(bs) && bs[|bs| - 1] != 0
    ensures Val(bs) > 0
  {
    if |bs| > 1 { ValPositive(bs[1..]); }
  }

  // The state of a buffer in which done has been written from position base on.
  ghost predicate Wrote(out: array<Byte>, start: Bytes, base: nat, done: Bytes)
    reads out
  {
    out.Length == |start| && base + |done| <= |start| && out[..] == Splice(start, base, done)
  }

  method PutByte(b: Byte, out: array<Byte>, at: nat, ghost start: Bytes, ghost base: nat, ghost done: Bytes)
    requires Wrote(out, start, base, done) && at == base + |done| < out.Length
    modifies out
    ensures Wrote(out, start, base, done + [b])
  {
    ghost var before := out[..];
    out[at] := b;
    assert out[..] == before[at := b];
    SpliceSnoc(start, base, done, b);
  }

  // uint32_pack
  method Uint32Pack(value0: nat, out: array<Byte>, at: nat) returns (rv: nat)
    requires value0 < TWO_32 && at + |Varint(value0)| <= out.Length
    modifies out
    ensures rv == |Varint(value0)| && out[..] == Splice(old(out[..]), at, Varint(value0))
  {
    ghost var start: Bytes, done: Bytes := out[..], [];
    var value := value0;
    rv := 0;
    SpliceNothing(start, at);
    if value >= 0x80 {
      rv, value, done := PutGroup(value0, value, out, at, rv, start, done);
      assert value < 0x200_0000;
      if value >= 0x80 {
        rv, value, done := PutGroup(value0, value, out, at, rv, start, done);
        assert value < 0x4_0000;
        if value >= 0x80 {
          rv, value, done := PutGroup(value0, value, out, at, rv, start, done);
          assert value < 0x800;
          if value >= 0x80 {
            rv, value, done := PutGroup(value0, value, out, at, rv, start, done);
            assert value < 0x10;
          }
        }
      }
    }
    assert Varint(value) == [value];
    PutByte(value, out, at + rv, start, at, done);
    rv := rv + 1;
  }

  // The seven low bits of value go to the next byte, with its top bit set.
  method PutGroup(ghost whole: nat, value: nat, out: array<Byte>, at: nat, rv: nat, ghost start: Bytes,
                  ghost done: Bytes)
    returns (rv': nat, rest: nat, ghost done': Bytes)
    requires value >= 128 && rv == |done| && at + |Varint(whole)| <= out.Length && Varint(whole) == done + Varint(value)
    requires Wrote(out, start, at, done)
    modifies out
    ensures rv' == |done'| == rv + 1 && rest == value / 128 && Varint(whole) == done' + Varint(rest)
    ensures Wrote(out, start, at, done')
  {
    var b: Byte := value % 128 + 128;
    assert Varint(value) == [b] + Varint(value / 128);
    PutByte(b, out, at + rv, start, at, done);
    rv', rest, done' := rv + 1, value / 128, done + [b];
  }

  // One group of a number that is held as its sum with a multiple of 128.
  lemma Shifted(v: int, q: nat)
    requires v + 128 * q >= 128
    ensures Varint(v + 128 * q) == [v % 128 + 128] + Varint(v / 128 + q)
  {
    assert (v + 128 * q) % 128 == v % 128 && (v + 128 * q) / 128 == v / 128 + q;
  }

  lemma Quotients(v: int)
    requires -TWO_31 <= v < 0
    ensures v / 0x80 / 0x80 == v / 0x4000 && v / 0x4000 / 0x80 == v / 0x20_0000
      && v / 0x20_0000 / 0x80 == v / 0x1000_0000
    ensures -8 <= v / 0x1000_0000 < 0
  {
  }

  // The ten bytes of a negative number.
  lemma NegativeBytes(v: int)
    requires -TWO_31 <= v < 0
    ensures Varint(v + TWO_64) ==
            [v % 128 + 128, (v / 0x80) % 128 + 128, (v / 0x4000) % 128 + 128, (v / 0x20_0000) % 128 + 128,
             (v / 0x1000_0000) % 128 + 128, 255, 255, 255, 255, 1]
  {
    Quotients(v);
    Shifted(v, 0x200_0000_0000_0000);
    Shifted(v / 0x80, 0x4_0000_0000_0000);
    Shifted(v / 0x4000, 0x800_0000_0000);
    Shifted(v / 0x20_0000, 0x10_0000_0000);
    var w := v / 0x1000_0000;
    assert Varint(w + 0x10_0000_0000) == [w % 128 + 128, 255, 255, 255, 255, 1] by {
      Shifted(w, 0x2000_0000);
      assert w / 128 == -1;
      assert Varint(0x1fff_ffff) == [255] + Varint(0x3f_ffff);
      assert Varint(0x3f_ffff) == [255] + Varint(0x7fff);
      assert Varint(0x7fff) == [255] + Varint(0xff);
      assert Varint(0xff) == [255, 1];
    }
  }

  // int32_pack; shifts of a negative number round down
  method Int32Pack(value: int, out: array<Byte>, at: nat) returns (rv: nat)
    requires -TWO_31 <= value < TWO_31 && at + |Varint(Word64(value))| <= out.Length
    modifies out
    ensures rv == |Varint(Word64(value))| && out[..] == Splice(old(out[..]), at, Varint(Word64(value)))
  {
    if value < 0 {
      ghost var start := out[..];
      NegativeBytes(value);
      out[at] := value % 128 + 128;
      out[at + 1] := (value / 0x80) % 128 + 128;
      out[at + 2] := (value / 0x4000) % 128 + 128;
      out[at + 3] := (value / 0x20_0000) % 128 + 128;
      out[at + 4] := (value / 0x1000_0000) % 128 + 128;
      out[at + 5], out[at + 6], out[at + 7], out[at + 8] := 0xff, 0xff, 0xff, 0xff;
      out[at + 9] := 0x01;
      rv := 10;
      assert out[..] == Splice(start, at, Varint(Word64(value)));
    } else {
      rv := Uint32Pack(value, out, at);
    }
  }

  // The first five bytes of a number of more than 32 bits, by its two halves.
  lemma HalvesBytes(n: nat, hi: nat, lo: nat)
    requires 0 < hi < TWO_32 && lo < TWO_32 && n == lo + 128 * (hi * 0x200_0000)
    ensures Varint(n) ==
            [lo % 128 + 128, (lo / 0x80) % 128 + 128, (lo / 0x4000) % 128 + 128, (lo / 0x20_0000) % 128 + 128]
                         + Varint(lo / 0x1000_0000 + hi * 16)
  {
    LowQuotients(lo);
    Shifted(lo, hi * 0x200_0000);
    Shifted(lo / 0x80, hi * 0x4_0000);
    Shifted(lo / 0x4000, hi * 0x800);
    Shifted(lo / 0x20_0000, hi * 16);
    Four(lo % 128 + 128, (lo / 0x80) % 128 + 128, (lo / 0x4000) % 128 + 128, (lo / 0x20_0000) % 128 + 128,
         Varint(lo / 0x1000_0000 + hi * 16), Varint(n));
  }

  lemma Four(a: Byte, b: Byte, c: Byte, d: Byte, rest: Bytes, all: Bytes)
    requires all == [a] + ([b] + ([c] + ([d] + rest)))
    ensures all == [a, b, c, d] + rest
  {
  }

  lemma LowQuotients(lo: nat)
    requires lo < TWO_32
    ensures lo / 0x80 / 0x80 == lo / 0x4000 && lo / 0x4000 / 0x80 == lo / 0x20_0000
    ensures lo / 0x20_0000 / 0x80 == lo / 0x1000_0000 && lo / 0x1000_0000 < 16
  {
  }

  lemma FifthByte(hi: nat, top: nat)
    requires hi >= 8 && top < 16
    ensures Varint(top + hi * 16) == [(hi % 8) * 16 + top + 128] + Varint(hi / 8)
  {
    assert (hi * 16 + top) % 128 == (hi % 8) * 16 + top && (hi * 16 + top) / 128 == hi / 8;
  }

  // uint64_pack
  method Uint64Pack(value: nat, out: array<Byte>, at: nat) returns (rv: nat)
    requires value < TWO_64 && at + |Varint(value)| <= out.Length
    modifies out
    ensures rv == |Varint(value)| && out[..] == Splice(old(out[..]), at, Varint(value))
  {
    var hi, lo := value / TWO_32, value % TWO_32;
    if hi == 0 {
      rv := Uint32Pack(lo, out, at);
      return;
    }
    ghost var start: Bytes, done: Bytes := out[..], [];
    HalvesBytes(value, hi, lo);
    SpliceNothing(start, at);
    rv, done := PutFour(lo % 128 + 128, (lo / 0x80) % 128 + 128, (lo / 0x4000) % 128 + 128,
                        (lo / 0x20_0000) % 128 + 128, out, at, start);
    var top := lo / 0x1000_0000;
    if hi < 8 {
      assert Varint(top + hi * 16) == [hi * 16 + top];
      PutByte(hi * 16 + top, out, at + rv, start, at, done);
      return 5;
    }
    FifthByte(hi, top);
    var b4: Byte := (hi % 8) * 16 + top + 128;
    PutByte(b4, out, at + rv, start, at, done);
    hi := hi / 8;
    rv := PutRest(value, hi, out, at, start, done + [b4]);
  }

  // The groups after the fifth.
  method PutRest(ghost value: nat, hi0: nat, out: array<Byte>, at: nat, ghost start: Bytes, ghost done0: Bytes)
    returns (rv: nat)
    requires |done0| == 5 && Varint(value) == done0 + Varint(hi0) && Wrote(out, start, at, done0)
    requires at + |Varint(value)| <= out.Length
    modifies out
    ensures rv == |Varint(value)| && out[..] == Splice(start, at, Varint(value))
  {
    ghost var done := done0;
    var hi := hi0;
    rv := 5;
    while hi >= 128
      invariant rv == |done| && Varint(value) == done + Varint(hi) && Wrote(out, start, at, done)
    {
      rv, hi, done := PutGroup(value, hi, out, at, rv, start, done);
    }
    assert Varint(hi) == [hi];
    PutByte(hi, out, at + rv, start, at, done);
    rv := rv + 1;
  }

  method PutFour(b0: Byte, b1: Byte, b2: Byte, b3: Byte, out: array<Byte>, at: nat, ghost start: Bytes)
    returns (rv: nat, ghost done: Bytes)
    requires at + 4 < out.Length && Wrote(out, start, at, [])
    modifies out
    ensures rv == 4 && done == [b0, b1, b2, b3] && Wrote(out, start, at, done)
  {
    PutByte(b0, out, at, start, at, []);
    PutByte(b1, out, at + 1, start, at, [b0]);
    PutByte(b2, out, at + 2, start, at, [b0, b1]);
    PutByte(b3, out, at + 3, start, at, [b0, b1, b2]);
    rv, done := 4, [b0, b1, b2, b3];
  }

  // ---- fixed width and tags ----

  // fixed32_pack and fixed64_pack for k of 4 and 8, low byte first
  method FixedPack(value0: nat, k: nat, out: array<Byte>, at: nat) returns (rv: nat)
    requires at + k <= out.Length
    modifies out
    ensures rv == k && |Fixed(value0, k)| == k && out[..] == Splice(old(out[..]), at, Fixed(value0, k))
  {
    ghost var start: Bytes, done: Bytes := out[..], [];
    var value := value0;
    FixedRoundTrip(value0, k);
    SpliceNothing(start, at);
    for i := 0 to k
      invariant |done| == i && Fixed(value0, k) == done + Fixed(value, k - i) && Wrote(out, start, at, done)
    {
      var b: Byte := value % 256;
      FixedStep(done, value, k - i);
      PutByte(b, out, at + i, start, at, done);
      done := done + [b];
      value := value / 256;
    }
    rv := k;
  }

  lemma FixedStep(done: Bytes, value: nat, k: nat)
    requires k > 0
    ensures done + Fixed(value, k) == (done + [value % 256]) + Fixed(value / 256, k - 1)
  {
  }

  // boolean_pack
  method BooleanPack(value: nat, out: array<Byte>, at: nat) returns (rv: nat)
    requires at < out.Length
    modifies out
    ensures rv == 1 && out[..] == Splice(old(out[..]), at, Varint(if value != 0 then 1 else 0))
  {
    SpliceNothing(out[..], at);
    PutByte(if value != 0 then 1 else 0, out, at, out[..], at, []);
    rv := 1;
  }

  lemma TagWithWire(id: nat, wire: nat)
    requires wire < 8
    ensures |Varint(id * 8)| > 0 && Varint(id * 8)[0] % 8 == 0 && Varint(id * 8)[0] + wire < 256
    ensures var first: Byte := Varint(id * 8)[0] + wire; Varint(id * 8 + wire) == Varint(id * 8)[0 := first]
  {
    assert (id * 8 + wire) / 128 == id * 8 / 128 && (id * 8 + wire) % 128 == id * 8 % 128 + wire;
  }

  // tag_pack, and the wire type that every caller then sets in the first byte
  method TagPack(id: nat, wire: nat, out: array<Byte>, at: nat) returns (rv: nat)
    requires id < TWO_32 && wire < 8 && at + |Varint(id * 8 + wire)| <= out.Length
    modifies out
    ensures rv == |Varint(id * 8 + wire)| && out[..] == Splice(old(out[..]), at, Varint(id * 8 + wire))
  {
    ghost var start := out[..];
    TagWithWire(id, wire);
    if id < 0x2000_0000 {
      rv := Uint32Pack(id * 8, out, at);
    } else {
      rv := Uint64Pack(id * 8, out, at);
    }
    ghost var before := out[..];
    assert out[at] == Varint(id * 8)[0];
    var first: Byte := out[at] + wire;
    out[at] := first;
    assert out[..] == before[at := first];
    SpliceFirst(start, at, Varint(id * 8), first);
  }

  lemma SpliceFirst(s: Bytes, at: nat, bs: Bytes, b: Byte)
    requires at + |bs| <= |s| && |bs| > 0
    ensures Splice(s, at, bs)[at := b] == Splice(s, at, bs[0 := b])
  {
  }

  // memcpy
  method CopyBytes(out: array<Byte>, at: nat, bytes: Bytes)
    requires at + |bytes| <= out.Length
    modifies out
    ensures out[..] == Splice(old(out[..]), at, bytes)
  {
    ghost var start := out[..];
    SpliceNothing(start, at);
    for i := 0 to |bytes|
      invariant Wrote(out, start, at, bytes[..i])
    {
      PutByte(bytes[i], out, at + i, start, at, bytes[..i]);
      assert bytes[..i + 1] == bytes[..i] + [bytes[i]];
    }
    assert bytes[..|bytes|] == bytes;
  }

  // memmove towards the end: the last byte is moved first
  method MoveBytes(out: array<Byte>, from: nat, to: nat, n: nat)
    requires from <= to && to + n <= out.Length
    modifies out
    ensures out[..] == Splice(old(out[..]), to, old(out[from..from + n]))
  {
    ghost var start := out[..];
    var i: nat := n;
    while i > 0
      invariant i <= n && out[..] == Moved(start, from, to, n, i)
    {
      i := i - 1;
      MoveStep(start, from, to, n, i);
      ghost var before := out[..];
      out[to + i] := out[from + i];
      assert out[..] == before[to + i := start[from + i]];
    }
  }

  // The bytes from the i-th on have been moved.
  function Moved(s: Bytes, from: nat, to: nat, n: nat, i: nat): Bytes
    requires from <= to && to + n <= |s| && i <= n
  {
    s[..to + i] + s[from + i..from + n] + s[to + n..]
  }

  lemma MoveStep(s: Bytes, from: nat, to: nat, n: nat, i: nat)
    requires from <= to && to + n <= |s| && i < n
    ensures |Moved(s, from, to, n, i + 1)| == |s| && Moved(s, from, to, n, i + 1)[from + i] == s[from + i]
    ensures Moved(s, from, to, n, i + 1)[to + i := s[from + i]] == Moved(s, from, to, n, i)
  {
    assert s[from + i..from + n] == [s[from + i]] + s[from + i + 1..from + n];
  }
}
