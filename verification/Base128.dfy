/** The base-128 integers, zigzag codes and fixed-width words of protobuf-c.c, as byte sequences. */
module Base128 {
  import opened Basics

  type Byte = b: int | 0 <= b < 256
  type Bytes = seq<Byte>

  const TWO_31 := 0x8000_0000
  const TWO_32 := 0x1_0000_0000
  const TWO_63 := 0x8000_0000_0000_0000
  const TWO_64 := 0x1_0000_0000_0000_0000

  // The base-128 encoding: seven bits a byte, low bits first, the top bit set on every byte but the last.
  function Varint(n: nat): Bytes
  {
    if n < 128 then [n] else [n % 128 + 128] + Varint(n / 128)
  }

  // The seven bits of a byte that carry the number.
  function Low7(b: Byte): nat { b % 128 }

  // The number that a base-128 encoding stands for.
  function Val(bs: Bytes): nat
  {
    if bs == [] then 0 else Low7(bs[0]) + 128 * Val(bs[1..])
  }

  // One complete encoding, canonical or not.
  predicate IsVarint(bs: Bytes)
  {
    |bs| > 0 && bs[|bs| - 1] < 128 && forall i :: 0 <= i < |bs| - 1 ==> bs[i] >= 128
  }

  lemma {:induction false} ValOfVarint(n: nat)
    ensures Val(Varint(n)) == n && IsVarint(Varint(n))
  {
    if n >= 128 {
      ValOfVarint(n / 128);
      var v := Varint(n);
      assert v[1..] == Varint(n / 128);
      forall i | 0 <= i < |v| - 1 ensures v[i] >= 128 {
        if i > 0 { assert v[i] == Varint(n / 128)[i - 1]; }
      }
    }
  }

  function Pow128(k: nat): nat { if k == 0 then 1 else 128 * Pow128(k - 1) }

  // An encoding takes k bytes or fewer exactly when the number is below 128 to the k.
  lemma {:induction false} VarintLength(n: nat, k: nat)
    requires k > 0
    ensures |Varint(n)| <= k <==> n < Pow128(k)
    ensures |Varint(n)| > 0
  {
    if k == 1 {
      assert Pow128(1) == 128;
      if n >= 128 { VarintLength(n / 128, 1); }
    } else if n >= 128 {
      VarintLength(n / 128, k - 1);
    } else {
      Pow128Grows(1, k);
    }
  }

  lemma {:induction false} Pow128Grows(j: nat, k: nat)
    requires j <= k
    ensures 1 <= Pow128(j) <= Pow128(k)
  {
    if j < k { Pow128Grows(j, k - 1); } else if j > 0 { Pow128Grows(j - 1, k - 1); }
  }

  lemma Pow128Values()
    ensures Pow128(1) == 128 && Pow128(2) == 0x4000 && Pow128(3) == 0x20_0000 && Pow128(4) == 0x1000_0000
    ensures Pow128(5) == 0x8_0000_0000 && Pow128(6) == 0x400_0000_0000 && Pow128(7) == 0x2_0000_0000_0000
    ensures Pow128(8) == 0x100_0000_0000_0000 && Pow128(9) == 0x8000_0000_0000_0000
    ensures Pow128(10) == 0x40_0000_0000_0000_0000
  {
    assert Pow128(3) == 0x20_0000;
    assert Pow128(6) == 0x400_0000_0000;
    assert Pow128(8) == 0x100_0000_0000_0000;
  }

  // ---- sizes ----

  // get_tag_size
  function TagSize(number: nat): nat
  {
    if number < 0x10 then 1
    else if number < 0x800 then 2
    else if number < 0x4_0000 then 3
    else if number < 0x200_0000 then 4
    else 5
  }

  // uint32_size
  function Uint32Size(v: nat): nat
  {
    if v < 0x80 then 1
    else if v < 0x4000 then 2
    else if v < 0x20_0000 then 3
    else if v < 0x1000_0000 then 4
    else 5
  }

  // int32_size, of the word that holds a two's-complement number
  function Int32Size(w: nat): nat
  {
    if w >= TWO_31 then 10 else Uint32Size(w)
  }

  // uint64_size
  function Uint64Size(v: nat): nat
  {
    var upper := v / TWO_32;
    if upper == 0 then Uint32Size(v)
    else if upper < 0x8 then 5
    else if upper < 0x400 then 6
    else if upper < 0x2_0000 then 7
    else if upper < 0x100_0000 then 8
    else if upper < 0x8000_0000 then 9
    else 10
  }

  // The 64-bit word that holds the sign extension of a 32-bit one.
  function SignExtend(w: nat): nat
  {
    if w < TWO_31 then w else w + (TWO_64 - TWO_32)
  }

  // zigzag32 and zigzag64, on numbers
  function Zigzag(v: int): nat
  {
    if v < 0 then (-v) * 2 - 1 else v * 2
  }

  // unzigzag32 and unzigzag64
  function Unzigzag(u: nat): int
  {
    if u % 2 == 1 then -(u / 2) - 1 else u / 2
  }

  // Two's complement.
  function Signed32(w: nat): int { if w < TWO_31 then w else w - TWO_32 }
  function Signed64(w: nat): int { if w < TWO_63 then w else w - TWO_64 }
  function Word32(v: int): nat { v % TWO_32 }
  function Word64(v: int): nat { v % TWO_64 }

  lemma SizesAgree32(v: nat)
    requires v < TWO_32
    ensures Uint32Size(v) == |Varint(v)| && |Varint(v)| <= 5
    ensures Int32Size(v) == |Varint(SignExtend(v))| && |Varint(SignExtend(v))| <= 10
  {
    Pow128Values();
    var s := SignExtend(v);
    VarintLength(v, 1); VarintLength(v, 2); VarintLength(v, 3); VarintLength(v, 4); VarintLength(v, 5);
    VarintLength(s, 9); VarintLength(s, 10);
  }

  lemma SizesAgree64(v: nat)
    requires v < TWO_64
    ensures Uint64Size(v) == |Varint(v)| && |Varint(v)| <= 10
  {
    Pow128Values();
    if v < TWO_32 {
      SizesAgree32(v);
    } else {
      VarintLength(v, 4); VarintLength(v, 5); VarintLength(v, 6); VarintLength(v, 7);
      VarintLength(v, 8); VarintLength(v, 9); VarintLength(v, 10);
    }
  }

  lemma TagSizeAgrees(id: nat, wire: nat)
    requires id < TWO_32 && wire < 8
    ensures TagSize(id) == |Varint(id * 8 + wire)| && |Varint(id * 8 + wire)| <= 5
  {
    Pow128Values();
    var v := id * 8 + wire;
    VarintLength(v, 1); VarintLength(v, 2); VarintLength(v, 3); VarintLength(v, 4); VarintLength(v, 5);
  }

  // Zigzag is a bijection between the 32-bit numbers and words, and between the 64-bit ones.
  lemma ZigzagBijection(v: int, u: nat)
    ensures Unzigzag(Zigzag(v)) == v && Zigzag(Unzigzag(u)) == u
    ensures -TWO_31 <= v < TWO_31 <==> Zigzag(v) < TWO_32
    ensures -TWO_63 <= v < TWO_63 <==> Zigzag(v) < TWO_64
  {
  }

  // Codes grow with the magnitude, and of two opposite numbers the negative one comes first.
  lemma ZigzagOrder(a: int, b: int)
    ensures Zigzag(0) == 0
    ensures Zigzag(a) < Zigzag(b) <==> Magnitude(a) < Magnitude(b) || (a == -b && a < b)
  {
  }

  function Magnitude(v: int): nat { if v < 0 then -v else v }

  lemma TwosComplement(w: nat, v: int)
    ensures w < TWO_32 ==> Word32(Signed32(w)) == w && -TWO_31 <= Signed32(w) < TWO_31
    ensures w < TWO_64 ==> Word64(Signed64(w)) == w && -TWO_63 <= Signed64(w) < TWO_63
    ensures -TWO_31 <= v < TWO_31 ==> Word32(v) < TWO_32 && Signed32(Word32(v)) == v
    ensures -TWO_63 <= v < TWO_63 ==> Word64(v) < TWO_64 && Signed64(Word64(v)) == v
  {
  }

  // ---- parsing ----

  // parse_uint32: the bits of at most five bytes, in 32-bit arithmetic
  function ParseUint32(data: Bytes): nat
    requires |data| > 0
  {
    Low7(data[0])
    + (if |data| > 1 then Low7(data[1]) * 0x80 else 0)
    + (if |data| > 2 then Low7(data[2]) * 0x4000 else 0)
    + (if |data| > 3 then Low7(data[3]) * 0x20_0000 else 0)
    + (if |data| > 4 then Shift28(data[4]) else 0)
  }

  // A whole byte shifted left by 28 in 32-bit arithmetic.
  function Shift28(b: Byte): nat { (b as int * 0x1000_0000) % TWO_32 }

  // Whatever its length, an encoding parses to the number it stands for, cut to 32 bits.
  lemma ParseUint32IsVal(data: Bytes)
    requires |data| > 0
    ensures ParseUint32(data) == Val(data) % TWO_32
    ensures |data| <= 4 ==> ParseUint32(data) == Val(data)
  {
    ValUnfold(data);
    if |data| > 1 {
      ValUnfold(data[1..]);
      if |data| > 2 {
        ValUnfold(data[2..]);
        if |data| > 3 {
          ValUnfold(data[3..]);
          if |data| > 4 {
            ValUnfold(data[4..]);
            ShiftedSum(Low7(data[0]) + Low7(data[1]) * 0x80 + Low7(data[2]) * 0x4000 + Low7(data[3]) * 0x20_0000,
                       data[4], Val(data[5..]));
          }
        }
      }
    }
  }

  lemma ValUnfold(data: Bytes)
    requires |data| > 0
    ensures Val(data) == Low7(data[0]) + 128 * Val(data[1..])
    ensures |data| > 1 ==> data[1..][0] == data[1]
    ensures forall i :: 1 <= i <= |data| ==> data[1..][i - 1..] == data[i..]
  {
  }

  lemma ShiftedSum(base: nat, b: Byte, rest: nat)
    requires base < 0x1000_0000
    ensures base + Shift28(b) == (base + 0x1000_0000 * (Low7(b) + 128 * rest)) % TWO_32
  {
    var h := b as int / 16;
    assert b as int * 0x1000_0000 == (b as int % 16) * 0x1000_0000 + h * TWO_32;
    assert Low7(b) == b as int % 16 + 16 * (Low7(b) / 16);
    var k := Low7(b) / 16 + 8 * rest;
    assert base + 0x1000_0000 * (Low7(b) + 128 * rest) == base + (b as int % 16) * 0x1000_0000 + k * TWO_32;
  }

  lemma {:induction false} ValSnoc(a: Bytes, b: Byte)
    ensures Val(a + [b]) == Val(a) + Low7(b) * Pow128(|a|)
  {
    if a == [] {
      assert a + [b] == [b] && Val([b]) == Low7(b) + 128 * Val([b][1..]);
    } else {
      assert (a + [b])[1..] == a[1..] + [b];
      ValSnoc(a[1..], b);
      Scale(Val(a[1..]), Low7(b), Pow128(|a| - 1));
    }
  }

  lemma Scale(v: int, x: int, p: int)
    ensures 128 * (v + x * p) == 128 * v + x * (128 * p)
  {
  }

  lemma {:induction false} ValBound(bs: Bytes)
    ensures Val(bs) < Pow128(|bs|)
  {
    if bs != [] { ValBound(bs[1..]); }
  }

  // parse_uint64
  method ParseUint64(data: Bytes) returns (rv: nat)
    requires 0 < |data| <= 10
    ensures rv == Val(data) % TWO_64
  {
    Pow128Values();
    ValBound(data);
    ParseUint32IsVal(data);
    if |data| < 5 {
      Pow128Grows(|data|, 4);
      return ParseUint32(data);
    }
    rv := Low7(data[0]) + Low7(data[1]) * 0x80 + Low7(data[2]) * 0x4000 + Low7(data[3]) * 0x20_0000;
    ParseUint32IsVal(data[..4]);
    ValBound(data[..4]);
    var shift: nat := 0x1000_0000;
    for i := 4 to |data|
      invariant shift == Pow128(i)
      invariant rv == Val(data[..i]) % TWO_64
    {
      assert data[..i + 1] == data[..i] + [data[i]];
      ValSnoc(data[..i], data[i]);
      var bits := Low7(data[i]) * shift;
      ModPlus(Val(data[..i]), bits);
      rv := (rv + bits) % TWO_64;
      shift := 128 * shift;
    }
    assert data[..|data|] == data;
  }

  lemma ModPlus(a: nat, b: nat)
    ensures (a % TWO_64 + b) % TWO_64 == (a + b) % TWO_64
  {
  }

  // Parsing gives back what was encoded: an unsigned number, and a negative one from its ten bytes.
  lemma ParsingInverts(v: nat)
    requires v < TWO_32
    ensures |Varint(v)| > 0 && ParseUint32(Varint(v)) == v
    ensures |Varint(SignExtend(v))| > 0 && ParseUint32(Varint(SignExtend(v))) == v
  {
    SignExtendLow(v);
    OneInverts(v, v);
    OneInverts(SignExtend(v), v);
  }

  lemma SignExtendLow(v: nat)
    requires v < TWO_32
    ensures v % TWO_32 == v && SignExtend(v) % TWO_32 == v
  {
  }

  lemma OneInverts(n: nat, low: nat)
    requires n % TWO_32 == low
    ensures |Varint(n)| > 0 && ParseUint32(Varint(n)) == low
  {
    ValOfVarint(n);
    ParseUint32IsVal(Varint(n));
  }

  // parse_fixed_uint32 and parse_fixed_uint64: k bytes, low byte first
  function FixedVal(data: Bytes): nat
  {
    if data == [] then 0 else data[0] + 256 * FixedVal(data[1..])
  }

  // fixed32_pack and fixed64_pack
  function Fixed(v: nat, k: nat): Bytes
  {
    if k == 0 then [] else [v % 256] + Fixed(v / 256, k - 1)
  }

  function Pow256(k: nat): nat { if k == 0 then 1 else 256 * Pow256(k - 1) }

  lemma {:induction false} FixedRoundTrip(v: nat, k: nat)
    ensures |Fixed(v, k)| == k && (v < Pow256(k) ==> FixedVal(Fixed(v, k)) == v)
  {
    if k > 0 {
      FixedRoundTrip(v / 256, k - 1);
      assert Fixed(v, k)[1..] == Fixed(v / 256, k - 1);
    }
  }

  // Each byte of a word holds the next eight bits of the number.
  lemma FixedBytes32(v: nat)
    ensures Fixed(v, 4) == [v % 256, v / 0x100 % 256, v / 0x1_0000 % 256, v / 0x100_0000 % 256]
  {
    assert Fixed(v, 4) == [v % 256] + Fixed(v / 0x100, 3);
    assert Fixed(v / 0x100, 3) == [v / 0x100 % 256] + Fixed(v / 0x1_0000, 2);
    assert Fixed(v / 0x1_0000, 2) == [v / 0x1_0000 % 256] + Fixed(v / 0x100_0000, 1);
    assert Fixed(v / 0x100_0000, 1) == [v / 0x100_0000 % 256];
  }

  // The upper bits follow the lower ones; those that have no room in a word are lost.
  lemma {:induction false} FixedFollows(v: nat, upper: nat, j: nat, k: nat)
    ensures Fixed(v + Pow256(j) * upper, j) == Fixed(v, j)
    ensures v < Pow256(j) ==> Fixed(v + Pow256(j) * upper, j + k) == Fixed(v, j) + Fixed(upper, k)
  {
    if j > 0 {
      var x := Pow256(j - 1) * upper;
      assert Pow256(j) * upper == 256 * x by { assert 256 * Pow256(j - 1) * upper == 256 * x; }
      assert (v + 256 * x) % 256 == v % 256 && (v + 256 * x) / 256 == v / 256 + x;
      FixedFollows(v / 256, upper, j - 1, k);
      Associates([v % 256], Fixed(v / 256, j - 1), Fixed(upper, k));
    } else {
      assert Pow256(0) * upper == upper;
    }
  }

  lemma FixedReads32(v: nat)
    ensures FixedVal(Fixed(v, 4)) == v % TWO_32
  {
    assert Pow256(4) == TWO_32;
    FixedFollows(v % TWO_32, v / TWO_32, 4, 0);
    FixedRoundTrip(v % TWO_32, 4);
  }

  lemma {:induction false} FixedBack(data: Bytes)
    ensures Fixed(FixedVal(data), |data|) == data && FixedVal(data) < Pow256(|data|)
  {
    if data != [] {
      FixedBack(data[1..]);
      LowByteFirst(data[0], FixedVal(data[1..]), |data|);
    }
  }

  lemma LowByteFirst(b: Byte, rest: nat, k: nat)
    requires k > 0
    ensures Fixed(b + 256 * rest, k) == [b] + Fixed(rest, k - 1)
  {
  }

  // parse_boolean: whether any of the seven-bit groups is not zero
  method ParseBoolean(data: Bytes) returns (r: nat)
    ensures r == if exists i :: 0 <= i < |data| && Low7(data[i]) != 0 then 1 else 0
  {
    for i := 0 to |data|
      invariant forall j :: 0 <= j < i ==> Low7(data[j]) == 0
    {
      if Low7(data[i]) != 0 {
        return 1;
      }
    }
    r := 0;
  }

  // scan_varint, and the scan of a varint field: the length of the encoding at the start of data, or 0
  method ScanVarint(data: Bytes) returns (n: nat)
    ensures n == VarintPrefix(data, 10)
  {
    var len := if |data| > 10 then 10 else |data|;
    var i := 0;
    while i < len && data[i] >= 128
      invariant 0 <= i <= len
      invariant forall j :: 0 <= j < i ==> data[j] >= 128
    {
      i := i + 1;
    }
    n := if i == len then 0 else i + 1;
    if n > 0 {
      assert data == data[..n] + data[n..];
      VarintPrefixFinds(data[..n], data[n..], 10);
    }
  }

  // The length of the varint that data starts with, if it has one of at most max bytes; otherwise 0.
  function VarintPrefix(data: Bytes, max: nat): (n: nat)
    ensures n <= |data| && n <= max
    ensures n > 0 ==> IsVarint(data[..n])
    ensures n == 0 ==> forall i :: 0 <= i < |data| && i < max ==> data[i] >= 128
  {
    if data == [] || max == 0 then 0
    else if data[0] < 128 then 1
    else
      var k := VarintPrefix(data[1..], max - 1);
      assert k > 0 ==> data[..k + 1] == [data[0]] + data[1..][..k];
      if k == 0 then 0 else k + 1
  }

  // A varint is found again in front of any other bytes.
  lemma {:induction false} VarintPrefixFinds(v: Bytes, rest: Bytes, max: nat)
    requires IsVarint(v) && |v| <= max
    ensures VarintPrefix(v + rest, max) == |v|
  {
    if |v| > 1 {
      assert (v + rest)[1..] == v[1..] + rest;
      VarintPrefixFinds(v[1..], rest, max - 1);
    }
  }
}
