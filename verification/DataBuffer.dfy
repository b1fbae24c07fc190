/** The fragmented byte buffer of protobuf-c-data-buffer.c: a chain of fragments that acts as one byte sequence. */
module DataBuffer {
  import opened Base128
  import opened Basics
  import opened Wire

  type Ptr = nat
  const NULL: Ptr := 0

  // PROTOBUF_C_FRAGMENT_DATA_SIZE
  const DATA_SIZE := 4096

  // A fragment holds bufLength bytes from position bufStart on.
  datatype Fragment = Fragment(next: Ptr, bufStart: nat, bufLength: nat, data: Bytes)

  type Memory = map<Ptr, Fragment>

  predicate FragmentOk(f: Fragment)
  {
    |f.data| == DATA_SIZE && f.bufStart + f.bufLength <= DATA_SIZE
  }

  // The bytes of a fragment that are in use.
  function Used(f: Fragment): Bytes
    requires FragmentOk(f)
  {
    f.data[f.bufStart..f.bufStart + f.bufLength]
  }

  // protobuf_c_data_buffer_fragment_avail
  function Avail(f: Fragment): int
  {
    DATA_SIZE - f.bufStart - f.bufLength
  }

  function At(chain: seq<Ptr>, i: nat): Ptr
  {
    if i < |chain| then chain[i] else NULL
  }

  ghost predicate LinkOk(mem: Memory, chain: seq<Ptr>, i: nat)
  {
    i < |chain| && chain[i] in mem && FragmentOk(mem[chain[i]]) && mem[chain[i]].next == At(chain, i + 1)
  }

  ghost predicate IsChain(mem: Memory, chain: seq<Ptr>)
  {
    && NULL !in chain && (forall i, j :: 0 <= i < j < |chain| ==> chain[i] != chain[j])
    && forall i {:trigger LinkOk(mem, chain, i)} :: 0 <= i < |chain| ==> LinkOk(mem, chain, i)
  }

  function Last(chain: seq<Ptr>): Ptr
  {
    if chain == [] then NULL else chain[|chain| - 1]
  }

  // The bytes of a chain, in order.
  function BytesOf(mem: Memory, chain: seq<Ptr>): Bytes
  {
    if chain == [] then []
    else (if chain[0] in mem && FragmentOk(mem[chain[0]]) then Used(mem[chain[0]]) else []) + BytesOf(mem, chain[1..])
  }

  lemma {:induction false} BytesConcat(mem: Memory, a: seq<Ptr>, b: seq<Ptr>)
    ensures BytesOf(mem, a + b) == BytesOf(mem, a) + BytesOf(mem, b)
  {
    if a == [] {
      assert a + b == b;
    } else {
      assert (a + b)[1..] == a[1..] + b;
      BytesConcat(mem, a[1..], b);
    }
  }

  // Fragments that are not in a chain do not matter to it.
  lemma {:induction false} BytesSame(was: Memory, now: Memory, chain: seq<Ptr>)
    requires forall p :: p in chain ==> p in was && p in now && was[p] == now[p]
    ensures BytesOf(now, chain) == BytesOf(was, chain)
  {
    if chain != [] { BytesSame(was, now, chain[1..]); }
  }

  lemma ChainSame(was: Memory, now: Memory, chain: seq<Ptr>)
    requires IsChain(was, chain) && forall p :: p in chain ==> p in now && p in was && now[p] == was[p]
    ensures IsChain(now, chain) && BytesOf(now, chain) == BytesOf(was, chain)
  {
    forall i | 0 <= i < |chain| ensures LinkOk(now, chain, i) { assert LinkOk(was, chain, i); }
    BytesSame(was, now, chain);
  }

  // The first fragment, and the chain behind it.
  lemma ChainFront(mem: Memory, chain: seq<Ptr>)
    requires IsChain(mem, chain) && chain != []
    ensures chain[0] in mem && FragmentOk(mem[chain[0]]) && mem[chain[0]].next == At(chain[1..], 0)
    ensures IsChain(mem, chain[1..]) && chain[0] !in chain[1..]
      && Last(chain[1..]) == if |chain| == 1 then NULL else Last(chain)
    ensures BytesOf(mem, chain) == Used(mem[chain[0]]) + BytesOf(mem, chain[1..])
  {
    assert LinkOk(mem, chain, 0);
    forall i | 0 <= i < |chain[1..]| ensures LinkOk(mem, chain[1..], i) { assert LinkOk(mem, chain, i + 1); }
  }

  lemma ChainBack(mem: Memory, chain: seq<Ptr>)
    requires IsChain(mem, chain) && chain != []
    ensures var p := Last(chain);
            var front := chain[..|chain| - 1];
            p in mem && FragmentOk(mem[p]) && mem[p].next == NULL && p !in front
            && BytesOf(mem, chain) == BytesOf(mem, front) + Used(mem[p])
  {
    var p, front := Last(chain), chain[..|chain| - 1];
    assert LinkOk(mem, chain, |chain| - 1);
    assert chain == front + [p];
    BytesConcat(mem, front, [p]);
    assert [p][1..] == [];
  }

  lemma InMemory(mem: Memory, chain: seq<Ptr>)
    requires IsChain(mem, chain)
    ensures forall p :: p in chain ==> p in mem && FragmentOk(mem[p])
  {
    forall p | p in chain ensures p in mem && FragmentOk(mem[p]) {
      var i :| 0 <= i < |chain| && chain[i] == p;
      assert LinkOk(mem, chain, i);
    }
  }

  // ---- what the operations do to a chain ----

  // A fresh fragment is linked behind the last one.
  function WithFragment(mem: Memory, chain: seq<Ptr>, p: Ptr, native: Fragment): Memory
  {
    if chain == [] || Last(chain) !in mem then mem[p := native]
    else mem[p := native][Last(chain) := mem[Last(chain)].(next := p)]
  }

  lemma {:induction false} BytesSameUsed(was: Memory, now: Memory, chain: seq<Ptr>)
    requires forall p :: p in chain ==> p in was && p in now && FragmentOk(was[p]) && FragmentOk(now[p])
    requires forall p :: p in chain ==> Used(was[p]) == Used(now[p])
    ensures BytesOf(now, chain) == BytesOf(was, chain)
  {
    if chain != [] { BytesSameUsed(was, now, chain[1..]); }
  }

  lemma ChainGrows(mem: Memory, chain: seq<Ptr>, p: Ptr, native: Fragment)
    requires IsChain(mem, chain) && p !in mem && p != NULL && FragmentOk(native) && native.next == NULL
      && Used(native) == []
    ensures var now := WithFragment(mem, chain, p, native);
            IsChain(now, chain + [p]) && BytesOf(now, chain + [p]) == BytesOf(mem, chain)
  {
    var now := WithFragment(mem, chain, p, native);
    InMemory(mem, chain);
    forall i | 0 <= i < |chain + [p]| ensures LinkOk(now, chain + [p], i) {
      if i < |chain| { assert LinkOk(mem, chain, i); }
    }
    BytesSameUsed(mem, now, chain);
    BytesConcat(now, chain, [p]);
    assert [p][1..] == [];
  }

  // Bytes are copied behind those of the fragment.
  function Filled(f: Fragment, bytes: Bytes): (r: Fragment)
    requires FragmentOk(f) && |bytes| <= Avail(f)
    ensures FragmentOk(r) && r.next == f.next && Used(r) == Used(f) + bytes
  {
    var end := f.bufStart + f.bufLength;
    f.(bufLength := f.bufLength + |bytes|, data := f.data[..end] + bytes + f.data[end + |bytes|..])
  }

  // The first bytes of the fragment are taken off.
  function Cut(f: Fragment, n: nat): (r: Fragment)
    requires FragmentOk(f) && n <= f.bufLength
    ensures FragmentOk(r) && r.next == f.next && Used(r) == Used(f)[n..]
  {
    f.(bufStart := f.bufStart + n, bufLength := f.bufLength - n)
  }

  lemma ReplaceOne(mem: Memory, chain: seq<Ptr>, i: nat, f: Fragment)
    requires IsChain(mem, chain) && i < |chain| && chain[i] in mem && FragmentOk(f) && f.next == mem[chain[i]].next
    ensures IsChain(mem[chain[i] := f], chain)
  {
    var now := mem[chain[i] := f];
    forall k | 0 <= k < |chain| ensures LinkOk(now, chain, k) { assert LinkOk(mem, chain, k); }
  }

  lemma FrontStays(mem: Memory, chain: seq<Ptr>, p: Ptr, f: Fragment)
    requires IsChain(mem, chain) && chain != [] && p == Last(chain)
    ensures BytesOf(mem[p := f], chain[..|chain| - 1]) == BytesOf(mem, chain[..|chain| - 1])
  {
    ChainBack(mem, chain);
    InMemory(mem, chain);
    BytesSame(mem, mem[p := f], chain[..|chain| - 1]);
  }

  // The last fragment f gets more bytes.
  lemma LastGrows(mem: Memory, chain: seq<Ptr>, p: Ptr, f: Fragment, bytes: Bytes)
    requires IsChain(mem, chain) && chain != [] && p == Last(chain) && p in mem && FragmentOk(mem[p])
    requires FragmentOk(f) && f.next == mem[p].next && Used(f) == Used(mem[p]) + bytes
    ensures IsChain(mem[p := f], chain) && BytesOf(mem[p := f], chain) == BytesOf(mem, chain) + bytes
  {
    var front, now := chain[..|chain| - 1], mem[p := f];
    ReplaceOne(mem, chain, |chain| - 1, f);
    ChainBack(mem, chain);
    ChainBack(now, chain);
    FrontStays(mem, chain, p, f);
    Associates(BytesOf(mem, front), Used(mem[p]), bytes);
  }

  lemma LastFilled(mem: Memory, chain: seq<Ptr>, bytes: Bytes)
    requires IsChain(mem, chain) && chain != [] && Last(chain) in mem && FragmentOk(mem[Last(chain)])
    requires |bytes| <= Avail(mem[Last(chain)])
    ensures var now := mem[Last(chain) := Filled(mem[Last(chain)], bytes)];
            IsChain(now, chain) && BytesOf(now, chain) == BytesOf(mem, chain) + bytes
  {
    LastGrows(mem, chain, Last(chain), Filled(mem[Last(chain)], bytes), bytes);
  }

  // The first fragment f loses its first n bytes.
  lemma FirstShrinks(mem: Memory, chain: seq<Ptr>, p: Ptr, f: Fragment, n: nat)
    requires IsChain(mem, chain) && chain != [] && p == chain[0] && p in mem && FragmentOk(mem[p])
    requires n <= mem[p].bufLength && FragmentOk(f) && f.next == mem[p].next && Used(f) == Used(mem[p])[n..]
    ensures IsChain(mem[p := f], chain) && BytesOf(mem[p := f], chain) == BytesOf(mem, chain)[n..]
  {
    var now := mem[p := f];
    ReplaceOne(mem, chain, 0, f);
    ChainFront(mem, chain);
    ChainFront(now, chain);
    InMemory(mem, chain);
    BytesSame(mem, now, chain[1..]);
  }

  lemma FirstCut(mem: Memory, chain: seq<Ptr>, n: nat)
    requires IsChain(mem, chain) && chain != [] && chain[0] in mem && FragmentOk(mem[chain[0]])
    requires n <= mem[chain[0]].bufLength
    ensures var now := mem[chain[0] := Cut(mem[chain[0]], n)];
            IsChain(now, chain) && BytesOf(now, chain) == BytesOf(mem, chain)[n..]
  {
    FirstShrinks(mem, chain, chain[0], Cut(mem[chain[0]], n), n);
  }

  // The first fragment is released.
  lemma FirstReleased(mem: Memory, chain: seq<Ptr>)
    requires IsChain(mem, chain) && chain != []
    ensures IsChain(mem - {chain[0]}, chain[1..])
    ensures BytesOf(mem - {chain[0]}, chain[1..]) == BytesOf(mem, chain[1..])
  {
    ChainFront(mem, chain);
    forall q | q in chain[1..] ensures q in mem {
      var i :| 0 <= i < |chain[1..]| && chain[1..][i] == q;
      assert LinkOk(mem, chain[1..], i);
    }
    ChainSame(mem, mem - {chain[0]}, chain[1..]);
  }

  // Two chains become one.
  function Joined(mem: Memory, a: seq<Ptr>, b: seq<Ptr>): Memory
  {
    if a == [] || Last(a) !in mem then mem else mem[Last(a) := mem[Last(a)].(next := At(b, 0))]
  }

  lemma ChainsJoin(mem: Memory, a: seq<Ptr>, b: seq<Ptr>)
    requires IsChain(mem, a) && IsChain(mem, b) && forall p :: p in a ==> p !in b
    ensures IsChain(Joined(mem, a, b), a + b)
    ensures BytesOf(Joined(mem, a, b), a + b) == BytesOf(mem, a) + BytesOf(mem, b)
  {
    var now := Joined(mem, a, b);
    InMemory(mem, a);
    InMemory(mem, b);
    var c := a + b;
    forall i, j | 0 <= i < j < |c| ensures c[i] != c[j] {
      if i < |a| && j >= |a| { assert c[i] in a && c[j] in b; }
    }
    forall i | 0 <= i < |c| ensures LinkOk(now, c, i) {
      if i < |a| {
        assert LinkOk(mem, a, i) && c[i] == a[i];
        if i == |a| - 1 { assert At(c, i + 1) == At(b, 0); }
      } else {
        assert LinkOk(mem, b, i - |a|) && c[i] in b;
      }
    }
    BytesSameUsed(mem, now, a);
    BytesSameUsed(mem, now, b);
    BytesConcat(now, a, b);
  }

  // ---- positions in a chain ----

  // The first place of a byte, or -1.
  function IndexIn(s: Bytes, b: Byte): (i: int)
    ensures -1 <= i < |s|
    ensures if i >= 0 then s[i] == b && b !in s[..i] else b !in s
  {
    if s == [] then -1
    else if s[0] == b then 0
    else
      var k := IndexIn(s[1..], b);
      assert s == [s[0]] + s[1..];
      assert k >= 0 ==> s[..k + 1] == [s[0]] + s[1..][..k];
      if k < 0 then -1 else k + 1
  }

  lemma {:induction false} IndexInConcat(a: Bytes, t: Bytes, b: Byte)
    ensures IndexIn(a + t, b) ==
            if IndexIn(a, b) >= 0 then IndexIn(a, b)
            else if IndexIn(t, b) >= 0 then |a| + IndexIn(t, b) else -1
  {
    if a == [] {
      assert a + t == t;
    } else {
      assert (a + t)[1..] == a[1..] + t;
      IndexInConcat(a[1..], t, b);
    }
  }

  // Other fragments stay; what joined the chain is new or was in it, and what left it is released.
  ghost predicate Kept(was: Memory, now: Memory, chain: seq<Ptr>, chain': seq<Ptr>)
  {
    && (forall p :: p in was && p !in chain ==> p in now && now[p] == was[p])
    && (forall p :: p in chain' ==> p in now && (p in chain || p !in was))
    && forall p :: p in now ==> p in chain' || (p in was && p !in chain)
  }

  lemma KeptThen(a: Memory, b: Memory, c: Memory, x: seq<Ptr>, y: seq<Ptr>, z: seq<Ptr>)
    requires Kept(a, b, x, y) && Kept(b, c, y, z)
    ensures Kept(a, c, x, z)
  {
  }

  lemma Onwards(was: Bytes, bytes: Bytes, at: nat, n: nat)
    requires at + n <= |bytes|
    ensures (was + bytes[..at]) + bytes[at..][..n] == was + bytes[..at + n]
  {
  }

  lemma Shifted(data: Bytes, rest: Bytes, n: nat)
    requires n <= |rest|
    ensures data + rest == (data + rest[..n]) + rest[n..]
  {
  }

  // A chain without a first fragment is empty.
  lemma NullIsEmpty(mem: Memory, chain: seq<Ptr>)
    requires IsChain(mem, chain)
    ensures At(chain, 0) == NULL <==> chain == []
    ensures Last(chain) == NULL <==> chain == []
    ensures chain != [] ==> chain[0] in chain && Last(chain) in chain
  {
  }

  // The memory that fragments are allocated from.
  class Store {
    var mem: Memory
    var next: nat

    constructor ()
      ensures Valid() && mem == map[]
    {
      mem, next := map[], 1;
    }

    ghost predicate Valid()
      reads this
    {
      next > 0 && forall p :: p in mem ==> 0 < p < next
    }

    // new_native_fragment, not yet linked
    method NewNativeFragment() returns (p: Ptr, native: Fragment)
      requires Valid()
      modifies this`next
      ensures 0 < p < next && p !in mem && old(next) == p && Valid()
      ensures native == Fragment(NULL, 0, 0, native.data) && |native.data| == DATA_SIZE
    {
      p := next;
      next := next + 1;
      native := Fragment(NULL, 0, 0, seq(DATA_SIZE, _ => 0));
    }
  }

  class Buffer {
    const store: Store
    var size: nat
    var first: Ptr
    var last: Ptr
    ghost var chain: seq<Ptr>

    // All but the size, which some operations settle last.
    ghost predicate Linked()
      reads this, store
    {
      store.Valid() && IsChain(store.mem, chain) && first == At(chain, 0) && last == Last(chain)
    }

    ghost predicate Valid()
      reads this, store
    {
      Linked() && size == |Contents()|
    }

    ghost function Contents(): Bytes
      reads this, store
    {
      BytesOf(store.mem, chain)
    }

    // protobuf_c_data_buffer_init
    constructor (store: Store)
      requires store.Valid()
      ensures Valid() && Contents() == [] && this.store == store && chain == []
    {
      this.store := store;
      size, first, last, chain := 0, NULL, NULL, [];
    }

    // protobuf_c_data_buffer_append
    method Append(bytes: Bytes)
      requires Valid()
      modifies this, store
      ensures Valid() && Contents() == old(Contents()) + bytes
      ensures Kept(old(store.mem), store.mem, old(chain), chain)
    {
      size := size + |bytes|;
      AppendBytes(bytes);
    }

    // The loop of the append: a fresh fragment behind a full one first gets no bytes at all.
    method AppendBytes(bytes: Bytes)
      requires Linked()
      modifies this`first, this`last, this`chain, store
      ensures Linked() && Contents() == old(Contents()) + bytes
      ensures Kept(old(store.mem), store.mem, old(chain), chain)
    {
      var at := 0;
      ghost var was, mem0, chain0 := Contents(), store.mem, chain;
      InMemory(store.mem, chain);
      while at < |bytes|
        invariant at <= |bytes| && Linked() && Contents() == was + bytes[..at]
        invariant Kept(mem0, store.mem, chain0, chain)
        decreases |bytes| - at, if Full() then 1 else 0
      {
        ghost var before, mid := store.mem, chain;
        var n := AppendOnce(bytes[at..]);
        KeptThen(mem0, before, store.mem, chain0, mid, chain);
        Onwards(was, bytes, at, n);
        at := at + n;
      }
      assert bytes[..at] == bytes;
    }

    ghost predicate Full()
      reads this, store
    {
      last in store.mem && Avail(store.mem[last]) == 0
    }

    // One turn of the loop: as much as fits, or nothing and a fresh fragment.
    method AppendOnce(bytes: Bytes) returns (n: nat)
      requires Linked() && bytes != []
      modifies this`first, this`last, this`chain, store
      ensures Linked() && n <= |bytes| && Contents() == old(Contents()) + bytes[..n]
      ensures Kept(old(store.mem), store.mem, old(chain), chain)
      ensures n > 0 || (old(Full()) && !Full())
    {
      ghost var mem0, chain0 := store.mem, chain;
      var avail := EnsureFragment();
      ghost var mid, chain1 := store.mem, chain;
      n := if avail > |bytes| then |bytes| else avail;
      FillLast(bytes[..n]);
      KeptThen(mem0, mid, store.mem, chain0, chain1, chain);
    }

    // A last fragment to write to, and the space that the loop will use of it.
    method EnsureFragment() returns (avail: nat)
      requires Linked()
      modifies this`first, this`last, this`chain, store
      ensures Linked() && chain != [] && Contents() == old(Contents())
      ensures Kept(old(store.mem), store.mem, old(chain), chain)
      ensures last in store.mem && avail <= Avail(store.mem[last])
      ensures old(last) == NULL ==> avail > 0
      ensures old(last) != NULL ==> old(last in store.mem) && avail == old(Avail(store.mem[last]))
      ensures old(last) != NULL && avail == 0 ==> Avail(store.mem[last]) > 0
    {
      InMemory(store.mem, chain);
      avail := 0;
      if last != NULL {
        ChainBack(store.mem, chain);
        avail := Avail(store.mem[last]);
      }
      if last == NULL || avail == 0 {
        var p, native := store.NewNativeFragment();
        ChainGrows(store.mem, chain, p, native);
        if last == NULL {
          store.mem := store.mem[p := native];
          first := p;
          avail := Avail(native);
        } else {
          store.mem := store.mem[p := native][last := store.mem[last].(next := p)];
        }
        last := p;
        chain := chain + [p];
      }
    }

    method FillLast(bytes: Bytes)
      requires Linked() && chain != [] && last in store.mem && |bytes| <= Avail(store.mem[last])
      modifies store
      ensures Linked() && Contents() == old(Contents()) + bytes
      ensures Kept(old(store.mem), store.mem, old(chain), chain)
      ensures last in store.mem && Avail(store.mem[last]) == old(Avail(store.mem[last])) - |bytes|
    {
      InMemory(store.mem, chain);
      LastFilled(store.mem, chain, bytes);
      store.mem := store.mem[last := Filled(store.mem[last], bytes)];
    }

    // The first fragment leaves the chain and is released.
    method RecycleFirst()
      requires Linked() && chain != []
      modifies this`first, this`last, this`chain, store`mem
      ensures Linked() && chain == old(chain)[1..] && old(first in store.mem) && old(FragmentOk(store.mem[first]))
      ensures old(Contents()) == old(Used(store.mem[first])) + Contents()
      ensures Kept(old(store.mem), store.mem, old(chain), chain)
    {
      InMemory(store.mem, chain);
      ChainFront(store.mem, chain);
      FirstReleased(store.mem, chain);
      var p := first;
      first := store.mem[first].next;
      if first == NULL {
        last := NULL;
      }
      chain := chain[1..];
      store.mem := store.mem - {p};
    }

    // Bytes are cut off the front of the first fragment.
    method CutFirst(n: nat)
      requires Linked() && chain != [] && first in store.mem && n <= store.mem[first].bufLength
      modifies store`mem
      ensures Linked() && n <= |old(Contents())| && Contents() == old(Contents())[n..]
      ensures Kept(old(store.mem), store.mem, old(chain), chain)
    {
      InMemory(store.mem, chain);
      FirstCut(store.mem, chain, n);
      ChainFront(store.mem, chain);
      store.mem := store.mem[first := Cut(store.mem[first], n)];
    }

    // One turn of the loops that take bytes away: a whole fragment if it is not too much, or a part of it.
    method DropPiece(max: nat) returns (n: nat)
      requires Linked() && max > 0 && chain != []
      modifies this`first, this`last, this`chain, store`mem
      ensures Whole(Linked()) && n <= max && n <= |old(Contents())| && Contents() == old(Contents())[n..]
      ensures old(first in store.mem)
      ensures var length := old(store.mem[first].bufLength); n == if length <= max then length else max
      ensures n < max ==> |chain| < |old(chain)|
      ensures |chain| <= |old(chain)|
      ensures Whole(Kept(old(store.mem), store.mem, old(chain), chain))
    {
      InMemory(store.mem, chain);
      NullIsEmpty(store.mem, chain);
      var f := store.mem[first];
      if f.bufLength <= max {
        RecycleFirst();
        n := f.bufLength;
      } else {
        CutFirst(max);
        n := max;
      }
    }

    // What the next turn takes away.
    method FirstPiece(max: nat) returns (piece: Bytes)
      requires Linked() && chain != []
      ensures |piece| <= |Contents()| && piece == Contents()[..|piece|]
      ensures first in store.mem
      ensures var length := store.mem[first].bufLength; |piece| == if length <= max then length else max
    {
      InMemory(store.mem, chain);
      NullIsEmpty(store.mem, chain);
      ChainFront(store.mem, chain);
      var f := store.mem[first];
      piece := if f.bufLength <= max then Used(f) else Used(f)[..max];
    }

    // protobuf_c_data_buffer_read
    method Read(maxLength0: nat) returns (data: Bytes)
      requires Valid()
      modifies this, store`mem
      ensures Valid() && old(Contents()) == data + Contents()
      ensures |data| == if maxLength0 <= |old(Contents())| then maxLength0 else |old(Contents())|
      ensures Kept(old(store.mem), store.mem, old(chain), chain)
    {
      data := [];
      var maxLength: nat := maxLength0;
      ghost var was, mem0, chain0 := Contents(), store.mem, chain;
      InMemory(store.mem, chain);
      NullIsEmpty(store.mem, chain);
      while maxLength > 0 && first != NULL
        invariant Linked() && was == data + Contents() && size == |was|
        invariant maxLength + |data| == maxLength0 && (first == NULL <==> chain == [])
        invariant Kept(mem0, store.mem, chain0, chain)
        decreases maxLength, |chain|
      {
        ghost var before, mid, rest := store.mem, chain, Contents();
        var piece := FirstPiece(maxLength);
        var n := DropPiece(maxLength);
        KeptThen(mem0, before, store.mem, chain0, mid, chain);
        NullIsEmpty(store.mem, chain);
        Shifted(data, rest, n);
        data := data + piece;
        maxLength := maxLength - n;
      }
      size := size - |data|;
      assert |data| == maxLength0 || size == 0;
    }

    // protobuf_c_data_buffer_discard
    method Discard(maxDiscard: nat) returns (rv: nat)
      requires Valid()
      modifies this, store`mem
      ensures Valid() && rv == (if maxDiscard <= |old(Contents())| then maxDiscard else |old(Contents())|)
      ensures Contents() == old(Contents())[rv..]
      ensures Kept(old(store.mem), store.mem, old(chain), chain)
    {
      rv := 0;
      var max: nat := maxDiscard;
      ghost var was, mem0, chain0 := Contents(), store.mem, chain;
      InMemory(store.mem, chain);
      NullIsEmpty(store.mem, chain);
      while max > 0 && first != NULL
        invariant Whole(Linked()) && rv <= |was| && Contents() == was[rv..] && size == |was|
        invariant max + rv == maxDiscard && (first == NULL <==> chain == [])
        invariant Whole(Kept(mem0, store.mem, chain0, chain))
        decreases max, |chain|
      {
        ghost var before, mid := store.mem, chain;
        var n := DropPiece(max);
        KeptThen(mem0, before, store.mem, chain0, mid, chain);
        NullIsEmpty(store.mem, chain);
        assert was[rv..][n..] == was[rv + n..];
        rv := rv + n;
        max := max - n;
      }
      size := size - rv;
    }

    // protobuf_c_data_buffer_reset: every fragment is released
    method Reset()
      requires Valid()
      modifies this, store`mem
      ensures Valid() && Contents() == [] && chain == [] && Kept(old(store.mem), store.mem, old(chain), [])
    {
      ghost var mem0, chain0 := store.mem, chain;
      InMemory(store.mem, chain);
      NullIsEmpty(store.mem, chain);
      while first != NULL
        invariant Linked() && (first == NULL <==> chain == []) && Kept(mem0, store.mem, chain0, chain)
        decreases |chain|
      {
        ghost var before, mid := store.mem, chain;
        RecycleFirst();
        KeptThen(mem0, before, store.mem, chain0, mid, chain);
        NullIsEmpty(store.mem, chain);
      }
      last := NULL;
      size := 0;
    }

    // protobuf_c_data_buffer_peek
    method Peek(maxLength0: nat) returns (data: Bytes)
      requires Valid()
      ensures data == Contents()[..if maxLength0 <= |Contents()| then maxLength0 else |Contents()|]
    {
      data := [];
      var maxLength: nat := maxLength0;
      var frag := first;
      ghost var i, rest := 0, Contents();
      assert chain[0..] == chain;
      while maxLength > 0 && frag != NULL
        invariant maxLength + |data| == maxLength0 && Contents() == data + rest
        invariant maxLength > 0 ==> 0 <= i <= |chain| && FromHere(i, frag, rest)
        decreases maxLength, |chain| - i
      {
        NullIsEmpty(store.mem, chain[i..]);
        ChainFront(store.mem, chain[i..]);
        assert chain[i..][1..] == chain[i + 1..];
        var f := store.mem[frag];
        ghost var n := if f.bufLength <= maxLength then f.bufLength else maxLength;
        assert rest[..n] == Used(f)[..n];
        Shifted(data, rest, n);
        rest := rest[n..];
        if f.bufLength <= maxLength {
          assert Used(f)[..n] == Used(f);
          data := data + Used(f);
          maxLength := maxLength - f.bufLength;
          frag := f.next;
          i := i + 1;
        } else {
          data := data + Used(f)[..maxLength];
          maxLength := 0;
        }
      }
      if maxLength > 0 { NullIsEmpty(store.mem, chain[i..]); }
    }

    // The chain from its i-th fragment on.
    ghost predicate FromHere(i: nat, frag: Ptr, rest: Bytes)
      reads this, store
    {
      && i <= |chain| && frag == At(chain[i..], 0) && IsChain(store.mem, chain[i..])
      && rest == BytesOf(store.mem, chain[i..])
    }

    // protobuf_c_data_buffer_index_of
    method IndexOf(b: Byte) returns (rv: int)
      requires Valid()
      ensures rv == IndexIn(Contents(), b)
    {
      var at := first;
      var before := 0;
      ghost var rest := chain;
      while at != NULL
        invariant at == At(rest, 0) && IsChain(store.mem, rest)
        invariant before + |BytesOf(store.mem, rest)| == |Contents()|
        invariant var k := IndexIn(BytesOf(store.mem, rest), b);
                  IndexIn(Contents(), b) == if k < 0 then -1 else before + k
        decreases |rest|
      {
        ChainFront(store.mem, rest);
        var f := store.mem[at];
        rest := rest[1..];
        IndexInConcat(Used(f), BytesOf(store.mem, rest), b);
        var k := IndexIn(Used(f), b);
        if k >= 0 {
          return before + k;
        }
        before := before + f.bufLength;
        at := f.next;
      }
      rv := -1;
    }

    // protobuf_c_data_buffer_read_line: the bytes before the first newline, which is taken out of the buffer too
    method ReadLine() returns (line: Option<Bytes>)
      requires Valid()
      modifies this, store`mem
      ensures Valid() && Kept(old(store.mem), store.mem, old(chain), chain)
      ensures line.None? <==> 10 !in old(Contents())
      ensures line.None? ==> Contents() == old(Contents())
      ensures line.Some? ==> 10 !in line.value && old(Contents()) == line.value + [10] + Contents()
    {
      var len := IndexOf(10);
      InMemory(store.mem, chain);
      if len < 0 {
        return None;
      }
      ghost var was := Contents();
      var rv := Read(len + 1);
      assert rv == was[..len + 1] && was[len] == 10;
      line := Some(rv[..len]);
      assert rv == rv[..len] + [10];
      assert rv[..len] == was[..len];
    }

    // protobuf_c_data_buffer_drain
    method Drain(src: Buffer) returns (rv: nat)
      requires Valid() && src.Valid() && src != this && src.store == store && forall p :: p in chain ==> p !in src.chain
      modifies this, src, store`mem
      ensures Valid() && src.Valid() && rv == |old(src.Contents())|
      ensures Contents() == old(Contents()) + old(src.Contents()) && src.Contents() == [] && src.chain == []
      ensures Kept(old(store.mem), store.mem, old(chain) + old(src.chain), chain)
    {
      rv := src.size;
      InMemory(store.mem, chain);
      InMemory(store.mem, src.chain);
      assert src.chain == [] ==> chain + src.chain == chain;
      if src.first == NULL {
        return;
      }
      size := size + src.size;
      ChainsJoin(store.mem, chain, src.chain);
      if last != NULL {
        store.mem := store.mem[last := store.mem[last].(next := src.first)];
      } else {
        first := src.first;
      }
      last := src.last;
      chain := chain + src.chain;
      src.size, src.first, src.last, src.chain := 0, NULL, NULL, [];
    }

    // The first fragment leaves the chain but stays allocated.
    method DetachFirst() returns (frag: Ptr)
      requires Linked() && chain != []
      modifies this`first, this`last, this`chain, store`mem
      ensures Linked() && chain == old(chain)[1..] && frag == old(chain)[0] && frag in store.mem
        && frag in old(store.mem)
      ensures FragmentOk(store.mem[frag]) && store.mem[frag] == old(store.mem)[frag].(next := NULL)
      ensures old(Contents()) == Used(store.mem[frag]) + Contents()
      ensures store.mem == old(store.mem)[frag := store.mem[frag]]
    {
      InMemory(store.mem, chain);
      NullIsEmpty(store.mem, chain);
      ChainFront(store.mem, chain);
      frag := first;
      first := store.mem[frag].next;
      chain := chain[1..];
      ghost var mid := store.mem;
      store.mem := store.mem[frag := store.mem[frag].(next := NULL)];
      if first == NULL {
        last := NULL;
      }
      InMemory(mid, chain);
      NullIsEmpty(mid, chain);
      ChainSame(mid, store.mem, chain);
    }

    // A fragment of no chain is put behind the last one.
    method AttachLast(frag: Ptr)
      requires Linked() && frag != NULL && frag !in chain
      requires frag in store.mem && FragmentOk(store.mem[frag]) && store.mem[frag].next == NULL
      modifies this`first, this`last, this`chain, store`mem
      ensures Linked() && chain == old(chain) + [frag] && Contents() == old(Contents()) + old(Used(store.mem[frag]))
      ensures store.mem.Keys == old(store.mem.Keys)
      ensures forall p :: p in store.mem && p !in old(chain) ==> store.mem[p] == old(store.mem)[p]
    {
      InMemory(store.mem, chain);
      NullIsEmpty(store.mem, chain);
      OneFragment(store.mem, frag);
      ChainsJoin(store.mem, chain, [frag]);
      if last != NULL {
        store.mem := store.mem[last := store.mem[last].(next := frag)];
      } else {
        first := frag;
      }
      last := frag;
      chain := chain + [frag];
    }

    // A fragment of src moves over as it is.
    method TakeFragment(src: Buffer) returns (n: nat)
      requires Linked() && src.Linked() && src != this && src.store == store && src.chain != []
      requires Disjoint(chain, src.chain)
      modifies this`first, this`last, this`chain, src`first, src`last, src`chain, store`mem
      ensures Linked() && src.Linked() && Disjoint(chain, src.chain)
      ensures n <= |old(src.Contents())| && src.chain == old(src.chain)[1..]
      ensures old(src.first in store.mem && FragmentOk(store.mem[src.first]))
        && n == old(store.mem[src.first].bufLength)
      ensures Contents() == old(Contents()) + old(src.Contents())[..n] && src.Contents() == old(src.Contents())[n..]
      ensures KeptBoth(old(store.mem), store.mem, old(chain), old(src.chain), chain, src.chain)
    {
      ghost var mem0 := store.mem;
      NullIsEmpty(store.mem, src.chain);
      InMemory(store.mem, src.chain);
      InMemory(store.mem, chain);
      ChainFront(store.mem, src.chain);
      n := store.mem[src.first].bufLength;
      var frag := src.DetachFirst();
      ChainSame(mem0, store.mem, chain);
      ghost var mid := store.mem;
      InMemory(mid, src.chain);
      AttachLast(frag);
      ChainSame(mid, store.mem, src.chain);
      assert chain == old(chain) + [old(src.chain)[0]];
    }

    // protobuf_c_data_buffer_transfer
    method Transfer(src: Buffer, maxTransfer: nat) returns (rv: nat)
      requires Valid() && src.Valid() && src != this && src.store == store && Disjoint(chain, src.chain)
      modifies this, src, store
      ensures Valid() && src.Valid() && Disjoint(chain, src.chain)
      ensures rv == if maxTransfer <= |old(src.Contents())| then maxTransfer else |old(src.Contents())|
      ensures Contents() == old(Contents()) + old(src.Contents())[..rv] && src.Contents() == old(src.Contents())[rv..]
      ensures KeptBoth(old(store.mem), store.mem, old(chain), old(src.chain), chain, src.chain)
    {
      ghost var mine, theirs, mem0, chain0, chain1 := Contents(), src.Contents(), store.mem, chain, src.chain;
      rv := TransferWhole(src, maxTransfer);
      size := size + rv;
      var rest := maxTransfer - rv;
      if src.first != NULL && rest > 0 {
        ghost var mem1, chain2, chain3 := store.mem, chain, src.chain;
        TransferPart(src, rest);
        KeptBothThen(mem0, mem1, store.mem, chain0, chain1, chain2, chain3, chain, src.chain);
        Halves(mine, theirs, rv, rest, rv + rest);
        rv := rv + rest;
      }
      src.size := src.size - rv;
    }

    // Whole fragments move as long as they fit.
    method TransferWhole(src: Buffer, maxTransfer: nat) returns (rv: nat)
      requires Linked() && src.Linked() && src != this && src.store == store && Disjoint(chain, src.chain)
      modifies this`first, this`last, this`chain, src`first, src`last, src`chain, store`mem
      ensures Linked() && src.Linked() && Disjoint(chain, src.chain) && rv <= maxTransfer && rv <= |old(src.Contents())|
      ensures Contents() == old(Contents()) + old(src.Contents())[..rv] && src.Contents() == old(src.Contents())[rv..]
      ensures if src.first == NULL then rv == |old(src.Contents())| else
                src.chain != [] && src.first in store.mem && FragmentOk(store.mem[src.first])
                && maxTransfer - rv < store.mem[src.first].bufLength
      ensures KeptBoth(old(store.mem), store.mem, old(chain), old(src.chain), chain, src.chain)
    {
      ghost var mine, theirs, mem0, chain0, chain1 := Contents(), src.Contents(), store.mem, chain, src.chain;
      rv := 0;
      InMemory(store.mem, chain);
      InMemory(store.mem, src.chain);
      NullIsEmpty(store.mem, src.chain);
      while src.first != NULL && maxTransfer - rv >= store.mem[src.first].bufLength
        invariant rv <= maxTransfer && Transferring(src, rv, mine, theirs, mem0, chain0, chain1)
        decreases |src.chain|
      {
        rv := TransferNext(src, rv, maxTransfer, mine, theirs, mem0, chain0, chain1);
      }
      if src.first == NULL { NullIsEmpty(store.mem, src.chain); }
    }

    // The first rv bytes of src have moved over.
    ghost predicate Transferring(src: Buffer, rv: nat, mine: Bytes, theirs: Bytes, mem0: Memory, chain0: seq<Ptr>,
                                 chain1: seq<Ptr>)
      reads this, store, src, src.store
    {
      && Linked() && src.Linked() && Disjoint(chain, src.chain) && rv <= |theirs|
      && (src.first == NULL <==> src.chain == [])
      && (src.first != NULL ==> src.first in store.mem && FragmentOk(store.mem[src.first]))
      && Contents() == mine + theirs[..rv] && src.Contents() == theirs[rv..]
      && KeptBoth(mem0, store.mem, chain0, chain1, chain, src.chain)
    }

    method TransferNext(src: Buffer, rv0: nat, ghost max: nat, ghost mine: Bytes, ghost theirs: Bytes,
                        ghost mem0: Memory,
                        ghost chain0: seq<Ptr>, ghost chain1: seq<Ptr>) returns (rv: nat)
      requires src != this && src.store == store && Transferring(src, rv0, mine, theirs, mem0, chain0, chain1)
      requires src.first != NULL && rv0 <= max && max - rv0 >= store.mem[src.first].bufLength
      modifies this`first, this`last, this`chain, src`first, src`last, src`chain, store`mem
      ensures Transferring(src, rv, mine, theirs, mem0, chain0, chain1) && rv <= max && |src.chain| < |old(src.chain)|
    {
      ghost var mem1, chain2, chain3 := store.mem, chain, src.chain;
      var n := TakeFragment(src);
      KeptBothThen(mem0, mem1, store.mem, chain0, chain1, chain2, chain3, chain, src.chain);
      rv := rv0 + n;
      Halves(mine, theirs, rv0, n, rv);
      InMemory(store.mem, src.chain);
      NullIsEmpty(store.mem, src.chain);
    }

    // A part of the first fragment is copied over and cut off.
    method TransferPart(src: Buffer, n: nat)
      requires Linked() && src.Linked() && src != this && src.store == store && Disjoint(chain, src.chain)
      requires size == |Contents()| && src.chain != [] && src.first in store.mem && FragmentOk(store.mem[src.first])
      requires n < store.mem[src.first].bufLength
      modifies this, store
      ensures Valid() && src.Linked() && Disjoint(chain, src.chain) && n <= |old(src.Contents())|
      ensures Contents() == old(Contents()) + old(src.Contents())[..n] && src.Contents() == old(src.Contents())[n..]
      ensures KeptBoth(old(store.mem), store.mem, old(chain), src.chain, chain, src.chain)
    {
      ghost var mem0 := store.mem;
      InMemory(store.mem, chain);
      InMemory(store.mem, src.chain);
      ChainFront(store.mem, src.chain);
      var frag := store.mem[src.first];
      Append(Used(frag)[..n]);
      ChainSame(mem0, store.mem, src.chain);
      ghost var mid := store.mem;
      InMemory(mid, chain);
      src.CutFirst(n);
      ChainSame(mid, store.mem, chain);
    }
  }

  ghost predicate Disjoint(a: seq<Ptr>, b: seq<Ptr>)
  {
    forall p :: p in a ==> p !in b
  }

  // Kept, for two chains in the same memory.
  ghost predicate KeptBoth(was: Memory, now: Memory, a: seq<Ptr>, b: seq<Ptr>, a': seq<Ptr>, b': seq<Ptr>)
  {
    && (forall p :: p in was && p !in a && p !in b ==> p in now && now[p] == was[p])
    && (forall p :: p in a' || p in b' ==> p in now && (p in a || p in b || p !in was))
    && forall p :: p in now ==> p in a' || p in b' || (p in was && p !in a && p !in b)
  }

  lemma KeptBothThen(x: Memory, y: Memory, z: Memory, a: seq<Ptr>, b: seq<Ptr>, c: seq<Ptr>, d: seq<Ptr>,
                     e: seq<Ptr>, f: seq<Ptr>)
    requires KeptBoth(x, y, a, b, c, d) && KeptBoth(y, z, c, d, e, f)
    ensures KeptBoth(x, z, a, b, e, f)
  {
  }

  lemma Halves(mine: Bytes, theirs: Bytes, i: nat, n: nat, k: nat)
    requires k == i + n <= |theirs|
    ensures (mine + theirs[..i]) + theirs[i..][..n] == mine + theirs[..k] && theirs[i..][n..] == theirs[k..]
  {
  }

  lemma OneFragment(mem: Memory, p: Ptr)
    requires p != NULL && p in mem && FragmentOk(mem[p]) && mem[p].next == NULL
    ensures IsChain(mem, [p]) && BytesOf(mem, [p]) == Used(mem[p])
  {
    assert LinkOk(mem, [p], 0);
    assert [p][1..] == [];
  }
}
