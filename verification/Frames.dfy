/** The frames that clients and servers of protobuf-c-rpc.c exchange, and how a byte stream falls into them. */
module Frames {
  import opened Base128
  import opened Basics
  import opened Wire
  import opened Decoder
  import opened Framing
  import opened RoundTrip
  import opened Unwrapping

  // A method of a service, by the descriptors of its messages.
  datatype Method = Method(input: nat, output: nat)

  datatype Request = Request(index: nat, id: nat, payload: Bytes)

  datatype Response = Response(status: nat, index: nat, id: nat, payload: Bytes)

  predicate ServiceOk(S: Schema, methods: seq<Method>)
  {
    forall i :: 0 <= i < |methods| ==> methods[i].input < |S| && methods[i].output < |S|
  }

  // A 32-bit number, low byte first.
  function Le32(v: nat): Bytes { Fixed(v, 4) }

  function RequestBytes(r: Request): Bytes
  {
    Le32(r.index) + Le32(|r.payload|) + Le32(r.id) + r.payload
  }

  function ResponseBytes(r: Response): Bytes
  {
    Le32(r.status) + Le32(r.index) + Le32(|r.payload|) + Le32(r.id) + r.payload
  }

  // The i-th number of a header.
  function HeaderWord(data: Bytes, i: nat): nat
    requires 4 * i + 4 <= |data|
  {
    FixedVal(data[4 * i..4 * i + 4])
  }

  // A header that is read out of the data in hand has the words of its front.
  lemma HeaderIsFront(data: Bytes, header: Bytes, words: nat)
    requires |data| >= 4 * words && header == data[..4 * words]
    ensures forall i :: 0 <= i < words ==> HeaderWord(header, i) == HeaderWord(data, i)
  {
    forall i | 0 <= i < words ensures header[4 * i..4 * i + 4] == data[4 * i..4 * i + 4] {}
  }

  lemma Le32Back(v: nat)
    ensures |Le32(v)| == 4 && (v < TWO_32 ==> FixedVal(Le32(v)) == v)
  {
    FixedRoundTrip(v, 4);
    assert Pow256(4) == TWO_32;
  }

  // The four bytes of a number, and what they read back as.
  lemma Le32Reads(v: nat)
    ensures Le32(v) == [v % 256, v / 0x100 % 256, v / 0x1_0000 % 256, v / 0x100_0000 % 256]
    ensures FixedVal(Le32(v)) == v % TWO_32
  {
    FixedReads32(v);
    FixedBytes32(v);
  }

  // ---- requests in a stream ----

  // The first request of a stream, if it is all there.
  function FirstRequest(data: Bytes): (r: Option<Request>)
    ensures r.Some? ==> 12 + |r.value.payload| <= |data|
  {
    if |data| < 12 then None
    else
      var length := HeaderWord(data, 1);
      if |data| < 12 + length then None
      else Some(Request(HeaderWord(data, 0), HeaderWord(data, 2), data[12..12 + length]))
  }

  // The requests of a stream, the bytes after them, and whether the stream ends in a request that is refused.
  datatype Parsed = Parsed(requests: seq<Request>, rest: Bytes, bad: bool)

  function ParseRequests(accepts: Request -> bool, data: Bytes): Parsed
    decreases |data|
  {
    match FirstRequest(data)
    case None => Parsed([], data, false)
    case Some(r) =>
      if !accepts(r) then Parsed([], data, true)
      else
        var p := ParseRequests(accepts, data[12 + |r.payload|..]);
        p.(requests := [r] + p.requests)
  }

  lemma WordExtends(data: Bytes, more: Bytes, i: nat)
    requires 4 * i + 4 <= |data|
    ensures HeaderWord(data + more, i) == HeaderWord(data, i)
  {
    SliceOfFront(data, more, 4 * i, 4 * i + 4);
  }

  // The words of a header, and what follows it.
  lemma ThreeWords(a: Bytes, b: Bytes, c: Bytes, rest: Bytes)
    requires |a| == |b| == |c| == 4
    ensures var s := (a + b + c) + rest;
            |s| == 12 + |rest| && s[0..4] == a && s[4..8] == b && s[8..12] == c && s[12..] == rest
  {
  }

  lemma FourWords(a: Bytes, b: Bytes, c: Bytes, d: Bytes, rest: Bytes)
    requires |a| == |b| == |c| == |d| == 4
    ensures var s := (a + b + c + d) + rest;
            && |s| == 16 + |rest| && s[0..4] == a && s[4..8] == b && s[8..12] == c && s[12..16] == d
            && s[16..] == rest
  {
  }

  lemma FirstExtends(data: Bytes, more: Bytes)
    requires FirstRequest(data).Some?
    ensures FirstRequest(data + more) == FirstRequest(data)
  {
    WordExtends(data, more, 0);
    WordExtends(data, more, 1);
    WordExtends(data, more, 2);
    SliceOfFront(data, more, 12, 12 + HeaderWord(data, 1));
  }

  // q is what p becomes when parsing goes on with z: a refused request stays refused.
  predicate Continued(p: Parsed, q: Parsed, z: Parsed)
  {
    if p.bad then q.bad && q.requests == p.requests
    else q == Parsed(p.requests + z.requests, z.rest, z.bad)
  }

  lemma ContinuedBehind(r: Request, p: Parsed, q: Parsed, z: Parsed)
    requires Continued(p, q, z)
    ensures Continued(p.(requests := [r] + p.requests), q.(requests := [r] + q.requests), z)
  {
    assert [r] + (p.requests + z.requests) == ([r] + p.requests) + z.requests;
  }

  lemma ParseFirst(accepts: Request -> bool, data: Bytes, r: Request)
    requires FirstRequest(data) == Some(r) && accepts(r)
    ensures var p := ParseRequests(accepts, data[12 + |r.payload|..]);
            ParseRequests(accepts, data) == p.(requests := [r] + p.requests)
  {
  }

  // More bytes never change what has been parsed; they continue where it stopped.
  lemma {:induction false} ParseContinues(accepts: Request -> bool, data: Bytes, more: Bytes)
    ensures var p := ParseRequests(accepts, data);
            Continued(p, ParseRequests(accepts, data + more), ParseRequests(accepts, p.rest + more))
    decreases |data|
  {
    var first := FirstRequest(data);
    if first.None? {
      var q := ParseRequests(accepts, data + more);
      assert [] + q.requests == q.requests;
    } else {
      FirstExtends(data, more);
      var r := first.value;
      if accepts(r) {
        var n := 12 + |r.payload|;
        RestOfFront(data, more, n);
        ParseFirst(accepts, data, r);
        ParseFirst(accepts, data + more, r);
        ParseContinues(accepts, data[n..], more);
        var p := ParseRequests(accepts, data[n..]);
        ContinuedBehind(r, p, ParseRequests(accepts, data[n..] + more), ParseRequests(accepts, p.rest + more));
      }
    }
  }

  // ---- 32-bit sums ----

  // The test by which both sides decide that a frame is all there: the sum of the header's size and the announced
  // length is taken in 32 bits.
  predicate Ready(header: nat, size: nat, length: nat)
  {
    !(size < (header + length) % TWO_32)
  }

  // The test is right whatever has arrived exactly when the sum does not wrap around.
  lemma ReadyIsRightIff(header: nat, length: nat)
    requires 0 < header < TWO_32 && length < TWO_32
    ensures (forall size :: header <= size ==> (Ready(header, size, length) <==> header + length <= size)) <==>
            header + length < TWO_32
  {
    if header + length >= TWO_32 {
      assert (header + length) % TWO_32 == header + length - TWO_32;
      assert Ready(header, header, length) && !(header + length <= header);
    }
  }

  lemma ReadyMeans(header: nat, size: nat, length: nat)
    requires header + length < TWO_32
    ensures Ready(header, size, length) <==> header + length <= size
  {
  }

  // What is read of the first request once the test has let it pass.
  function Taken(inHand: Bytes): Bytes
    requires |inHand| >= 12
  {
    var length := HeaderWord(inHand, 1);
    if length <= |inHand| - 12 then inHand[12..12 + length] else inHand[12..]
  }

  // A header that announces 0xffffffff bytes passes the test as soon as it is there, and what is read then
  // depends on how many bytes came with it.
  lemma SegmentationMatters(b: Byte)
    ensures var header := Le32(0) + Le32(0xffff_ffff) + Le32(0);
            && |header| == 12 && HeaderWord(header, 1) == HeaderWord(header + [b], 1) == 0xffff_ffff
            && Ready(12, 12, 0xffff_ffff) && Ready(12, 13, 0xffff_ffff)
            && Taken(header) == [] && Taken(header + [b]) == [b]
  {
    Le32Back(0);
    Le32Back(0xffff_ffff);
    ThreeWords(Le32(0), Le32(0xffff_ffff), Le32(0), []);
    ThreeWords(Le32(0), Le32(0xffff_ffff), Le32(0), [b]);
    var header := Le32(0) + Le32(0xffff_ffff) + Le32(0);
    assert header + [] == header;
  }

  // No header that the server comes to announces a length whose sum wraps around, and no length wraps around in
  // the messages that it comes to.
  predicate Fits(accepts: Request -> bool, clear: Request -> bool, data: Bytes)
    decreases |data|
  {
    |data| >= 12 ==>
      && 12 + HeaderWord(data, 1) < TWO_32
      && match FirstRequest(data)
         case None => true
         case Some(r) => clear(r) && (accepts(r) ==> Fits(accepts, clear, data[12 + |r.payload|..]))
  }

  // What comes later does not matter to what has been parsed, and what is left of it fits with what comes.
  lemma {:induction false} FitsContinues(accepts: Request -> bool, clear: Request -> bool, data: Bytes, more: Bytes)
    requires Fits(accepts, clear, data + more)
    ensures Fits(accepts, clear, data)
    ensures var p := ParseRequests(accepts, data); !p.bad ==> Fits(accepts, clear, p.rest + more)
    decreases |data|
  {
    if |data| >= 12 {
      WordExtends(data, more, 1);
      var first := FirstRequest(data);
      if first.Some? {
        FirstExtends(data, more);
        var n := 12 + |first.value.payload|;
        RestOfFront(data, more, n);
        if accepts(first.value) {
          ParseFirst(accepts, data, first.value);
          FitsContinues(accepts, clear, data[n..], more);
        }
      }
    }
  }

  // ---- what a client sends ----

  function Stream(rs: seq<Request>): Bytes
  {
    if rs == [] then [] else Stream(rs[..|rs| - 1]) + RequestBytes(rs[|rs| - 1])
  }

  predicate Sendable(r: Request)
  {
    r.index < TWO_32 && r.id < TWO_32 && |r.payload| < TWO_32
  }

  lemma RequestFound(r: Request, more: Bytes)
    requires Sendable(r)
    ensures FirstRequest(RequestBytes(r) + more) == Some(r) && |RequestBytes(r)| == 12 + |r.payload|
  {
    Le32Back(r.index);
    Le32Back(|r.payload|);
    Le32Back(r.id);
    var data := RequestBytes(r) + more;
    Associates(Le32(r.index) + Le32(|r.payload|) + Le32(r.id), r.payload, more);
    ThreeWords(Le32(r.index), Le32(|r.payload|), Le32(r.id), r.payload + more);
    assert data[12..12 + |r.payload|] == data[12..][..|r.payload|] == r.payload;
  }

  // A server gets the requests of a client, in order, and nothing is left over.
  lemma {:induction false} StreamParses(accepts: Request -> bool, rs: seq<Request>)
    requires forall i :: 0 <= i < |rs| ==> Sendable(rs[i]) && accepts(rs[i])
    ensures ParseRequests(accepts, Stream(rs)) == Parsed(rs, [], false)
  {
    if rs != [] {
      var front, r := rs[..|rs| - 1], rs[|rs| - 1];
      assert forall i :: 0 <= i < |front| ==> front[i] == rs[i];
      StreamParses(accepts, front);
      assert Stream(rs) == Stream(front) + RequestBytes(r);
      OneMoreParses(accepts, Stream(front), front, r);
      assert rs == front + [r];
    }
  }

  lemma OneMoreParses(accepts: Request -> bool, data: Bytes, rs: seq<Request>, r: Request)
    requires Sendable(r) && accepts(r)
    requires ParseRequests(accepts, data) == Parsed(rs, [], false)
    ensures ParseRequests(accepts, data + RequestBytes(r)) == Parsed(rs + [r], [], false)
  {
    ParseContinues(accepts, data, RequestBytes(r));
    OneParses(accepts, r);
    assert [] + RequestBytes(r) == RequestBytes(r);
  }

  lemma OneParses(accepts: Request -> bool, r: Request)
    requires Sendable(r) && accepts(r)
    ensures ParseRequests(accepts, RequestBytes(r)) == Parsed([r], [], false)
  {
    RequestFound(r, []);
    assert RequestBytes(r) + [] == RequestBytes(r);
    ParseFirst(accepts, RequestBytes(r), r);
    assert RequestBytes(r)[12 + |r.payload|..] == [] && [r] + [] == [r];
  }

  lemma {:induction false} FitsJoin(accepts: Request -> bool, clear: Request -> bool, data: Bytes, more: Bytes)
    requires Fits(accepts, clear, data) && Fits(accepts, clear, more)
    requires !ParseRequests(accepts, data).bad && ParseRequests(accepts, data).rest == []
    ensures Fits(accepts, clear, data + more)
    decreases |data|
  {
    if data == [] {
      assert data + more == more;
    } else {
      var r := FirstRequest(data).value;
      FirstExtends(data, more);
      WordExtends(data, more, 1);
      var n := 12 + |r.payload|;
      RestOfFront(data, more, n);
      ParseFirst(accepts, data, r);
      FitsJoin(accepts, clear, data[n..], more);
    }
  }

  // No header of a client announces too much, as long as its messages are that much shorter than two to the 32.
  lemma {:induction false} StreamFits(accepts: Request -> bool, clear: Request -> bool, rs: seq<Request>)
    requires forall i :: 0 <= i < |rs| ==>
      Sendable(rs[i]) && accepts(rs[i]) && clear(rs[i]) && 12 + |rs[i].payload| < TWO_32
    ensures Fits(accepts, clear, Stream(rs))
  {
    if rs != [] {
      var front, r := rs[..|rs| - 1], rs[|rs| - 1];
      assert forall i :: 0 <= i < |front| ==> front[i] == rs[i];
      StreamFits(accepts, clear, front);
      StreamParses(accepts, front);
      OneFits(accepts, clear, r);
      FitsJoin(accepts, clear, Stream(front), RequestBytes(r));
    }
  }

  lemma OneFits(accepts: Request -> bool, clear: Request -> bool, r: Request)
    requires Sendable(r) && accepts(r) && clear(r) && 12 + |r.payload| < TWO_32
    ensures Fits(accepts, clear, RequestBytes(r))
  {
    RequestFound(r, []);
    var data := RequestBytes(r);
    assert data + [] == data && data[12 + |r.payload|..] == [];
    Le32Back(r.index);
    Le32Back(|r.payload|);
    assert data[4..8] == Le32(|r.payload|);
  }

  // A server accepts requests for its methods whose input unpacks.
  function Accepts(S: Schema, methods: seq<Method>): Request -> bool
    requires ServiceOk(S, methods)
  {
    (r: Request) => r.index < |methods| && Decode(S, methods[r.index].input, r.payload).Some?
  }

  // The requests in whose messages no length wraps around; of the others nothing is known.
  function Clear(S: Schema, methods: seq<Method>): Request -> bool
    requires ServiceOk(S, methods)
  {
    (r: Request) => r.index < |methods| ==> Unwrapped(S, methods[r.index].input, r.payload)
  }

  // A well-formed message that was packed for a method is accepted by the server.
  lemma PackedIsAccepted(S: Schema, methods: seq<Method>, index: nat, id: nat, m: Message)
    requires ServiceOk(S, methods) && index < |methods| && m.desc == methods[index].input
    requires Good(S, m) && |Encode(S, m)| < TWO_32
    ensures Accepts(S, methods)(Request(index, id, Encode(S, m)))
    ensures Clear(S, methods)(Request(index, id, Encode(S, m)))
  {
    MessageRoundTrip(S, m);
    PackedIsUnwrapped(S, m);
  }

  // The others are refused: those for a method that the service does not have, and those whose message does not unpack.
  lemma AcceptedMeans(S: Schema, methods: seq<Method>, r: Request)
    requires ServiceOk(S, methods)
    ensures r.index >= |methods| ==> !Accepts(S, methods)(r)
    ensures r.index < |methods| ==>
      (Accepts(S, methods)(r) <==> exists m :: Decode(S, methods[r.index].input, r.payload) == Some(m))
  {
  }

  // ---- responses ----

  // The first response of a stream, if it is all there.
  function FirstResponse(data: Bytes): (r: Option<Response>)
    ensures r.Some? ==> 16 + |r.value.payload| <= |data|
  {
    if |data| < 16 then None
    else
      var length := HeaderWord(data, 2);
      if |data| < 16 + length then None
      else Some(Response(HeaderWord(data, 0), HeaderWord(data, 1), HeaderWord(data, 3), data[16..16 + length]))
  }

  lemma ResponseFound(r: Response, more: Bytes)
    requires r.status < TWO_32 && r.index < TWO_32 && r.id < TWO_32 && |r.payload| < TWO_32
    ensures FirstResponse(ResponseBytes(r) + more) == Some(r) && |ResponseBytes(r)| == 16 + |r.payload|
  {
    Le32Back(r.status);
    Le32Back(r.index);
    Le32Back(|r.payload|);
    Le32Back(r.id);
    var data, header := ResponseBytes(r) + more, Le32(r.status) + Le32(r.index) + Le32(|r.payload|) + Le32(r.id);
    Associates(header, r.payload, more);
    FourWords(Le32(r.status), Le32(r.index), Le32(|r.payload|), Le32(r.id), r.payload + more);
    assert data[16..16 + |r.payload|] == data[16..][..|r.payload|] == r.payload;
  }

  // A request for method 3 with id 0x0102 and two bytes, and the response to it: the words of both headers are
  // little-endian, and that of a response starts with the status.
  lemma FramesInBytes()
    ensures var r, bytes := Request(3, 0x0102, [8, 5]), [3, 0, 0, 0] + [2, 0, 0, 0] + [2, 1, 0, 0] + [8, 5];
            RequestBytes(r) == bytes && FirstRequest(bytes) == Some(r)
    ensures var r := Response(1, 3, 0x0102, [8, 5]);
            var bytes := [1, 0, 0, 0] + [3, 0, 0, 0] + [2, 0, 0, 0] + [2, 1, 0, 0] + [8, 5];
            ResponseBytes(r) == bytes && FirstResponse(bytes) == Some(r)
  {
    Le32Small(1, 0);
    Le32Small(2, 0);
    Le32Small(3, 0);
    Le32Small(2, 1);
    WholeFrames(Request(3, 0x0102, [8, 5]), Response(1, 3, 0x0102, [8, 5]));
  }

  lemma Le32Small(a: Byte, b: Byte)
    ensures Le32(a + 256 * b) == [a, b, 0, 0]
  {
    Le32Reads(a + 256 * b);
  }

  lemma WholeFrames(r: Request, s: Response)
    requires Sendable(r) && s.status < TWO_32 && s.index < TWO_32 && s.id < TWO_32 && |s.payload| < TWO_32
    ensures FirstRequest(RequestBytes(r)) == Some(r) && FirstResponse(ResponseBytes(s)) == Some(s)
  {
    RequestFound(r, []);
    ResponseFound(s, []);
    assert RequestBytes(r) + [] == RequestBytes(r) && ResponseBytes(s) + [] == ResponseBytes(s);
  }
}
