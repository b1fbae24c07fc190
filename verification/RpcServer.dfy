/** A connection of the server of protobuf-c-rpc.c: what it invokes depends on the bytes, not on how they arrive. */
module RpcServer {
  import opened Base128
  import opened Basics
  import opened Wire
  import opened Decoder
  import opened Frames
  import opened StreamPack
  import DataBuffer

  const STATUS_CODE_SUCCESS := 0
  const STATUS_CODE_SERVICE_FAILED := 1

  // A request that waits for its response.
  datatype ServerRequest = ServerRequest(id: nat, index: nat)

  function Asked(rs: seq<Request>): multiset<ServerRequest>
  {
    if rs == [] then multiset{}
    else Asked(rs[..|rs| - 1]) + multiset{ServerRequest(rs[|rs| - 1].id, rs[|rs| - 1].index)}
  }

  function Concat(chunks: seq<Bytes>): Bytes
  {
    if chunks == [] then [] else Concat(chunks[..|chunks| - 1]) + chunks[|chunks| - 1]
  }

  // Some requests of a stream have been served; the bytes in hand hold the others.
  ghost predicate ServedTo(accepts: Request -> bool, stream: Bytes, invoked: seq<Request>, inHand: Bytes)
  {
    var p := ParseRequests(accepts, stream);
    var q := ParseRequests(accepts, inHand);
    p == Parsed(invoked + q.requests, q.rest, q.bad)
  }

  // Where the loop over the requests in hand stands: requests are left, or none is, or the next one is refused.
  ghost predicate Standing(accepts: Request -> bool, clear: Request -> bool, stream: Bytes, invoked: seq<Request>,
                           inHand: Bytes, turn: Turn)
  {
    var p := ParseRequests(accepts, stream);
    match turn
    case Served => ServedTo(accepts, stream, invoked, inHand) && Fits(accepts, clear, inHand)
    case Waiting => !p.bad && p.requests == invoked && p.rest == inHand
    case Refused => p.bad && p.requests == invoked
  }

  lemma ServedNext(accepts: Request -> bool, clear: Request -> bool, stream: Bytes, invoked: seq<Request>,
                   inHand: Bytes, r: Request, rest: Bytes)
    requires Whole(Standing(accepts, clear, stream, invoked, inHand, Served)) && FirstRequest(inHand) == Some(r)
    requires 12 + |r.payload| <= |inHand| && rest == inHand[12 + |r.payload|..]
    ensures if accepts(r) then Whole(Standing(accepts, clear, stream, invoked + [r], rest, Served))
            else Whole(Standing(accepts, clear, stream, invoked, rest, Refused))
    ensures clear(r)
  {
    if accepts(r) {
      ParseFirst(accepts, inHand, r);
      var q := ParseRequests(accepts, rest);
      assert invoked + ([r] + q.requests) == (invoked + [r]) + q.requests;
    } else {
      assert invoked + [] == invoked;
    }
  }

  lemma ServedMore(accepts: Request -> bool, stream: Bytes, invoked: seq<Request>, rest: Bytes, more: Bytes)
    requires ParseRequests(accepts, stream) == Parsed(invoked, rest, false)
    ensures ServedTo(accepts, stream + more, invoked, rest + more)
  {
    ParseContinues(accepts, stream, more);
  }

  lemma RequestRead(inHand: Bytes, packedData: Bytes, rest: Bytes, length: nat)
    requires 12 <= |inHand| && HeaderWord(inHand, 1) == length == |packedData| && inHand[12..] == packedData + rest
    ensures FirstRequest(inHand) == Some(Request(HeaderWord(inHand, 0), HeaderWord(inHand, 2), packedData))
    ensures rest == inHand[12 + length..]
  {
    assert inHand[12..12 + length] == inHand[12..][..length] && inHand[12 + length..] == inHand[12..][length..];
  }

  datatype Turn = Served | Waiting | Refused

  class Connection {
    const S: Schema
    const methods: seq<Method>
    const incoming: DataBuffer.Buffer
    const outgoing: DataBuffer.Buffer
    var open: bool
    var pending: seq<ServerRequest>
    var nPendingRequests: nat
    ghost var stream: Bytes
    ghost var invoked: seq<Request>
    ghost var answered: multiset<ServerRequest>

    ghost predicate Parts()
      reads this, incoming, outgoing, incoming.store, outgoing.store
    {
      && ServiceOk(S, methods) && incoming.Valid() && outgoing.Valid()
      && incoming != outgoing && incoming.store != outgoing.store
    }

    // Every request handed to the service waits for its response or has had it.
    ghost predicate Booked()
      reads this
    {
      nPendingRequests == |pending| && multiset(pending) + answered == Asked(invoked)
    }

    ghost predicate Valid()
      reads this, incoming, outgoing, incoming.store, outgoing.store
    {
      && Parts() && Booked()
      && var p := ParseRequests(Accepts(S, methods), stream);
         invoked == p.requests && (open ==> !p.bad && incoming.Contents() == p.rest)
    }

    constructor (S: Schema, methods: seq<Method>)
      requires ServiceOk(S, methods)
      ensures Valid() && open && stream == [] && this.S == S && this.methods == methods
      ensures fresh(incoming) && fresh(outgoing) && fresh(incoming.store) && fresh(outgoing.store)
    {
      this.S, this.methods := S, methods;
      var store1 := new DataBuffer.Store();
      var store2 := new DataBuffer.Store();
      incoming := new DataBuffer.Buffer(store1);
      outgoing := new DataBuffer.Buffer(store2);
      open, pending, nPendingRequests := true, [], 0;
      stream, invoked, answered := [], [], multiset{};
    }

    // server_connection_close
    method Close()
      requires Valid() && open
      modifies this`open, incoming, outgoing, incoming.store`mem, outgoing.store`mem
      ensures Valid() && !open && incoming.Contents() == [] && outgoing.Contents() == []
    {
      open := false;
      incoming.Reset();
      outgoing.Reset();
    }

    // handle_server_connection_events, when bytes have been read
    method HandleReadable(bytes: Bytes)
      requires Valid() && open && Fits(Accepts(S, methods), Clear(S, methods), stream + bytes)
      modifies this, incoming, outgoing, incoming.store, outgoing.store`mem
      ensures Valid() && stream == old(stream) + bytes
      ensures open == !ParseRequests(Accepts(S, methods), stream).bad
    {
      Receive(bytes);
      var turn := ServeAll();
      if turn == Refused {
        Refuse();
      }
    }

    // What has been read is put behind what is still in hand.
    method Receive(bytes: Bytes)
      requires Valid() && open && Fits(Accepts(S, methods), Clear(S, methods), stream + bytes)
      modifies this`stream, incoming, incoming.store
      ensures Whole(Parts() && Booked()) && Whole(Halfway(Served)) && stream == old(stream) + bytes
    {
      ServedMore(Accepts(S, methods), stream, invoked, incoming.Contents(), bytes);
      FitsContinues(Accepts(S, methods), Clear(S, methods), stream, bytes);
      incoming.Append(bytes);
      stream := stream + bytes;
    }

    // The loop over the requests in the buffer.
    method ServeAll() returns (turn: Turn)
      requires Parts() && Booked() && open && Whole(Halfway(Served))
      modifies this`pending, this`nPendingRequests, this`invoked, incoming, incoming.store`mem
      ensures Whole(Parts() && Booked()) && turn != Served && Whole(Halfway(turn))
    {
      turn := Served;
      while turn == Served
        invariant Whole(Parts() && Booked()) && Whole(Halfway(turn))
        decreases incoming.size, if turn == Served then 1 else 0
      {
        turn := ServeOne();
      }
    }

    // server_connection_failed on a bad request
    method Refuse()
      requires Parts() && Booked() && open && Whole(Halfway(Refused))
      modifies this`open, incoming, outgoing, incoming.store`mem, outgoing.store`mem
      ensures Valid() && !open
    {
      open := false;
      incoming.Reset();
      outgoing.Reset();
    }

    ghost predicate Halfway(turn: Turn)
      reads this, incoming, incoming.store
      requires ServiceOk(S, methods)
    {
      StandsAt(invoked, incoming.Contents(), turn)
    }

    // The same, of requests and bytes that may not be those of the connection yet.
    ghost predicate StandsAt(requests: seq<Request>, inHand: Bytes, turn: Turn)
      reads this
      requires ServiceOk(S, methods)
    {
      Standing(Accepts(S, methods), Clear(S, methods), stream, requests, inHand, turn)
    }

    // Without a whole request the loop waits; a request for a method that the service does not have ends it.
    lemma FrontTells(inHand: Bytes)
      requires ServiceOk(S, methods) && Whole(StandsAt(invoked, inHand, Served))
      ensures |inHand| < 12 ==> Whole(StandsAt(invoked, inHand, Waiting))
      ensures |inHand| >= 12 ==>
        var length := HeaderWord(inHand, 1);
        && 12 + length < TWO_32
        && (|inHand| < 12 + length ==> Whole(StandsAt(invoked, inHand, Waiting)))
        && (12 + length <= |inHand| && HeaderWord(inHand, 0) >= |methods| ==>
             Whole(StandsAt(invoked, inHand, Refused)))
    {
      assert invoked + [] == invoked;
    }

    method PeekHeader() returns (index: nat, length: nat, id: nat)
      requires incoming.Valid() && incoming.size >= 12
      ensures |incoming.Contents()| == incoming.size
      ensures index == HeaderWord(incoming.Contents(), 0) && length == HeaderWord(incoming.Contents(), 1)
      ensures id == HeaderWord(incoming.Contents(), 2)
    {
      var header := incoming.Peek(12);
      HeaderIsFront(incoming.Contents(), header, 3);
      index, length, id := HeaderWord(header, 0), HeaderWord(header, 1), HeaderWord(header, 2);
    }

    // One turn of the loop over the requests in the buffer.
    method ServeOne() returns (turn: Turn)
      requires Parts() && Booked() && open && Whole(Halfway(Served))
      modifies this`pending, this`nPendingRequests, this`invoked, incoming, incoming.store`mem
      ensures Whole(Parts() && Booked()) && Whole(Halfway(turn))
      ensures turn == Served ==> incoming.size < old(incoming.size)
      ensures incoming.size <= old(incoming.size)
    {
      FrontTells(incoming.Contents());
      if incoming.size < 12 {
        return Waiting;
      }
      var index, length, id := PeekHeader();
      ReadyMeans(12, incoming.size, length);
      if !Ready(12, incoming.size, length) {
        return Waiting;
      }
      if index >= |methods| {
        return Refused;
      }
      turn := ServeRequest(index, length, id);
    }

    // The request at the front of the buffer, which is all there and for one of the methods.
    method ServeRequest(index: nat, length: nat, id: nat) returns (turn: Turn)
      requires Parts() && Booked() && open && Whole(Halfway(Served))
      requires index < |methods| && 12 + length <= incoming.size
      requires HeaderWord(incoming.Contents(), 0) == index && HeaderWord(incoming.Contents(), 1) == length
      requires HeaderWord(incoming.Contents(), 2) == id
      modifies this`pending, this`nPendingRequests, this`invoked, incoming, incoming.store`mem
      ensures Whole(Parts() && Booked()) && Whole(Halfway(turn)) && turn != Waiting
      ensures incoming.size < old(incoming.size)
    {
      ghost var inHand := incoming.Contents();
      var packedData := ReadRequest(length);
      var r := Request(index, id, packedData);
      ServedNext(Accepts(S, methods), Clear(S, methods), stream, invoked, inHand, r, incoming.Contents());
      turn := ServeMessage(r);
    }

    // The request has been taken out of the buffer.
    method ServeMessage(r: Request) returns (turn: Turn)
      requires Parts() && Booked() && r.index < |methods| && Clear(S, methods)(r)
      requires if Accepts(S, methods)(r)
               then Whole(StandsAt(invoked + [r], incoming.Contents(), Served))
               else Whole(StandsAt(invoked, incoming.Contents(), Refused))
      modifies this`pending, this`nPendingRequests, this`invoked
      ensures Whole(Parts() && Booked()) && Whole(Halfway(turn)) && turn != Waiting
    {
      var unpacked := UnpackInput(r);
      if !unpacked {
        return Refused;
      }
      CreateServerRequest(r);
      turn := Served;
    }

    // The input of a request for one of the methods is unpacked.
    method UnpackInput(r: Request) returns (ok: bool)
      requires ServiceOk(S, methods) && r.index < |methods| && Clear(S, methods)(r)
      ensures ok == Accepts(S, methods)(r)
    {
      var message := Decode(S, methods[r.index].input, r.payload);
      ok := message.Some?;
    }

    // The header is thrown away and the packed message taken out of the buffer.
    method ReadRequest(length: nat) returns (packedData: Bytes)
      requires Parts() && 12 + length <= incoming.size && HeaderWord(incoming.Contents(), 1) == length
      modifies incoming, incoming.store`mem
      ensures Parts() && |packedData| == length && incoming.size < old(incoming.size)
      ensures var inHand := old(incoming.Contents());
              FirstRequest(inHand) == Some(Request(HeaderWord(inHand, 0), HeaderWord(inHand, 2), packedData))
              && incoming.Contents() == inHand[12 + length..]
    {
      ghost var inHand := incoming.Contents();
      var n := incoming.Discard(12);
      packedData := incoming.Read(length);
      RequestRead(inHand, packedData, incoming.Contents(), length);
    }

    // create_server_request, and the invocation of the service
    method CreateServerRequest(r: Request)
      requires Booked()
      modifies this`pending, this`nPendingRequests, this`invoked
      ensures Booked() && invoked == old(invoked) + [r] && pending == old(pending) + [ServerRequest(r.id, r.index)]
    {
      pending := pending + [ServerRequest(r.id, r.index)];
      nPendingRequests := nPendingRequests + 1;
      invoked := invoked + [r];
      assert invoked[..|invoked| - 1] == old(invoked);
    }

    // server_connection_response_closure on the i-th waiting request, in the thread of the server
    method Respond(i: nat, message: Option<Message>) returns (ghost sent: Bytes)
      requires Valid() && open && i < |pending|
      requires message.Some? ==> WellFormed(S) && Typed(S, message.value) && |Encode(S, message.value)| < TWO_32
      modifies this`pending, this`nPendingRequests, this`answered, outgoing, outgoing.store
      ensures Valid() && pending == old(pending)[..i] + old(pending)[i + 1..]
      ensures outgoing.Contents() == old(outgoing.Contents()) + sent
      ensures IsResponse(sent, old(pending)[i], if message.Some? then Encode(S, message.value) else [])
      ensures sent[0..4] == if message.Some? then [0, 0, 0, 0] else [1, 0, 0, 0]
    {
      var request := pending[i];
      var packed: Bytes := [];
      if message.Some? {
        packed := PackMessage(S, message.value);
      }
      var status := if message.Some? then STATUS_CODE_SUCCESS else STATUS_CODE_SERVICE_FAILED;
      var response := Response(status, request.index, request.id, packed);
      ResponseLaidOut(response);
      sent := ResponseBytes(response);
      outgoing.Append(ResponseBytes(response));
      RemovePending(i);
    }

    // GSK_LIST_REMOVE on the list of waiting requests
    method RemovePending(i: nat)
      requires Booked() && i < |pending|
      modifies this`pending, this`nPendingRequests, this`answered
      ensures Booked() && pending == old(pending)[..i] + old(pending)[i + 1..]
    {
      assert pending == pending[..i] + [pending[i]] + pending[i + 1..];
      answered := answered + multiset{pending[i]};
      pending := pending[..i] + pending[i + 1..];
      nPendingRequests := nPendingRequests - 1;
    }
  }

  // Behind the status there are the method index, the length of the payload and the request id, and the payload.
  ghost predicate IsResponse(sent: Bytes, request: ServerRequest, payload: Bytes)
  {
    && |sent| == 16 + |payload| && sent[16..] == payload && HeaderWord(sent, 1) == request.index % TWO_32
    && HeaderWord(sent, 2) == |payload| && HeaderWord(sent, 3) == request.id % TWO_32
  }

  lemma ResponseLaidOut(r: Response)
    requires |r.payload| < TWO_32
    ensures Whole(IsResponse(ResponseBytes(r), ServerRequest(r.id, r.index), r.payload))
    ensures r.status < 256 ==> ResponseBytes(r)[0..4] == [r.status, 0, 0, 0]
  {
    WordReads(r.status);
    WordReads(r.index);
    WordReads(|r.payload|);
    WordReads(r.id);
    FourWords(Le32(r.status), Le32(r.index), Le32(|r.payload|), Le32(r.id), r.payload);
  }

  lemma WordReads(v: nat)
    ensures |Le32(v)| == 4 && FixedVal(Le32(v)) == v % TWO_32 && (v < 256 ==> Le32(v) == [v, 0, 0, 0])
  {
    Le32Reads(v);
  }

  // The message as a simple buffer on the stack gets it.
  method PackMessage(S: Schema, m: Message) returns (packed: Bytes)
    requires WellFormed(S) && Typed(S, m) && |Encode(S, m)| < TWO_32
    ensures packed == Encode(S, m)
  {
    var slab := new Byte[512](_ => 0);
    var simple := new BufferSimple(slab);
    var n := PackToBuffer(S, m, simple);
    packed := simple.data[..simple.len];
  }

  // However the bytes of a client are cut into reads, the server invokes the same requests, and refuses the same,
  // as long as no header announces a length whose sum with its size wraps around.
  method Serve(conn: Connection, chunks: seq<Bytes>)
    requires conn.Valid() && conn.open && conn.stream == []
    requires Fits(Accepts(conn.S, conn.methods), Clear(conn.S, conn.methods), Concat(chunks))
    modifies conn, conn.incoming, conn.outgoing, conn.incoming.store, conn.outgoing.store`mem
    ensures conn.Valid()
    ensures conn.invoked == ParseRequests(Accepts(conn.S, conn.methods), Concat(chunks)).requests
    ensures conn.open == !ParseRequests(Accepts(conn.S, conn.methods), Concat(chunks)).bad
  {
    assert chunks[..|chunks|] == chunks;
    for k := 0 to |chunks|
      invariant conn.Valid() && conn.open && conn.stream == Concat(chunks[..k])
    {
      assert chunks[..k + 1][..k] == chunks[..k];
      FitsChunks(Accepts(conn.S, conn.methods), Clear(conn.S, conn.methods), chunks, k + 1);
      conn.HandleReadable(chunks[k]);
      if !conn.open {
        RefusedForGood(Accepts(conn.S, conn.methods), chunks, k + 1);
        return;
      }
    }
  }

  lemma {:induction false} FitsChunks(accepts: Request -> bool, clear: Request -> bool, chunks: seq<Bytes>, k: nat)
    requires k <= |chunks| && Fits(accepts, clear, Concat(chunks))
    ensures Fits(accepts, clear, Concat(chunks[..k]))
    decreases |chunks|
  {
    if k == |chunks| {
      assert chunks[..k] == chunks;
    } else {
      var n := |chunks| - 1;
      assert chunks[..n][..k] == chunks[..k];
      FitsContinues(accepts, clear, Concat(chunks[..n]), chunks[n]);
      FitsChunks(accepts, clear, chunks[..n], k);
    }
  }

  lemma {:induction false} RefusedForGood(accepts: Request -> bool, chunks: seq<Bytes>, k: nat)
    requires k <= |chunks| && ParseRequests(accepts, Concat(chunks[..k])).bad
    ensures ParseRequests(accepts, Concat(chunks)).bad
    ensures ParseRequests(accepts, Concat(chunks)).requests == ParseRequests(accepts, Concat(chunks[..k])).requests
    decreases |chunks|
  {
    if k == |chunks| {
      assert chunks[..k] == chunks;
    } else {
      var n := |chunks| - 1;
      assert chunks[..n][..k] == chunks[..k];
      RefusedForGood(accepts, chunks[..n], k);
      StillRefused(accepts, Concat(chunks[..n]), chunks[n]);
    }
  }

  lemma StillRefused(accepts: Request -> bool, data: Bytes, more: Bytes)
    requires ParseRequests(accepts, data).bad
    ensures ParseRequests(accepts, data + more).bad
    ensures ParseRequests(accepts, data + more).requests == ParseRequests(accepts, data).requests
  {
    ParseContinues(accepts, data, more);
  }
}
