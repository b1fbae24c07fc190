/** The client of protobuf-c-rpc.c: every invocation gets exactly one callback. */
module RpcClient {
  import opened Base128
  import opened Basics
  import opened Wire
  import opened Decoder
  import opened Frames
  import opened Framing
  import opened ClosureTable
  import opened Deliveries
  import opened InPlacePack
  import opened PackedSize
  import opened RoundTrip
  import DataBuffer

  datatype State =
    | Init
    | NameLookup(pending: bool, destroyedWhilePending: bool)
    | Connecting
    | Connected
    | FailedWaiting
    | Failed
    | Destroyed

  // What a table shows of its slots.
  function ShownOne(c: Closure): Option<Await>
  {
    match c
    case Waiting(output, data) => Some(Await(output, data))
    case Free(_) => None
  }

  function Shown(closures: seq<Closure>): (table: Table)
    ensures |table| == |closures|
  {
    seq(|closures|, i requires 0 <= i < |closures| => ShownOne(closures[i]))
  }

  // The table of a new connection.
  lemma OneIsFree()
    ensures Shown([Free(0)]) == [None]
  {
  }

  lemma ShownUpdate(closures: seq<Closure>, s: nat, c: Closure)
    requires s < |closures|
    ensures Shown(closures[s := c]) == Shown(closures)[s := ShownOne(c)]
  {
  }

  function Called(log: seq<Callback>): multiset<nat>
  {
    if log == [] then multiset{} else Called(log[..|log| - 1]) + multiset{log[|log| - 1].data}
  }

  lemma CalledSnoc(log: seq<Callback>, c: Callback)
    ensures Called(log + [c]) == Called(log) + multiset{c.data}
  {
    assert (log + [c])[..|log|] == log;
  }

  // ---- sums of what was called and what is still owed ----

  lemma OwesMore(called: multiset<nat>, owed: multiset<nat>, invoked: multiset<nat>, data: nat)
    requires called + owed == invoked
    ensures called + (owed + multiset{data}) == invoked + multiset{data}
    ensures (called + multiset{data}) + owed == invoked + multiset{data}
  {
  }

  lemma OwesLess(called: multiset<nat>, owed: multiset<nat>, rest: multiset<nat>, invoked: multiset<nat>, data: nat)
    requires called + owed == invoked && rest + multiset{data} == owed
    ensures (called + multiset{data}) + rest == invoked
  {
  }

  lemma OneMoreNull(waiting: seq<Closure>, i: nat)
    requires i < |waiting|
    ensures NullCalls(Shown(waiting[..i + 1])) == NullCalls(Shown(waiting[..i])) + NullCalls([ShownOne(waiting[i])])
    ensures Owed(waiting[..i + 1]) == Owed(waiting[..i]) + OwedOne(waiting[i])
  {
    assert waiting[..i + 1][..i] == waiting[..i];
    assert Shown(waiting[..i + 1]) == Shown(waiting[..i]) + [ShownOne(waiting[i])];
    NullCallsTell(Shown(waiting[..i]), [ShownOne(waiting[i])], None);
  }

  lemma CallOne(log: seq<Callback>, base: seq<Callback>, waiting: seq<Closure>, i: nat)
    requires i < |waiting| && AllCalled(log, base, waiting[..i])
    ensures if waiting[i].Waiting? then AllCalled(log + [Callback(waiting[i].data, None)], base, waiting[..i + 1])
            else AllCalled(log, base, waiting[..i + 1])
  {
    var nulls, owed := NullCalls(Shown(waiting[..i])), Owed(waiting[..i]);
    var slot := ShownOne(waiting[i]);
    OneMoreNull(waiting, i);
    NullCallsTell([], [], slot);
    Associates(base, nulls, NullCalls([slot]));
    if waiting[i].Waiting? {
      CalledSnoc(log, Callback(waiting[i].data, None));
    }
  }

  // The closures that wait have been called with NULL.
  ghost predicate AllCalled(log: seq<Callback>, base: seq<Callback>, waiting: seq<Closure>)
  {
    log == base + NullCalls(Shown(waiting)) && Called(log) == Called(base) + Owed(waiting)
  }

  // A full table grows, and then a free slot of it is taken.
  lemma IsGranted(was: seq<Closure>, grown: seq<Closure>, id: nat, output: nat, data: nat)
    requires 0 < id <= |grown| && grown[id - 1].Free?
    requires grown == was || (GrownBy(Shown(was), Shown(grown)) && None !in Shown(was))
    ensures Whole(Granted(Shown(was), Shown(grown[id - 1 := Waiting(output, data)]), id, Await(output, data)))
  {
    ShownUpdate(grown, id - 1, Waiting(output, data));
    var now := Shown(grown)[id - 1 := Some(Await(output, data))];
    assert now[id - 1 := None] == Shown(grown);
    assert id <= |was| ==> Shown(grown)[id - 1] == Shown(was)[id - 1];
  }

  lemma HeaderSize(r: Request)
    ensures |RequestBytes(r)| == 12 + |r.payload|
  {
    Le32Back(r.index);
    Le32Back(|r.payload|);
    Le32Back(r.id);
  }

  lemma StreamSnoc(rs: seq<Request>, r: Request)
    ensures Stream(rs + [r]) == Stream(rs) + RequestBytes(r)
  {
    assert (rs + [r])[..|rs|] == rs;
  }

  // The message, packed into an array of its size.
  method PackMessage(S: Schema, m: Message) returns (packed: Bytes)
    requires WellFormed(S) && Typed(S, m) && |Encode(S, m)| < TWO_32
    ensures packed == Encode(S, m)
  {
    var packedSize := GetPackedSize(S, m);
    var out := new Byte[packedSize](_ => 0);
    var n := MessagePack(S, m, out, 0);
    packed := out[..];
  }

  // The header and the packed message go to the buffer one after the other.
  method AppendRequest(buffer: DataBuffer.Buffer, r: Request)
    requires buffer.Valid()
    modifies buffer, buffer.store
    ensures buffer.Valid() && buffer.Contents() == old(buffer.Contents()) + RequestBytes(r)
  {
    ghost var was := buffer.Contents();
    var header := Le32(r.index) + Le32(|r.payload|) + Le32(r.id);
    buffer.Append(header);
    buffer.Append(r.payload);
    Associates(was, header, r.payload);
  }

  // The first response in hand is to the request of that id, with that payload.
  ghost predicate FirstIs(inHand: Bytes, id: nat, payload: Bytes)
  {
    var r := FirstResponse(inHand);
    r.Some? && r.value.id == id && r.value.payload == payload
  }

  lemma ResponseRead(inHand: Bytes, length: nat, packedData: Bytes)
    requires 16 + length <= |inHand| && HeaderWord(inHand, 2) == length && packedData == inHand[16..][..length]
    ensures FirstIs(inHand, HeaderWord(inHand, 3), packedData) && inHand[16..][length..] == inHand[16 + length..]
  {
    assert inHand[16..16 + length] == inHand[16..][..length];
  }

  // Without a whole response in hand a turn does nothing.
  lemma FrontTells(S: Schema, h: Hand)
    requires Whole(HeadFits(S, h.table, h.inHand))
    ensures |h.inHand| < 16 ==> Whole(OneTurn(S, h, false, h))
    ensures |h.inHand| >= 16 ==>
      var length := HeaderWord(h.inHand, 2);
      16 + length < TWO_32 && (|h.inHand| < 16 + length ==> Whole(OneTurn(S, h, false, h)))
  {
  }

  // A response that nobody waits for ends the connection.
  lemma NobodyWaits(S: Schema, h: Hand)
    requires |h.inHand| >= 16 && Awaited(h.table, HeaderWord(h.inHand, 3)).None?
    ensures 16 + HeaderWord(h.inHand, 2) <= |h.inHand| ==> Whole(OneTurn(S, h, false, Lost(h)))
  {
  }

  // The first response is delivered if its message unpacks; otherwise the connection ends.
  lemma UnpackedTells(S: Schema, h: Hand, id: nat, a: Await, packedData: Bytes, message: Option<Message>, rest: Bytes)
    requires FirstIs(h.inHand, id, packedData) && Awaited(h.table, id) == Some(a)
    requires Whole(UnpackedTo(S, a.output, packedData, message))
    requires 16 + |packedData| <= |h.inHand| && rest == h.inHand[16 + |packedData|..]
    requires Whole(HeadFits(S, h.table, h.inHand))
    ensures Whole(OneTurn(S, h, message.Some?, AfterMessage(h.table, h.log, id, a.data, message, rest)))
  {
  }

  // What is left of a hand once its first message has been unpacked, or could not be.
  ghost function AfterMessage(table: Table, log: seq<Callback>, id: nat, data: nat, message: Option<Message>,
                              rest: Bytes): Hand
    requires 0 < id <= |table|
  {
    if message.None? then Lost(Hand(true, table, rest, log))
    else Hand(true, table[id - 1 := None], rest, log + [Callback(data, message)])
  }

  // Memory that nothing has been written to: callers know its size only.
  method Uninitialised(n: nat) returns (memory: Bytes)
    ensures |memory| == n
  {
    memory := seq(n, _ => 0);
  }

  class Client {
    const S: Schema
    const methods: seq<Method>
    const incoming: DataBuffer.Buffer
    const outgoing: DataBuffer.Buffer
    var state: State
    var autoreconnect: bool
    var closures: seq<Closure>
    var firstFreeRequestId: nat
    ghost var free: seq<nat>
    ghost var log: seq<Callback>
    ghost var invoked: multiset<nat>
    // since the connection was made: the requests, and the bytes that have left
    ghost var sent: seq<Request>
    ghost var written: Bytes

    ghost predicate Parts()
      reads this, incoming, outgoing, incoming.store, outgoing.store
    {
      && ServiceOk(S, methods) && WellFormed(S) && incoming.Valid() && outgoing.Valid()
      && incoming != outgoing && incoming.store != outgoing.store
    }

    // The free list and the waiting slots partition the table; the requests of the connection are in its stream.
    ghost predicate Connection()
      reads this, outgoing, outgoing.store
    {
      if !state.Connected? then outgoing.Contents() == []
      else
        && TableOk(closures, firstFreeRequestId, free)
        && (forall s :: 0 <= s < |closures| && closures[s].Waiting? ==> closures[s].output < |S|)
        && written + outgoing.Contents() == Stream(sent)
    }

    ghost function Pending(): multiset<nat>
      reads this
    {
      if state.Connected? then Owed(closures) else multiset{}
    }

    // Every invocation has had its callback or still waits for it in the table.
    ghost predicate Booked()
      reads this
    {
      Called(log) + Pending() == invoked
    }

    ghost predicate Valid()
      reads this, incoming, outgoing, incoming.store, outgoing.store
    {
      Parts() && Connection() && Booked() && (state.Connected? || incoming.Contents() == [])
    }

    // What the client holds of its connection; without one only the callbacks so far.
    ghost function Held(): Hand
      reads this, incoming, incoming.store
    {
      if state.Connected? then Hand(true, Shown(closures), incoming.Contents(), log) else Hand(false, [], [], log)
    }

    // The connection is lost, and a new one may be tried for later.
    ghost predicate HasFailed()
      reads this
    {
      state == if autoreconnect then FailedWaiting else Failed
    }

    // protobuf_c_rpc_client_new
    constructor (S: Schema, methods: seq<Method>, autoreconnect: bool)
      requires ServiceOk(S, methods) && WellFormed(S)
      ensures Valid() && state == Init && log == [] && invoked == multiset{}
      ensures this.S == S && this.methods == methods && this.autoreconnect == autoreconnect
      ensures fresh(incoming) && fresh(outgoing) && fresh(incoming.store) && fresh(outgoing.store)
    {
      this.S, this.methods, this.autoreconnect := S, methods, autoreconnect;
      var store1 := new DataBuffer.Store();
      var store2 := new DataBuffer.Store();
      incoming := new DataBuffer.Buffer(store1);
      outgoing := new DataBuffer.Buffer(store2);
      state, closures, firstFreeRequestId := Init, [], 0;
      free, log, invoked, sent, written := [], [], multiset{}, [], [];
    }

    // ---- the states ----

    // begin_name_lookup, up to the call of the resolver
    method BeginNameLookup()
      requires Valid() && (state.Init? || state.FailedWaiting? || state.Failed?)
      modifies this`state
      ensures Valid() && state == NameLookup(true, false) && Held() == old(Held())
    {
      state := NameLookup(true, false);
    }

    // handle_name_lookup_success and handle_name_lookup_failure
    method HandleNameLookup(found: bool)
      requires Valid() && state.NameLookup? && state.pending
      modifies this`state, this`closures, this`log, incoming, outgoing, incoming.store`mem, outgoing.store`mem
      ensures Valid() && Held() == old(Held())
      ensures state == if old(state.destroyedWhilePending) then Destroyed
                       else if found then Connecting
                       else if autoreconnect then FailedWaiting else Failed
    {
      NothingLost(log);
      if state.destroyedWhilePending {
        state := NameLookup(false, true);
        Destroy();
        return;
      }
      state := NameLookup(false, false);
      if found {
        state := Connecting;
      } else {
        ClientFailed();
      }
    }

    // set_state_connected
    method SetStateConnected()
      requires Valid() && state.Connecting?
      modifies this`state, this`closures, this`firstFreeRequestId, this`free, this`sent, this`written
      ensures Whole(Valid()) && state.Connected? && sent == [] && written == []
      ensures Held() == Hand(true, [None], [], old(log))
    {
      OneSlot();
      OneIsFree();
      state := Connected;
      closures, firstFreeRequestId, free := [Free(0)], 1, [1];
      sent, written := [], [];
    }

    // client_failed
    method ClientFailed()
      requires Valid() && ((state.NameLookup? && !state.pending) || state.Connecting? || state.Connected?)
      modifies this`state, this`closures, this`log, incoming, outgoing, incoming.store`mem, outgoing.store`mem
      ensures Valid() && HasFailed() && incoming.Contents() == [] && outgoing.Contents() == []
      ensures Held() == Lost(old(Held())) && old(log) <= log
      ensures forall i :: |old(log)| <= i < |log| ==> log[i].message.None?
    {
      LostTells(Held());
      GiveUp(if autoreconnect then FailedWaiting else Failed);
    }

    // The connection is over: the buffers are emptied, and every closure that waits gets NULL.
    method GiveUp(next: State)
      requires Valid() && !next.Connected?
      modifies this`state, this`closures, this`log, incoming, outgoing, incoming.store`mem, outgoing.store`mem
      ensures Valid() && state == next && incoming.Contents() == [] && outgoing.Contents() == []
      ensures Held() == Lost(old(Held()))
    {
      var waiting := if state.Connected? then closures else [];
      assert Held().table == Shown(waiting);
      ResetBuffers();
      state := next;
      CallAll(waiting);
    }

    method ResetBuffers()
      requires Parts()
      modifies incoming, outgoing, incoming.store`mem, outgoing.store`mem
      ensures Parts() && incoming.Contents() == [] && outgoing.Contents() == []
    {
      incoming.Reset();
      outgoing.Reset();
    }

    // Every waiting closure is called with NULL; only then is the table given up.
    method CallAll(waiting: seq<Closure>)
      modifies this`closures, this`log
      ensures AllCalled(log, old(log), waiting) && closures == []
    {
      ghost var base := log;
      assert base + NullCalls(Shown([])) == base;
      for i := 0 to |waiting|
        invariant AllCalled(log, base, waiting[..i])
      {
        CallOne(log, base, waiting, i);
        if waiting[i].Waiting? {
          log := log + [Callback(waiting[i].data, None)];
        }
      }
      assert waiting[..|waiting|] == waiting;
      closures := [];
    }

    // destroy_client_rpc; while a name is looked up it only leaves a note
    method Destroy()
      requires Valid() && !state.Destroyed?
      modifies this`state, this`closures, this`log, incoming, outgoing, incoming.store`mem, outgoing.store`mem
      ensures Valid()
      ensures state == if old(state.NameLookup?) && old(state.pending) then NameLookup(true, true) else Destroyed
      ensures incoming.Contents() == [] && outgoing.Contents() == []
      ensures Held() == Lost(old(Held())) && old(log) <= log
      ensures forall i :: |old(log)| <= i < |log| ==> log[i].message.None?
    {
      LostTells(Held());
      if state.NameLookup? && state.pending {
        state := NameLookup(true, true);
        return;
      }
      GiveUp(Destroyed);
    }

    // ---- requests ----

    // grow_closure_array
    method GrowClosureArray()
      requires TableOk(closures, firstFreeRequestId, free)
      modifies this`closures, this`firstFreeRequestId, this`free
      ensures TableOk(closures, firstFreeRequestId, free) && firstFreeRequestId != 0
      ensures |closures| == 2 * |old(closures)| && old(closures) <= closures && Owed(closures) == Owed(old(closures))
      ensures forall s :: |old(closures)| <= s < |closures| ==> closures[s].Free?
    {
      var oldSize := |closures|;
      var newSize := oldSize * 2;
      var more: seq<Closure> := [];
      for i := oldSize to newSize - 1
        invariant |more| == i - oldSize && forall k :: 0 <= k < |more| ==> more[k] == Free(oldSize + k + 2)
      {
        more := more + [Free(i + 2)];
      }
      more := more + [Free(firstFreeRequestId)];
      Grown(closures, firstFreeRequestId, free, more);
      free := Ids(oldSize, newSize) + free;
      firstFreeRequestId := oldSize + 1;
      closures := closures + more;
    }

    // A free slot, filled with the closure of the caller; the table grows only if it has none.
    method AllocateRequest(output: nat, data: nat) returns (requestId: nat)
      requires state.Connected? && Connection() && output < |S|
      modifies this`closures, this`firstFreeRequestId, this`free
      ensures Whole(Connection()) && Owed(closures) == Owed(old(closures)) + multiset{data}
      ensures Granted(old(Shown(closures)), Shown(closures), requestId, Await(output, data))
    {
      ghost var was := closures;
      if firstFreeRequestId == 0 {
        NoneFree(closures, firstFreeRequestId, free);
        GrowClosureArray();
      }
      ghost var grown := closures;
      requestId := TakeSlot(output, data);
      IsGranted(was, grown, requestId, output, data);
    }

    method TakeSlot(output: nat, data: nat) returns (requestId: nat)
      requires state.Connected? && Connection() && output < |S| && firstFreeRequestId != 0
      modifies this`closures, this`firstFreeRequestId, this`free
      ensures Connection() && Owed(closures) == Owed(old(closures)) + multiset{data}
      ensures 0 < requestId <= |old(closures)| && old(closures)[requestId - 1].Free?
      ensures closures == old(closures)[requestId - 1 := Waiting(output, data)]
    {
      requestId := firstFreeRequestId;
      TakeFirst(closures, firstFreeRequestId, free, output, data);
      firstFreeRequestId := closures[requestId - 1].next;
      closures := closures[requestId - 1 := Waiting(output, data)];
      free := free[1..];
    }

    // enqueue_request
    method EnqueueRequest(index: nat, input: Message, data: nat) returns (ghost r: Request)
      requires Parts() && Connection() && state.Connected? && index < |methods|
      requires Typed(S, input) && |Encode(S, input)| < TWO_32
      modifies this`closures, this`firstFreeRequestId, this`free, this`sent, outgoing, outgoing.store
      ensures Whole(Parts() && Connection()) && Owed(closures) == Owed(old(closures)) + multiset{data}
      ensures sent == old(sent) + [r] && r.index == index && r.payload == Encode(S, input)
      ensures |outgoing.Contents()| == |old(outgoing.Contents())| + 12 + |r.payload|
      ensures Granted(old(Shown(closures)), Shown(closures), r.id, Await(methods[index].output, data))
    {
      var packed := PackMessage(S, input);
      r := EnqueuePacked(index, methods[index].output, packed, data);
    }

    method EnqueuePacked(index: nat, output: nat, packed: Bytes, data: nat) returns (ghost r: Request)
      requires Parts() && Connection() && state.Connected? && output < |S|
      modifies this`closures, this`firstFreeRequestId, this`free, this`sent, outgoing, outgoing.store
      ensures Whole(Parts() && Connection()) && Owed(closures) == Owed(old(closures)) + multiset{data}
      ensures sent == old(sent) + [r] && r.index == index && r.payload == packed
      ensures |outgoing.Contents()| == |old(outgoing.Contents())| + 12 + |packed|
      ensures Granted(old(Shown(closures)), Shown(closures), r.id, Await(output, data))
    {
      var requestId := AllocateRequest(output, data);
      var request := Request(index, requestId, packed);
      SendRequest(request);
      r := request;
    }

    method SendRequest(r: Request)
      requires Whole(Parts() && Connection()) && state.Connected?
      modifies this`sent, outgoing, outgoing.store
      ensures Whole(Parts() && Connection()) && sent == old(sent) + [r]
      ensures |outgoing.Contents()| == |old(outgoing.Contents())| + 12 + |r.payload|
    {
      ghost var was := outgoing.Contents();
      AppendRequest(outgoing, r);
      StreamSnoc(sent, r);
      HeaderSize(r);
      assert written + (was + RequestBytes(r)) == (written + was) + RequestBytes(r);
      sent := sent + [r];
    }

    // invoke_client_rpc, once the client has been connected or has failed
    method Invoke(index: nat, input: Message, data: nat)
      requires Valid() && (state.Connected? || state.FailedWaiting? || state.Failed?)
      requires index < |methods| && Typed(S, input) && |Encode(S, input)| < TWO_32
      modifies this`closures, this`firstFreeRequestId, this`free, this`sent, this`log, this`invoked, outgoing,
        outgoing.store
      ensures Valid() && invoked == old(invoked) + multiset{data}
      ensures if state.Connected? then
                Waits(old(Held()), Held(), old(sent), sent, index, Encode(S, input), Await(methods[index].output, data))
              else sent == old(sent) && Held() == old(Held()).(log := old(log) + [Callback(data, None)])
      ensures |outgoing.Contents()| ==
        |old(outgoing.Contents())| + if state.Connected? then 12 + |Encode(S, input)| else 0
    {
      if state.Connected? {
        OwesMore(Called(log), Owed(closures), invoked, data);
        invoked := invoked + multiset{data};
        ghost var r := EnqueueRequest(index, input, data);
      } else {
        CallFailed(data);
      }
    }

    // An invocation of a client that has failed is answered at once.
    method CallFailed(data: nat)
      requires Booked() && !state.Connected?
      modifies this`log, this`invoked
      ensures Booked() && invoked == old(invoked) + multiset{data} && log == old(log) + [Callback(data, None)]
    {
      OwesMore(Called(log), multiset{}, invoked, data);
      CalledSnoc(log, Callback(data, None));
      invoked := invoked + multiset{data};
      log := log + [Callback(data, None)];
    }

    // ---- events of the connection ----

    // handle_client_fd_events, when the socket has taken n bytes
    method HandleWritable(n: nat)
      requires Valid() && state.Connected? && n <= |outgoing.Contents()|
      modifies this`written, outgoing, outgoing.store`mem
      ensures Valid() && |outgoing.Contents()| == |old(outgoing.Contents())| - n && Held() == old(Held())
    {
      ghost var was := outgoing.Contents();
      var rv := outgoing.Discard(n);
      assert was == was[..n] + was[n..];
      Associates(written, was[..n], was[n..]);
      written := written + was[..n];
    }

    // handle_client_fd_events, when bytes have been read
    method HandleReadable(bytes: Bytes)
      requires Valid() && state.Connected?
      modifies this`state, this`closures, this`log, this`firstFreeRequestId, this`free
      modifies incoming, outgoing, incoming.store, outgoing.store`mem
      ensures Valid() && old(log) <= log
      ensures if state.Connected? then outgoing.Contents() == old(outgoing.Contents()) else HasFailed()
      ensures Whole(ResponsesFit(S, old(Held()).table, old(Held()).inHand + bytes)) ==>
        Held() == AllTurns(S, More(old(Held()), bytes))
    {
      incoming.Append(bytes);
      ghost var start := Held();
      var more := true;
      while more
        invariant Valid() && old(log) <= log && (more ==> state.Connected?)
        invariant if state.Connected? then outgoing.Contents() == old(outgoing.Contents()) else HasFailed()
        invariant Whole(ResponsesFit(S, start.table, start.inHand)) ==> Whole(Turning(start, more))
        decreases incoming.size, if more then 1 else 0
      {
        ghost var h := Held();
        more := HandleResponse();
        TurnsOn(S, start, h, more, Held());
      }
    }

    // The turns since the start have led here, and those that are left lead on to where all of them lead.
    ghost predicate Turning(start: Hand, more: bool)
      reads this, incoming, incoming.store
    {
      TurnsLead(S, start, more, Held())
    }

    // The status and the method index of the header are not looked at.
    method PeekHeader() returns (messageLength: nat, requestId: nat)
      requires incoming.Valid() && incoming.size >= 16
      ensures |incoming.Contents()| == incoming.size
      ensures messageLength == HeaderWord(incoming.Contents(), 2) && requestId == HeaderWord(incoming.Contents(), 3)
    {
      var header := incoming.Peek(16);
      HeaderIsFront(incoming.Contents(), header, 4);
      messageLength, requestId := HeaderWord(header, 2), HeaderWord(header, 3);
    }

    // One turn of the loop over the responses in the buffer.
    method HandleResponse() returns (more: bool)
      requires Valid() && state.Connected?
      modifies this`state, this`closures, this`log, this`firstFreeRequestId, this`free
      modifies incoming, outgoing, incoming.store`mem, outgoing.store`mem
      ensures Whole(Valid()) && old(log) <= log && incoming.size <= old(incoming.size)
      ensures more ==> state.Connected? && incoming.size < old(incoming.size)
      ensures if state.Connected? then outgoing.Contents() == old(outgoing.Contents()) else HasFailed()
      ensures Whole(HeadFits(S, old(Held()).table, old(incoming.Contents()))) ==>
        Whole(OneTurn(S, old(Held()), more, Held()))
    {
      ghost var h := Held();
      if HeadFits(S, h.table, h.inHand) { FrontTells(S, h); }
      if incoming.size < 16 {
        return false;
      }
      var messageLength, requestId := PeekHeader();
      if 16 + messageLength < TWO_32 { ReadyMeans(16, incoming.size, messageLength); }
      if !Ready(16, incoming.size, messageLength) {
        return false;
      }
      more := AnswerResponse(requestId, messageLength);
    }

    // The first response has passed the test for being all there.
    method AnswerResponse(requestId: nat, length: nat) returns (more: bool)
      requires Valid() && state.Connected? && 16 <= incoming.size
      requires HeaderWord(incoming.Contents(), 2) == length && HeaderWord(incoming.Contents(), 3) == requestId
      requires Whole(HeadFits(S, Held().table, incoming.Contents())) ==> 16 + length <= incoming.size
      modifies this`state, this`closures, this`log, this`firstFreeRequestId, this`free
      modifies incoming, outgoing, incoming.store`mem, outgoing.store`mem
      ensures Whole(Valid()) && old(log) <= log && incoming.size <= old(incoming.size)
      ensures more ==> state.Connected? && incoming.size < old(incoming.size)
      ensures if state.Connected? then outgoing.Contents() == old(outgoing.Contents()) else HasFailed()
      ensures Whole(HeadFits(S, old(Held()).table, old(incoming.Contents()))) ==>
        Whole(OneTurn(S, old(Held()), more, Held()))
    {
      if requestId > |closures| || requestId == 0 || closures[requestId - 1].Free? {
        NobodyWaits(S, Held());
        ClientFailed();
        more := false;
      } else {
        more := DeliverResponse(requestId, length);
      }
    }

    // The response at the front of the buffer goes to the closure that waits for its request id.
    method DeliverResponse(requestId: nat, length: nat) returns (ok: bool)
      requires Valid() && state.Connected? && 16 <= incoming.size
      requires HeaderWord(incoming.Contents(), 2) == length && HeaderWord(incoming.Contents(), 3) == requestId
      requires 1 <= requestId <= |closures| && closures[requestId - 1].Waiting?
      modifies this`state, this`closures, this`log, this`firstFreeRequestId, this`free
      modifies incoming, outgoing, incoming.store`mem, outgoing.store`mem
      ensures Whole(Valid()) && old(log) <= log && incoming.size <= old(incoming.size)
      ensures ok ==> state.Connected? && incoming.size < old(incoming.size)
      ensures if state.Connected? then outgoing.Contents() == old(outgoing.Contents()) else HasFailed()
      ensures 16 + length <= old(incoming.size) && Whole(HeadFits(S, old(Held()).table, old(incoming.Contents()))) ==>
        Whole(OneTurn(S, old(Held()), ok, Held()))
    {
      var message := ReadMessage(requestId, length);
      ok := Settle(requestId, message);
    }

    // The message of the first response, and whether it leads on from the hand that it was in.
    method ReadMessage(requestId: nat, length: nat) returns (message: Option<Message>)
      requires Valid() && state.Connected? && 16 <= incoming.size
      requires HeaderWord(incoming.Contents(), 2) == length && HeaderWord(incoming.Contents(), 3) == requestId
      requires 1 <= requestId <= |closures| && closures[requestId - 1].Waiting?
      modifies incoming, incoming.store`mem
      ensures Whole(Valid()) && incoming.size < old(incoming.size)
      ensures 16 + length <= old(incoming.size) && Whole(HeadFits(S, Held().table, old(incoming.Contents()))) ==>
        Whole(OneTurn(S, old(Held()), message.Some?, AfterMessage(Shown(closures), log, requestId,
                                                                  closures[requestId - 1].data, message,
                                                                  incoming.Contents())))
    {
      ghost var h := Held();
      var closure := closures[requestId - 1];
      var packedData := ReadResponse(length);
      message := UnpackResponse(closure.output, packedData);
      if 16 + length <= |h.inHand| && HeadFits(S, h.table, h.inHand) {
        UnpackedTells(S, h, requestId, Await(closure.output, closure.data), packedData, message, incoming.Contents());
      }
    }

    // The closure gets the message, or the client fails for want of one.
    method Settle(requestId: nat, message: Option<Message>) returns (ok: bool)
      requires Valid() && state.Connected? && 1 <= requestId <= |closures| && closures[requestId - 1].Waiting?
      modifies this`state, this`closures, this`log, this`firstFreeRequestId, this`free
      modifies incoming, outgoing, incoming.store`mem, outgoing.store`mem
      ensures Valid() && ok == message.Some? && incoming.size <= old(incoming.size)
      ensures old(log) <= log
      ensures if ok then state.Connected? && outgoing.Contents() == old(outgoing.Contents()) else HasFailed()
      ensures Held() == AfterMessage(old(Shown(closures)), old(log), requestId, old(closures)[requestId - 1].data,
                                     message, old(incoming.Contents()))
    {
      ok := message.Some?;
      if ok {
        InvokeClosure(requestId, message.value);
      } else {
        ClientFailed();
      }
    }

    method UnpackResponse(output: nat, packedData: Bytes) returns (message: Option<Message>)
      requires output < |S|
      ensures Whole(UnpackedTo(S, output, packedData, message))
    {
      message := Decode(S, output, packedData);
    }

    // The packed message.  If the sum in the test wrapped around, less than it may have arrived: the rest of the
    // block it is read into was never written.
    method ReadResponse(length: nat) returns (packedData: Bytes)
      requires Parts() && 16 <= incoming.size && HeaderWord(incoming.Contents(), 2) == length
      modifies incoming, incoming.store`mem
      ensures Whole(Parts()) && incoming.size < old(incoming.size) && |packedData| == length
      ensures 16 + length <= old(incoming.size) ==>
        && FirstIs(old(incoming.Contents()), HeaderWord(old(incoming.Contents()), 3), packedData)
        && incoming.Contents() == old(incoming.Contents())[16 + length..]
    {
      ghost var inHand := incoming.Contents();
      var n := incoming.Discard(16);
      packedData := incoming.Read(length);
      if 16 + length <= |inHand| { ResponseRead(inHand, length, packedData); }
      if |packedData| < length {
        var unwritten := Uninitialised(length - |packedData|);
        packedData := packedData + unwritten;
      }
    }

    // The closure runs, and its slot becomes the first free one.
    method InvokeClosure(requestId: nat, message: Message)
      requires state.Connected? && Connection() && Booked()
      requires 1 <= requestId <= |closures| && closures[requestId - 1].Waiting?
      modifies this`closures, this`log, this`firstFreeRequestId, this`free
      ensures Whole(Connection()) && Booked()
      ensures log == old(log) + [Callback(old(closures)[requestId - 1].data, Some(message))]
      ensures Shown(closures) == old(Shown(closures))[requestId - 1 := None]
    {
      var data := closures[requestId - 1].data;
      ghost var called, owed := Called(log), Owed(closures);
      CalledSnoc(log, Callback(data, Some(message)));
      log := log + [Callback(data, Some(message))];
      FreeSlot(requestId);
      OwesLess(called, owed, Owed(closures), invoked, data);
    }

    method FreeSlot(requestId: nat)
      requires state.Connected? && Connection()
      requires 1 <= requestId <= |closures| && closures[requestId - 1].Waiting?
      modifies this`closures, this`firstFreeRequestId, this`free
      ensures Whole(Connection()) && Owed(closures) + multiset{old(closures)[requestId - 1].data} == Owed(old(closures))
      ensures Shown(closures) == old(Shown(closures))[requestId - 1 := None]
    {
      GiveBack(closures, firstFreeRequestId, free, requestId);
      ShownUpdate(closures, requestId - 1, Free(firstFreeRequestId));
      closures := closures[requestId - 1 := Free(firstFreeRequestId)];
      free := [requestId] + free;
      firstFreeRequestId := requestId;
    }
  }

  // On a loss the log grows by calls with NULL.
  lemma LostTells(h: Hand)
    ensures h.log <= Lost(h).log
    ensures forall i :: |h.log| <= i < |Lost(h).log| ==> Lost(h).log[i].message.None?
  {
    NullCallsTell(h.table, [], None);
  }

  // Without a connection there is nothing to lose.
  lemma NothingLost(log: seq<Callback>)
    ensures Lost(Hand(false, [], [], log)) == Hand(false, [], [], log)
  {
  }

  // What the unpacker makes of the data is known if no length in them wraps around.
  ghost predicate UnpackedTo(S: Schema, output: nat, data: Bytes, message: Option<Message>)
  {
    output < |S| && (Unwrapped(S, output, data) ==> message == Decode(S, output, data))
  }

  // The request is on its way, and its caller waits under its id.
  ghost predicate Waits(h: Hand, t: Hand, was: seq<Request>, sent: seq<Request>, index: nat, payload: Bytes, a: Await)
  {
    && t == h.(table := t.table)
    && exists id :: sent == was + [Request(index, id, payload)] && Granted(h.table, t.table, id, a)
  }

  // After some turns from the start: those that are left lead on to where all of them lead.
  ghost predicate TurnsLead(S: Schema, start: Hand, more: bool, t: Hand)
  {
    if more then AllTurns(S, start) == AllTurns(S, t) && ResponsesFit(S, t.table, t.inHand) else AllTurns(S, start) == t
  }

  lemma TurnsOn(S: Schema, start: Hand, h: Hand, more: bool, t: Hand)
    requires h.connected
    requires Whole(ResponsesFit(S, start.table, start.inHand)) ==> Whole(TurnsLead(S, start, true, h))
    requires Whole(HeadFits(S, h.table, h.inHand)) ==> Whole(OneTurn(S, h, more, t))
    ensures Whole(ResponsesFit(S, start.table, start.inHand)) ==> Whole(TurnsLead(S, start, more, t))
  {
    if ResponsesFit(S, start.table, start.inHand) { TurnOfAll(S, h, more, t); }
  }

  // ---- runs ----

  datatype Event =
    | Invocation(index: nat, input: Message, data: nat)
    | StartLookup
    | LookupDone(found: bool)
    | ConnectDone(ok: bool)
    | Taken(n: nat)
    | Got(bytes: Bytes)
    | Failure
    | Destruction

  // What a run sees of the client: its state, the requests of the connection, how many bytes wait to leave, and what
  // the client holds.
  datatype Snap = Snap(state: State, sent: seq<Request>, outgoing: nat, hand: Hand)

  // A new client.
  ghost function Idle(): Snap { Snap(Init, [], 0, Hand(false, [], [], [])) }

  ghost function Seen(c: Client): Snap
    reads c, c.incoming, c.outgoing, c.incoming.store
  {
    Snap(c.state, if c.state.Connected? then c.sent else [], c.outgoing.size, c.Held())
  }

  // The events that can happen in a state of the client; invocations wait for the first connection.
  predicate Enabled(S: Schema, methods: seq<Method>, state: State, outgoing: nat, e: Event)
  {
    match e
    case Invocation(index, input, _) =>
      && (state.Connected? || state.FailedWaiting? || state.Failed?)
      && index < |methods| && Typed(S, input) && |Encode(S, input)| < TWO_32
    case StartLookup => state.Init? || state.FailedWaiting? || state.Failed?
    case LookupDone(_) => state.NameLookup? && state.pending
    case ConnectDone(_) => state.Connecting?
    case Taken(n) => state.Connected? && n <= outgoing
    case Got(_) => state.Connected?
    case Failure => state.Connected?
    case Destruction => !state.Destroyed?
  }

  // The client leaves its connection for that state.
  ghost function Leaves(state: State, s: Snap): Snap
  {
    Snap(state, [], 0, Lost(s.hand))
  }

  // The responses that the bytes complete are dealt with, if no length wraps around in them.
  ghost predicate LeadsReading(S: Schema, failed: State, s: Snap, bytes: Bytes, t: Snap)
  {
    var h := More(s.hand, bytes);
    && s.hand.log <= t.hand.log && (t.hand.connected <==> t.state == s.state)
    && t == (if t.hand.connected then s.(hand := t.hand) else Snap(failed, [], 0, t.hand))
    && (ResponsesFit(S, h.table, h.inHand) ==> t.hand == AllTurns(S, h))
  }

  lemma ReadingLeads(S: Schema, failed: State, s: Snap, bytes: Bytes, t: Snap)
    requires s.state.Connected? && s.hand.connected && !failed.Connected? && (t.state == s.state || t.state == failed)
    requires t.hand.connected <==> t.state.Connected?
    requires if t.state.Connected? then t.sent == s.sent && t.outgoing == s.outgoing
             else t.sent == [] && t.outgoing == 0
    requires s.hand.log <= t.hand.log
    requires Whole(ResponsesFit(S, s.hand.table, s.hand.inHand + bytes)) ==> t.hand == AllTurns(S, More(s.hand, bytes))
    ensures Whole(LeadsReading(S, failed, s, bytes, t))
  {
  }

  // Where an event leads.
  ghost predicate Leads(S: Schema, methods: seq<Method>, autoreconnect: bool, s: Snap, e: Event, t: Snap)
  {
    var failed := if autoreconnect then FailedWaiting else Failed;
    match e
    case Invocation(index, input, data) =>
      if s.state.Connected? then
        && t == s.(hand := t.hand, sent := t.sent, outgoing := s.outgoing + 12 + |Encode(S, input)|)
        && index < |methods|
        && Waits(s.hand, t.hand, s.sent, t.sent, index, Encode(S, input), Await(methods[index].output, data))
      else t == s.(hand := s.hand.(log := s.hand.log + [Callback(data, None)]))
    case StartLookup => t == s.(state := NameLookup(true, false))
    case LookupDone(found) =>
      s.state.NameLookup? &&
      t == s.(state := if s.state.destroyedWhilePending then Destroyed else if found then Connecting else failed)
    case ConnectDone(ok) =>
      t == if ok then Snap(Connected, [], 0, Hand(true, [None], [], s.hand.log)) else s.(state := failed)
    case Taken(n) => n <= s.outgoing && t == s.(outgoing := s.outgoing - n)
    case Got(bytes) => LeadsReading(S, failed, s, bytes, t)
    case Failure => t == Leaves(failed, s)
    case Destruction =>
      if s.state.NameLookup? && s.state.pending then t == s.(state := NameLookup(true, true))
      else t == Leaves(Destroyed, s)
  }

  // The callers that an event adds.
  function Callers(e: Event): multiset<nat>
  {
    if e.Invocation? then multiset{e.data} else multiset{}
  }

  function AllCallers(events: seq<Event>): multiset<nat>
  {
    if events == [] then multiset{} else AllCallers(events[..|events| - 1]) + Callers(events[|events| - 1])
  }

  method Step(c: Client, e: Event)
    requires c.Valid() && Enabled(c.S, c.methods, c.state, c.outgoing.size, e)
    modifies c, c.incoming, c.outgoing, c.incoming.store, c.outgoing.store
    ensures Whole(c.Valid()) && c.invoked == old(c.invoked) + Callers(e) && c.autoreconnect == old(c.autoreconnect)
    ensures Whole(Leads(c.S, c.methods, c.autoreconnect, old(Seen(c)), e, Seen(c)))
  {
    match e
    case Invocation(index, input, data) => StepInvocation(c, index, input, data);
    case StartLookup => StepQuiet(c, e);
    case LookupDone(found) => StepLookup(c, found);
    case ConnectDone(ok) => StepQuiet(c, e);
    case Taken(n) => StepQuiet(c, e);
    case Got(bytes) => StepGot(c, bytes);
    case Failure => StepQuiet(c, e);
    case Destruction => StepDestruction(c);
  }

  method StepInvocation(c: Client, index: nat, input: Message, data: nat)
    requires c.Valid() && Enabled(c.S, c.methods, c.state, c.outgoing.size, Invocation(index, input, data))
    modifies c, c.incoming, c.outgoing, c.incoming.store, c.outgoing.store
    ensures Whole(c.Valid()) && c.invoked == old(c.invoked) + multiset{data} && c.autoreconnect == old(c.autoreconnect)
    ensures Whole(Leads(c.S, c.methods, c.autoreconnect, old(Seen(c)), Invocation(index, input, data), Seen(c)))
  {
    c.Invoke(index, input, data);
  }

  method StepLookup(c: Client, found: bool)
    requires c.Valid() && Enabled(c.S, c.methods, c.state, c.outgoing.size, LookupDone(found))
    modifies c, c.incoming, c.outgoing, c.incoming.store, c.outgoing.store
    ensures Whole(c.Valid()) && c.invoked == old(c.invoked) && c.autoreconnect == old(c.autoreconnect)
    ensures Whole(Leads(c.S, c.methods, c.autoreconnect, old(Seen(c)), LookupDone(found), Seen(c)))
  {
    c.HandleNameLookup(found);
  }

  method StepGot(c: Client, bytes: Bytes)
    requires c.Valid() && c.state.Connected?
    modifies c, c.incoming, c.outgoing, c.incoming.store, c.outgoing.store
    ensures Whole(c.Valid()) && c.invoked == old(c.invoked) && c.autoreconnect == old(c.autoreconnect)
    ensures Whole(LeadsReading(c.S, if c.autoreconnect then FailedWaiting else Failed, old(Seen(c)), bytes, Seen(c)))
  {
    ghost var s, failed := Seen(c), if c.autoreconnect then FailedWaiting else Failed;
    c.HandleReadable(bytes);
    ReadingLeads(c.S, failed, s, bytes, Seen(c));
  }

  method StepDestruction(c: Client)
    requires c.Valid() && Enabled(c.S, c.methods, c.state, c.outgoing.size, Destruction)
    modifies c, c.incoming, c.outgoing, c.incoming.store, c.outgoing.store
    ensures Whole(c.Valid()) && c.invoked == old(c.invoked) && c.autoreconnect == old(c.autoreconnect)
    ensures Whole(Leads(c.S, c.methods, c.autoreconnect, old(Seen(c)), Destruction, Seen(c)))
  {
    c.Destroy();
  }

  method StepQuiet(c: Client, e: Event)
    requires c.Valid() && Enabled(c.S, c.methods, c.state, c.outgoing.size, e)
    requires e.StartLookup? || e.ConnectDone? || e.Taken? || e.Failure?
    modifies c, c.incoming, c.outgoing, c.incoming.store, c.outgoing.store
    ensures Whole(c.Valid()) && c.invoked == old(c.invoked) && c.autoreconnect == old(c.autoreconnect)
    ensures Whole(Leads(c.S, c.methods, c.autoreconnect, old(Seen(c)), e, Seen(c)))
  {
    if e.StartLookup? {
      c.BeginNameLookup();
    } else if e.Taken? {
      StepTaken(c, e.n);
    } else if e.ConnectDone? && e.ok {
      c.SetStateConnected();
    } else {
      StepFailure(c, e);
    }
  }

  method StepTaken(c: Client, n: nat)
    requires c.Valid() && Enabled(c.S, c.methods, c.state, c.outgoing.size, Taken(n))
    modifies c, c.incoming, c.outgoing, c.incoming.store, c.outgoing.store
    ensures Whole(c.Valid()) && c.invoked == old(c.invoked) && c.autoreconnect == old(c.autoreconnect)
    ensures Whole(Leads(c.S, c.methods, c.autoreconnect, old(Seen(c)), Taken(n), Seen(c)))
  {
    c.HandleWritable(n);
  }

  method StepFailure(c: Client, e: Event)
    requires c.Valid() && Enabled(c.S, c.methods, c.state, c.outgoing.size, e)
    requires e.Failure? || e == ConnectDone(false)
    modifies c, c.incoming, c.outgoing, c.incoming.store, c.outgoing.store
    ensures Whole(c.Valid()) && c.invoked == old(c.invoked) && c.autoreconnect == old(c.autoreconnect)
    ensures Whole(Leads(c.S, c.methods, c.autoreconnect, old(Seen(c)), e, Seen(c)))
  {
    c.ClientFailed();
  }

  ghost predicate Next(S: Schema, methods: seq<Method>, autoreconnect: bool, s: Snap, e: Event, t: Snap)
  {
    if Enabled(S, methods, s.state, s.outgoing, e) then Leads(S, methods, autoreconnect, s, e, t) else t == s
  }

  // A run: from each state the next event leads to the next one if it can happen there; otherwise nothing changes.
  ghost predicate IsRun(S: Schema, methods: seq<Method>, autoreconnect: bool, events: seq<Event>, snaps: seq<Snap>)
  {
    && |snaps| == |events| + 1
    && forall i :: 0 <= i < |events| ==> Next(S, methods, autoreconnect, snaps[i], events[i], snaps[i + 1])
  }

  // The events that happened in a run.
  function Happened(S: Schema, methods: seq<Method>, events: seq<Event>, snaps: seq<Snap>): seq<Event>
    requires |snaps| == |events| + 1
  {
    if events == [] then []
    else
      var n := |events| - 1;
      var before := Happened(S, methods, events[..n], snaps[..n + 1]);
      if Enabled(S, methods, snaps[n].state, snaps[n].outgoing, events[n]) then before + [events[n]] else before
  }

  // Over any run, no caller is called more often than it invoked; when the client is not connected, in particular
  // after a failure or its destruction, every caller has been called exactly once for each invocation.
  method Run(c: Client, events: seq<Event>) returns (ghost snaps: seq<Snap>)
    requires c.Valid() && c.state == Init && c.log == [] && c.invoked == multiset{}
    modifies c, c.incoming, c.outgoing, c.incoming.store, c.outgoing.store
    ensures c.Valid() && IsRun(c.S, c.methods, c.autoreconnect, events, snaps)
    ensures snaps[0] == Idle() && snaps[|events|] == Seen(c)
    ensures var callers := AllCallers(Happened(c.S, c.methods, events, snaps));
            && Called(c.log) <= callers
            && if c.state.Connected? then Called(c.log) + Owed(c.closures) == callers else Called(c.log) == callers
  {
    snaps := [Seen(c)];
    assert events[..0] == [] && Happened(c.S, c.methods, [], snaps) == [];
    for i := 0 to |events|
      invariant c.Valid() && c.autoreconnect == old(c.autoreconnect)
      invariant IsRun(c.S, c.methods, c.autoreconnect, events[..i], snaps)
      invariant snaps[0] == Idle() && snaps[i] == Seen(c)
      invariant c.invoked == AllCallers(Happened(c.S, c.methods, events[..i], snaps))
    {
      ghost var before := snaps;
      if Enabled(c.S, c.methods, c.state, c.outgoing.size, events[i]) {
        Step(c, events[i]);
      }
      snaps := snaps + [Seen(c)];
      RunGrows(c.S, c.methods, c.autoreconnect, events, i, before, snaps);
      CallersGrow(c.S, c.methods, events, i, before, snaps);
    }
    assert events[..|events|] == events;
  }

  lemma RunGrows(S: Schema, methods: seq<Method>, autoreconnect: bool, events: seq<Event>, i: nat, before: seq<Snap>,
                 snaps: seq<Snap>)
    requires i < |events| && IsRun(S, methods, autoreconnect, events[..i], before) && |snaps| == |before| + 1
    requires snaps == before + [snaps[i + 1]]
    requires Next(S, methods, autoreconnect, before[i], events[i], snaps[i + 1])
    ensures IsRun(S, methods, autoreconnect, events[..i + 1], snaps)
  {
    var earlier, now := events[..i], events[..i + 1];
    forall k | 0 <= k < i + 1 ensures Next(S, methods, autoreconnect, snaps[k], now[k], snaps[k + 1]) {
      if k < i { assert Next(S, methods, autoreconnect, before[k], earlier[k], before[k + 1]); }
    }
  }

  lemma CallersGrow(S: Schema, methods: seq<Method>, events: seq<Event>, i: nat, before: seq<Snap>, snaps: seq<Snap>)
    requires i < |events| && |before| == i + 1 && |snaps| == i + 2 && snaps[..i + 1] == before
    ensures AllCallers(Happened(S, methods, events[..i + 1], snaps)) ==
            AllCallers(Happened(S, methods, events[..i], before))
            + if Enabled(S, methods, before[i].state, before[i].outgoing, events[i]) then Callers(events[i])
              else multiset{}
  {
    var now, ran := events[..i + 1], Happened(S, methods, events[..i], before);
    assert now[..i] == events[..i];
    assert (ran + [events[i]])[..|ran|] == ran;
  }

  // A client that reconnects by itself only ever waits after a failure, another one only ever stays failed; and once
  // it is destroyed nothing happens any more.
  lemma {:induction false} StatesOfRun(S: Schema, methods: seq<Method>, autoreconnect: bool, events: seq<Event>,
                                       snaps: seq<Snap>, i: nat, j: nat)
    requires IsRun(S, methods, autoreconnect, events, snaps) && snaps[0] == Idle() && i <= j < |snaps|
    ensures if autoreconnect then !snaps[j].state.Failed? else !snaps[j].state.FailedWaiting?
    ensures snaps[i].state.Destroyed? ==> snaps[j] == snaps[i]
    decreases j
  {
    if j > 0 {
      assert Next(S, methods, autoreconnect, snaps[j - 1], events[j - 1], snaps[j]);
      StatesOfRun(S, methods, autoreconnect, events, snaps, if i < j then i else 0, j - 1);
    }
  }

  // A whole call: the request goes out with id 1, and the message of the response with that id, whatever its status
  // and index, reaches the caller.
  lemma OneCall(S: Schema, methods: seq<Method>, autoreconnect: bool, index: nat, input: Message, data: nat,
                r: Response, m: Message, snaps: seq<Snap>)
    requires ServiceOk(S, methods) && index < |methods| && Typed(S, input) && |Encode(S, input)| < TWO_32
    requires Good(S, m) && m.desc == methods[index].output && r.payload == Encode(S, m) && r.id == 1 && Answerable(r)
    requires |snaps| == 6 && snaps[0] == Idle()
    requires
      var events := [StartLookup, LookupDone(true), ConnectDone(true), Invocation(index, input, data),
                     Got(ResponseBytes(r))];
      IsRun(S, methods, autoreconnect, events, snaps)
    ensures snaps[4].sent == [Request(index, 1, Encode(S, input))] && snaps[4].hand.log == []
    ensures snaps[5].state == Connected
    ensures snaps[5].hand == Hand(true, [None], [], [Callback(data, Some(Canon(S, m)))])
  {
    var events := [StartLookup, LookupDone(true), ConnectDone(true), Invocation(index, input, data),
                   Got(ResponseBytes(r))];
    assert forall i {:trigger events[i]} :: 0 <= i < 5 ==>
      Next(S, methods, autoreconnect, snaps[i], events[i], snaps[i + 1]);
    assert events[0].StartLookup? && events[1].LookupDone? && events[2].ConnectDone?;
    Connects(S, methods, autoreconnect, snaps[0], snaps[1], snaps[2], snaps[3]);
    assert events[3].Invocation? && events[4].Got?;
    CallsBack(S, methods, autoreconnect, snaps[3], events[3], snaps[4], events[4], snaps[5], r, m);
  }

  lemma Connects(S: Schema, methods: seq<Method>, autoreconnect: bool, s: Snap, t: Snap, u: Snap, v: Snap)
    requires s == Idle() && Next(S, methods, autoreconnect, s, StartLookup, t)
    requires Next(S, methods, autoreconnect, t, LookupDone(true), u)
    requires Next(S, methods, autoreconnect, u, ConnectDone(true), v)
    ensures v == Snap(Connected, [], 0, Hand(true, [None], [], []))
  {
  }

  lemma CallsBack(S: Schema, methods: seq<Method>, autoreconnect: bool, s: Snap, call: Event, t: Snap, got: Event,
                  u: Snap, r: Response, m: Message)
    requires s == Snap(Connected, [], 0, Hand(true, [None], [], []))
    requires call.Invocation? && Enabled(S, methods, s.state, 0, call) && Next(S, methods, autoreconnect, s, call, t)
    requires got == Got(ResponseBytes(r)) && Next(S, methods, autoreconnect, t, got, u)
    requires Good(S, m) && m.desc == methods[call.index].output && r.payload == Encode(S, m)
    requires r.id == 1 && Answerable(r)
    ensures t.sent == [Request(call.index, 1, Encode(S, call.input))] && t.hand.log == []
    ensures u.state == Connected && u.hand == Hand(true, [None], [], [Callback(call.data, Some(Canon(S, m)))])
  {
    var a := Await(methods[call.index].output, call.data);
    FirstId(s.hand, t.hand, [], t.sent, call.index, Encode(S, call.input), a);
    assert [] + ResponseBytes(r) == ResponseBytes(r);
    MessageArrives(S, More(t.hand, ResponseBytes(r)), r, m, a);
  }

  lemma FirstId(h: Hand, t: Hand, was: seq<Request>, sent: seq<Request>, index: nat, payload: Bytes, a: Await)
    requires Waits(h, t, was, sent, index, payload, a) && h == Hand(true, [None], [], [])
    ensures t == Hand(true, [Some(a)], [], []) && sent == was + [Request(index, 1, payload)]
  {
    var id :| sent == was + [Request(index, id, payload)] && Granted(h.table, t.table, id, a);
    assert h.table[0] == None;
    var back := t.table[id - 1 := None];
    assert |back| == 1;
  }

  // What the server gets of a connection's requests, once all of them have left, are those requests in order.
  lemma RequestsArrive(accepts: Request -> bool, sent: seq<Request>, written: Bytes, left: Bytes)
    requires written + left == Stream(sent) && forall i :: 0 <= i < |sent| ==> Sendable(sent[i]) && accepts(sent[i])
    ensures left == [] ==> ParseRequests(accepts, written) == Parsed(sent, [], false)
    ensures var p := ParseRequests(accepts, written); !p.bad && p.requests <= sent
  {
    StreamParses(accepts, sent);
    ParseContinues(accepts, written, left);
    if left == [] { assert written + left == written; }
  }
}
