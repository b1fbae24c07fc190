/** What a client makes of the responses that it reads: whom it calls, with which message, and when it fails. */
module Deliveries {
  import opened Base128
  import opened Basics
  import opened Wire
  import opened Decoder
  import opened Frames
  import opened Framing
  import opened RoundTrip
  import opened Unwrapping

  // A closure that has run: its data, and the message it was given, or NULL.
  datatype Callback = Callback(data: nat, message: Option<Message>)

  // What a waiting slot of the table awaits: a message of a descriptor, for the data of its caller.
  datatype Await = Await(output: nat, data: nat)

  type Table = seq<Option<Await>>

  // A client's side of a connection: the slots of its table, the bytes in hand, and who has been called so far.
  datatype Hand = Hand(connected: bool, table: Table, inHand: Bytes, log: seq<Callback>)

  // Every waiting closure of a table is called with NULL, in the order of the slots.
  function NullCalls(table: Table): seq<Callback>
  {
    if table == [] then []
    else
      var last := table[|table| - 1];
      NullCalls(table[..|table| - 1]) + if last.Some? then [Callback(last.value.data, None)] else []
  }

  // The connection fails: the buffers and the table are given up.
  function Lost(h: Hand): Hand
  {
    Hand(false, [], [], h.log + NullCalls(h.table))
  }

  // What is awaited under a request id.
  function Awaited(table: Table, id: nat): Option<Await>
  {
    if 0 < id <= |table| then table[id - 1] else None
  }

  // A request id that nobody waits for has been given to one who now does; the table doubles only if it is full.
  ghost predicate Granted(was: Table, now: Table, id: nat, a: Await)
  {
    && Awaited(was, id).None? && Awaited(now, id) == Some(a)
    && (now[id - 1 := None] == was || (None !in was && GrownBy(was, now[id - 1 := None])))
  }

  ghost predicate GrownBy(was: Table, now: Table)
  {
    |now| == 2 * |was| && was <= now && forall i :: |was| <= i < |now| ==> now[i].None?
  }

  // The call that a response leads to, if its id is awaited and its payload unpacks.
  function CallFor(S: Schema, table: Table, r: Response): Option<Callback>
  {
    var a := Awaited(table, r.id);
    if a.None? || a.value.output >= |S| then None else
      match Decode(S, a.value.output, r.payload)
      case None => None
      case Some(m) => Some(Callback(a.value.data, Some(m)))
  }

  // The response has been taken from the bytes in hand, and its slot is free again.
  function Delivered(h: Hand, r: Response, c: Callback): Hand
    requires 0 < r.id <= |h.table| && 16 + |r.payload| <= |h.inHand|
  {
    Hand(true, h.table[r.id - 1 := None], h.inHand[16 + |r.payload|..], h.log + [c])
  }

  // All whole responses in hand are dealt with in order, until one is refused.
  function AllTurns(S: Schema, h: Hand): (t: Hand)
    ensures t.connected ==> FirstResponse(t.inHand).None?
    decreases |h.inHand|
  {
    match FirstResponse(h.inHand)
    case None => h
    case Some(r) =>
      match CallFor(S, h.table, r)
      case None => Lost(h)
      case Some(c) => AllTurns(S, Delivered(h, r, c))
  }

  // One turn: nothing is left to do, or the response at the front is delivered, or the connection fails.
  ghost predicate OneTurn(S: Schema, h: Hand, more: bool, t: Hand)
  {
    match FirstResponse(h.inHand)
    case None => !more && t == h
    case Some(r) =>
      match CallFor(S, h.table, r)
      case None => !more && t == Lost(h)
      case Some(c) => more && t == Delivered(h, r, c)
  }

  // No header that the client comes to announces a length whose sum with its size wraps around, and no length
  // wraps around in the messages that it unpacks.
  predicate ResponsesFit(S: Schema, table: Table, data: Bytes)
    decreases |data|
  {
    HeadFits(S, table, data) &&
    match FirstResponse(data)
    case None => true
    case Some(r) => CallFor(S, table, r).Some? ==>
      ResponsesFit(S, table[r.id - 1 := None], data[16 + |r.payload|..])
  }

  predicate HeadFits(S: Schema, table: Table, data: Bytes)
  {
    && (|data| >= 16 ==> 16 + HeaderWord(data, 2) < TWO_32)
    && match FirstResponse(data)
       case None => true
       case Some(r) =>
         var a := Awaited(table, r.id);
         a.Some? && a.value.output < |S| ==> Unwrapped(S, a.value.output, r.payload)
  }

  // A turn is a step of all the turns.
  lemma TurnOfAll(S: Schema, h: Hand, more: bool, t: Hand)
    requires h.connected && ResponsesFit(S, h.table, h.inHand) && OneTurn(S, h, more, t)
    ensures if more then AllTurns(S, h) == AllTurns(S, t) && ResponsesFit(S, t.table, t.inHand) && t.connected
            else AllTurns(S, h) == t
  {
  }

  // ---- the same, told from the responses of the stream ----

  // The responses of a stream, by their frames alone, and the bytes after them.
  datatype Read = Read(responses: seq<Response>, rest: Bytes)

  function ParseResponses(data: Bytes): (p: Read)
    ensures FirstResponse(p.rest).None?
    decreases |data|
  {
    match FirstResponse(data)
    case None => Read([], data)
    case Some(r) =>
      var p := ParseResponses(data[16 + |r.payload|..]);
      p.(responses := [r] + p.responses)
  }

  // The k-th response leads to that call: its id is awaited, no earlier one had it, and its payload unpacks.
  ghost predicate Answers(S: Schema, table: Table, rs: seq<Response>, k: nat, c: Callback)
    requires k < |rs|
  {
    var id := rs[k].id;
    && 0 < id <= |table| && table[id - 1].Some? && (forall j :: 0 <= j < k ==> rs[j].id != id)
    && table[id - 1].value.output < |S| && c.data == table[id - 1].value.data
    && c.message.Some? && c.message == Decode(S, table[id - 1].value.output, rs[k].payload)
  }

  ghost predicate NoAnswer(S: Schema, table: Table, rs: seq<Response>, k: nat)
    requires k < |rs|
  {
    forall c :: !Answers(S, table, rs, k, c)
  }

  ghost predicate AllAnswer(S: Schema, table: Table, rs: seq<Response>, calls: seq<Callback>)
  {
    |calls| <= |rs| && forall k :: 0 <= k < |calls| ==> Answers(S, table, rs, k, calls[k])
  }

  // The slots that still wait after the first n responses.
  ghost function Remaining(table: Table, rs: seq<Response>, n: nat): (t: Table)
    requires n <= |rs|
    ensures |t| == |table|
  {
    seq(|table|, i requires 0 <= i < |table| => if exists k :: 0 <= k < n && rs[k].id == i + 1 then None else table[i])
  }

  // The responses in hand have called their closures in order.  If all of them did, the client stays connected and
  // no whole response is left; otherwise the first that did not has ended the connection, and the others got NULL.
  ghost predicate Settled(S: Schema, h: Hand, t: Hand, calls: seq<Callback>)
  {
    SettledBy(S, h, ParseResponses(h.inHand), t, calls)
  }

  ghost predicate SettledBy(S: Schema, h: Hand, p: Read, t: Hand, calls: seq<Callback>)
  {
    && AllAnswer(S, h.table, p.responses, calls)
    && var left := Remaining(h.table, p.responses, |calls|);
       if |calls| == |p.responses| then t == Hand(true, left, p.rest, h.log + calls)
       else NoAnswer(S, h.table, p.responses, |calls|) && t == Hand(false, [], [], h.log + calls + NullCalls(left))
  }

  lemma {:induction false} TurnsSettle(S: Schema, h: Hand) returns (calls: seq<Callback>)
    requires h.connected
    ensures Settled(S, h, AllTurns(S, h), calls)
    decreases |h.inHand|
  {
    var first := FirstResponse(h.inHand);
    if first.Some? && CallFor(S, h.table, first.value).Some? {
      var r, c := first.value, CallFor(S, h.table, first.value).value;
      var later := TurnsSettle(S, Delivered(h, r, c));
      calls := [c] + later;
      SettledBehind(S, h, r, c, AllTurns(S, h), later);
    } else {
      calls := [];
      NoneSettles(S, h);
    }
  }

  lemma NoneSettles(S: Schema, h: Hand)
    requires h.connected
    requires var first := FirstResponse(h.inHand); first.None? || CallFor(S, h.table, first.value).None?
    ensures Whole(Settled(S, h, AllTurns(S, h), []))
  {
    assert Remaining(h.table, ParseResponses(h.inHand).responses, 0) == h.table;
    assert h.log + [] == h.log;
  }

  lemma SettledBehind(S: Schema, h: Hand, r: Response, c: Callback, t: Hand, later: seq<Callback>)
    requires FirstResponse(h.inHand) == Some(r) && CallFor(S, h.table, r) == Some(c)
    requires 16 + |r.payload| <= |h.inHand| && Settled(S, Delivered(h, r, c), t, later)
    ensures Settled(S, h, t, [c] + later)
  {
    var p := ParseResponses(h.inHand[16 + |r.payload|..]);
    AnswersFirst(S, h, r, c, p, t, later, p.(responses := [r] + p.responses));
  }

  lemma AnswersFirst(S: Schema, h: Hand, r: Response, c: Callback, p: Read, t: Hand, later: seq<Callback>, q: Read)
    requires CallFor(S, h.table, r) == Some(c) && 16 + |r.payload| <= |h.inHand|
    requires SettledBy(S, Delivered(h, r, c), p, t, later) && q == Read([r] + p.responses, p.rest)
    ensures Whole(SettledBy(S, h, q, t, [c] + later))
  {
    var n := |later|;
    AllAnswerBehind(S, h.table, r, c, p.responses, later);
    RemainingBehind(h.table, r, p.responses, n);
    LogBehind(h.log, c, later);
    if n < |p.responses| { NoAnswerBehind(S, h.table, r, p.responses, n); }
    assert |[c] + later| == n + 1 && |q.responses| == |p.responses| + 1;
  }

  lemma LogBehind(log: seq<Callback>, c: Callback, later: seq<Callback>)
    ensures log + ([c] + later) == (log + [c]) + later
  {
  }

  lemma NoAnswerBehind(S: Schema, table: Table, r: Response, rs: seq<Response>, k: nat)
    requires Awaited(table, r.id).Some? && k < |rs|
    requires NoAnswer(S, table[r.id - 1 := None], rs, k)
    ensures NoAnswer(S, table, [r] + rs, k + 1)
  {
    var all, n := [r] + rs, k + 1;
    forall c ensures !Answers(S, table, all, n, c) { AnswersBehind(S, table, r, rs, k, c); }
  }

  // What a response behind the first one leads to does not change when the first one is taken away.
  lemma AnswersBehind(S: Schema, table: Table, r: Response, rs: seq<Response>, k: nat, c: Callback)
    requires Awaited(table, r.id).Some? && k < |rs|
    ensures Answers(S, table[r.id - 1 := None], rs, k, c) <==> Answers(S, table, [r] + rs, k + 1, c)
  {
    var all := [r] + rs;
    assert all[0] == r && forall j :: 0 <= j < |rs| ==> all[j + 1] == rs[j];
  }

  lemma AllAnswerBehind(S: Schema, table: Table, r: Response, c: Callback, rs: seq<Response>, later: seq<Callback>)
    requires CallFor(S, table, r) == Some(c) && AllAnswer(S, table[r.id - 1 := None], rs, later)
    ensures AllAnswer(S, table, [r] + rs, [c] + later)
  {
    var all, calls := [r] + rs, [c] + later;
    forall k | 0 <= k < |calls| ensures Answers(S, table, all, k, calls[k]) {
      if k > 0 { AnswersBehind(S, table, r, rs, k - 1, calls[k]); }
    }
  }

  lemma RemainingBehind(table: Table, r: Response, rs: seq<Response>, n: nat)
    requires Awaited(table, r.id).Some? && n <= |rs|
    ensures Remaining(table[r.id - 1 := None], rs, n) == Remaining(table, [r] + rs, n + 1)
  {
    var all, now := [r] + rs, table[r.id - 1 := None];
    var a, b := Remaining(now, rs, n), Remaining(table, all, n + 1);
    assert all[0] == r && forall j :: 0 <= j < |rs| ==> all[j + 1] == rs[j];
    forall i | 0 <= i < |a| ensures a[i] == b[i] {
      if k :| 0 <= k < n && rs[k].id == i + 1 { assert all[k + 1].id == i + 1; }
    }
  }

  // Exactly the closures that wait get NULL, one after the other.
  lemma {:induction false} NullCallsTell(a: Table, b: Table, slot: Option<Await>)
    ensures NullCalls(a + b) == NullCalls(a) + NullCalls(b)
    ensures NullCalls([slot]) == match slot case None => [] case Some(await) => [Callback(await.data, None)]
    ensures forall k :: 0 <= k < |NullCalls(a)| ==> NullCalls(a)[k].message.None?
    decreases |a| + |b|
  {
    assert [slot][..0] == [];
    if a != [] { NullCallsTell(a[..|a| - 1], [], slot); }
    if b == [] {
      assert a + b == a;
    } else {
      assert (a + b)[..|a + b| - 1] == a + b[..|b| - 1];
      NullCallsTell(a, b[..|b| - 1], slot);
    }
  }

  // ---- how the bytes of responses are cut into reads ----

  lemma FirstResponseExtends(data: Bytes, more: Bytes)
    requires FirstResponse(data).Some?
    ensures FirstResponse(data + more) == FirstResponse(data)
  {
    WordExtends(data, more, 0);
    WordExtends(data, more, 1);
    WordExtends(data, more, 2);
    WordExtends(data, more, 3);
    SliceOfFront(data, more, 16, 16 + HeaderWord(data, 2));
  }

  function More(h: Hand, more: Bytes): Hand
  {
    h.(inHand := h.inHand + more)
  }

  // Bytes that come later continue where the client stopped; once it has failed they do not matter.
  lemma {:induction false} TurnsContinue(S: Schema, h: Hand, more: Bytes)
    requires h.connected
    ensures var t := AllTurns(S, h);
            AllTurns(S, More(h, more)) == if t.connected then AllTurns(S, More(t, more)) else t
    decreases |h.inHand|
  {
    var first := FirstResponse(h.inHand);
    if first.Some? {
      FirstResponseExtends(h.inHand, more);
      var r := first.value;
      var c := CallFor(S, h.table, r);
      if c.Some? {
        RestOfFront(h.inHand, more, 16 + |r.payload|);
        assert Delivered(More(h, more), r, c.value) == More(Delivered(h, r, c.value), more);
        TurnsContinue(S, Delivered(h, r, c.value), more);
      }
    }
  }

  lemma {:induction false} ResponsesFitContinue(S: Schema, h: Hand, more: Bytes)
    requires h.connected && ResponsesFit(S, h.table, h.inHand + more)
    ensures ResponsesFit(S, h.table, h.inHand)
    ensures var t := AllTurns(S, h); t.connected ==> ResponsesFit(S, t.table, t.inHand + more)
    decreases |h.inHand|
  {
    var first := FirstResponse(h.inHand);
    if |h.inHand| >= 16 { WordExtends(h.inHand, more, 2); }
    if first.Some? {
      FirstResponseExtends(h.inHand, more);
      var r := first.value;
      var c := CallFor(S, h.table, r);
      if c.Some? {
        RestOfFront(h.inHand, more, 16 + |r.payload|);
        ResponsesFitContinue(S, Delivered(h, r, c.value), more);
      }
    }
  }

  // ---- the responses of a server ----

  predicate Answerable(r: Response)
  {
    r.status < TWO_32 && r.index < TWO_32 && r.id < TWO_32 && 16 + |r.payload| < TWO_32
  }

  // A response that is awaited and unpacks is delivered, and what comes behind it is dealt with next.
  lemma OneArrives(S: Schema, h: Hand, r: Response, c: Callback, more: Bytes)
    requires h.connected && Answerable(r) && CallFor(S, h.table, r) == Some(c) && h.inHand == ResponseBytes(r) + more
    ensures AllTurns(S, h) == AllTurns(S, Hand(true, h.table[r.id - 1 := None], more, h.log + [c]))
    ensures
      (Unwrapped(S, h.table[r.id - 1].value.output, r.payload) && ResponsesFit(S, h.table[r.id - 1 := None], more)) ==>
      ResponsesFit(S, h.table, h.inHand)
  {
    ResponseFound(r, more);
    assert h.inHand[16 + |r.payload|..] == more;
  }

  // A message that a server has packed for a request reaches the one who made it, as unpacking gives it back.
  lemma MessageArrives(S: Schema, h: Hand, r: Response, m: Message, a: Await)
    requires h.connected && Answerable(r) && Awaited(h.table, r.id) == Some(a)
    requires Good(S, m) && m.desc == a.output && r.payload == Encode(S, m) && h.inHand == ResponseBytes(r)
    ensures AllTurns(S, h) == Hand(true, h.table[r.id - 1 := None], [], h.log + [Callback(a.data, Some(Canon(S, m)))])
    ensures ResponsesFit(S, h.table, h.inHand)
  {
    MessageRoundTrip(S, m);
    PackedIsUnwrapped(S, m);
    assert h.inHand == h.inHand + [];
    OneArrives(S, h, r, Callback(a.data, Some(Canon(S, m))), []);
  }

  // The status of a response is never looked at: one that says that the service failed, and carries no message,
  // is delivered as a message with no fields set, unless a field that the type requires is reported missing.
  lemma FailureArrives(S: Schema, h: Hand, index: nat, id: nat, a: Await)
    requires h.connected && index < TWO_32 && id < TWO_32 && Awaited(h.table, id) == Some(a) && a.output < |S|
    requires h.inHand == [1, 0, 0, 0] + Le32(index) + [0, 0, 0, 0] + Le32(id)
    ensures AllTurns(S, h) ==
            if RequiredOk(S[a.output], [])
            then Hand(true, h.table[id - 1 := None], [],
                      h.log + [Callback(a.data, Some(Message(a.output, InitMembers(S[a.output]), [])))])
            else Lost(h)
  {
    var r := Response(1, index, id, []);
    assert Le32(1) == [1, 0, 0, 0] && Le32(0) == [0, 0, 0, 0];
    assert h.inHand == ResponseBytes(r) + [];
    ResponseFound(r, []);
    assert Lex([]) == Some([]);
    var c := Callback(a.data, Some(Message(a.output, InitMembers(S[a.output]), [])));
    if RequiredOk(S[a.output], []) {
      assert CallFor(S, h.table, r) == Some(c);
      OneArrives(S, h, r, c, []);
    }
  }
}
