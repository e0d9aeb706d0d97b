/** The `packet`-crate client (src/client.rs): the event stream that cuts
    the socket's bytes into frames, the shared receiver that holds the next
    reply as its "head" and hands every other event to the subscribers,
    and the validation `call_inner` applies to the reply it receives.

    The socket's bytes are one buffer, the asynchronous polling becomes a
    walk over the sequence of items the stream yields, and running out of
    items is `Pending`. */
module Client {
  import opened Bytes
  import opened Wrappers
  import opened Wire
  import opened Fields
  import opened Codes
  import Frame

  /** `client::Error`. */
  datatype ClientError = Io(kind: IoKind) | Pack(error: Error) | Reply(status: ErrorCode) | Unexpected

  type Received = (ControllerIndex, Frame.Event)

  type Item = Outcome<Received, ClientError>

  /** What one poll of the event stream yields. */
  datatype Polled = Ready(item: Item) | Ended

  predicate IsReplyEvent(e: Frame.Event)
  {
    e.CommandComplete? || e.CommandStatus?
  }

  /** Items that answer a call: replies and errors. */
  predicate IsReplyItem(it: Item)
  {
    it.Failure? || IsReplyEvent(it.value.1)
  }

  // ---------------------------------------------------------------------
  // EventStream: frames cut from the received bytes
  // ---------------------------------------------------------------------

  /** The items the stream yields for the bytes `buf`: one per frame, then
      the end of the stream once no byte is left. A decode error is the
      last item modelled. */
  function Items(buf: bytes): (r: seq<Polled>)
    ensures |r| >= 1
    ensures buf == [] <==> r == [Ended]
    ensures Frame.UnpackEvents(buf).Err? && buf != [] ==> r == [Ready(Failure(Pack(Frame.UnpackEvents(buf).error)))]
    ensures Frame.UnpackEvents(buf).Ok? ==> r[0] == Ready(Success(Frame.UnpackEvents(buf).value))
    decreases |buf|
  {
    if buf == [] then [Ended]
    else
      var d := Frame.UnpackEvents(buf);
      if d.Err? then [Ready(Failure(Pack(d.error)))]
      else [Ready(Success(d.value))] + Items(d.rest)
  }

  /** What the stream yields for frames sent back to back: each frame as
      it reads back, in order, then the end of the stream. */
  function Expected(frames: seq<(ControllerIndex, Frame.Event)>): (r: seq<Polled>)
    ensures |r| == |frames| + 1 && r[|frames|] == Ended
    ensures forall i | 0 <= i < |frames| :: r[i] == Ready(Success(Echo(frames[i])))
  {
    if frames == [] then [Ended] else [Ready(Success(Echo(frames[0])))] + Expected(frames[1..])
  }

  predicate Packable(f: (ControllerIndex, Frame.Event))
  {
    Frame.WellFormedEvent(f.1) && |Frame.EncodeEventBody(f.1)| < 0x1_0000
  }

  /** Frames sent back to back come out of the stream one by one, in order,
      followed by the end of the stream. */
  lemma {:induction false} ItemsOfFrames(frames: seq<(ControllerIndex, Frame.Event)>)
    requires forall i | 0 <= i < |frames| :: Packable(frames[i])
    ensures Items(Packed(frames)) == Expected(frames)
    decreases |frames|
  {
    if frames != [] {
      var f := frames[0];
      var rest := Packed(frames[1..]);
      var buf := Packed(frames);
      assert buf == Frame.PackEvent(f.0, f.1) + rest;
      assert Packable(f);
      Frame.EventFrameRoundTrip(f.0, f.1, rest);
      assert Items(buf) == [Ready(Success(Echo(f)))] + Items(rest);
      assert forall i | 0 <= i < |frames[1..]| :: Packable(frames[1..][i]) by {
        forall i | 0 <= i < |frames[1..]| ensures Packable(frames[1..][i]) {
          assert frames[1..][i] == frames[i + 1];
        }
      }
      ItemsOfFrames(frames[1..]);
    }
  }

  /** The frames, packed back to back. */
  function Packed(frames: seq<(ControllerIndex, Frame.Event)>): bytes
  {
    if frames == [] then [] else Frame.PackEvent(frames[0].0, frames[0].1) + Packed(frames[1..])
  }

  /** What a frame reads back as: the index goes through its u16 form. */
  function Echo(f: (ControllerIndex, Frame.Event)): Received
  {
    (IndexFromU16(IndexToU16(f.0)), f.1)
  }

  /** Three copies of the CommandComplete frame of the stream test read
      back as three identical replies, then the end of the stream. */
  lemma StreamRecvExample()
    ensures var frame: bytes := [0x01, 0x00, 0xFF, 0xFF, 0x06, 0x00, 0x01, 0x00, 0x00, 0x01, 0x13, 0x00];
            var item := Ready(Success((NonController, Frame.CommandComplete(0x0001, SUCCESS, [0x01, 0x13, 0x00]))));
            Items(frame + frame + frame) == [item, item, item, Ended]
  {
    var frame: bytes := [0x01, 0x00, 0xFF, 0xFF, 0x06, 0x00, 0x01, 0x00, 0x00, 0x01, 0x13, 0x00];
    var e := Frame.CommandComplete(0x0001, SUCCESS, [0x01, 0x13, 0x00]);
    var f := (NonController, e);
    var body: bytes := [0x01, 0x00, 0x00, 0x01, 0x13, 0x00];
    assert Frame.EncodeEventBody(e) == body;
    assert EncodeIndex(NonController) == [0xFF, 0xFF];
    assert Frame.PackEvent(NonController, e) == [0x01, 0x00] + [0xFF, 0xFF] + [0x06, 0x00] + body;
    assert Frame.PackEvent(NonController, e) == frame;
    assert Packed(Triple(f)) == frame + frame + frame by {
      PackedThree(f);
    }
    ItemsOfFrames(Triple(f));
    assert Echo(f) == f;
    ExpectedThree(f);
  }

  lemma ExpectedThree(f: (ControllerIndex, Frame.Event))
    ensures var item := Ready(Success(Echo(f)));
            Expected(Triple(f)) == [item, item, item, Ended]
  {
    assert [f, f, f][1..] == [f, f] && [f, f][1..] == [f] && [f][1..] == [];
    var item := Ready(Success(Echo(f)));
    assert Expected([f]) == [item, Ended];
    assert Expected([f, f]) == [item, item, Ended];
  }

  function Triple(f: (ControllerIndex, Frame.Event)): seq<(ControllerIndex, Frame.Event)>
  {
    [f, f, f]
  }

  lemma PackedThree(f: (ControllerIndex, Frame.Event))
    ensures Packed(Triple(f)) == Frame.PackEvent(f.0, f.1) + Frame.PackEvent(f.0, f.1) + Frame.PackEvent(f.0, f.1)
  {
    var p := Frame.PackEvent(f.0, f.1);
    var one: seq<(ControllerIndex, Frame.Event)> := [f];
    var two := [f] + one;
    var three := [f] + two;
    assert Triple(f) == three;
    var q1 := Packed(one);
    var q2 := Packed(two);
    var q3 := Packed(three);
    assert q1 == p by { PackedCons(f, []); assert [f] + [] == one; }
    assert q2 == p + q1 by { PackedCons(f, one); }
    assert q3 == p + q2 by { PackedCons(f, two); }
    assert p + (p + p) == p + p + p by { ThreeParts(p); }
  }

  /** Concatenation regroups freely. */
  lemma ThreeParts(p: bytes)
    ensures p + (p + p) == p + p + p
  { }


  /** Packing a frame in front of others puts its bytes in front. */
  lemma PackedCons(f: (ControllerIndex, Frame.Event), rest: seq<(ControllerIndex, Frame.Event)>)
    ensures Packed([f] + rest) == Frame.PackEvent(f.0, f.1) + Packed(rest)
  {
    assert ([f] + rest)[0] == f;
    assert ([f] + rest)[1..] == rest;
  }

  // ---------------------------------------------------------------------
  // The shared receiver: Recv and Next
  // ---------------------------------------------------------------------

  type QueueId = nat

  /** `RecvInner` without the stream and the wakers. */
  datatype Inner = Inner(head: Option<Item>, subscribers: seq<QueueId>)

  /** Only replies and errors are ever parked as the head. */
  predicate Valid(inner: Inner)
  {
    inner.head.Some? ==> IsReplyItem(inner.head.value)
  }

  datatype Poll<T> = Pending | Done(value: T)

  /** An event handed to every subscriber (send failures are ignored). */
  datatype Fanout = Fanout(event: Received, to: seq<QueueId>)

  datatype Polling<T> = Polling(result: Poll<T>, inner: Inner, rest: seq<Polled>, fanouts: seq<Fanout>)

  function Lift(it: Item): Outcome<Option<Received>, ClientError>
  {
    if it.Success? then Success(Some(it.value)) else Failure(it.error)
  }

  /** `Recv::poll`: a parked head is returned at once; otherwise events are
      fanned out until a reply or an error arrives, which is returned; the
      end of the stream clears the subscribers and yields `None`. */
  function Recv(inner: Inner, stream: seq<Polled>): (r: Polling<Outcome<Option<Received>, ClientError>>)
    requires Valid(inner)
    ensures Valid(r.inner) && r.inner.head.None?
    ensures |r.rest| <= |stream| && r.rest == stream[|stream| - |r.rest|..]
    ensures r.result.Done? && r.result.value.Success? && r.result.value.value.Some? ==>
              IsReplyEvent(r.result.value.value.value.1)
    ensures r.result.Pending? ==> r.rest == [] && inner.head.None?
    ensures inner.head.Some? ==> r == Polling(Done(Lift(inner.head.value)), Inner(None, inner.subscribers), stream, [])
    ensures forall k | 0 <= k < |r.fanouts| :: r.fanouts[k].to == inner.subscribers
    decreases |stream|
  {
    if inner.head.Some? then Polling(Done(Lift(inner.head.value)), Inner(None, inner.subscribers), stream, [])
    else if stream == [] then Polling(Pending, inner, [], [])
    else match stream[0]
      case Ended => Polling(Done(Success(None)), Inner(None, []), stream[1..], [])
      case Ready(it) =>
        if IsReplyItem(it) then Recv(Inner(Some(it), inner.subscribers), stream[1..])
        else
          var r := Recv(inner, stream[1..]);
          Polling(r.result, r.inner, r.rest, [Fanout(it.value, inner.subscribers)] + r.fanouts)
  }

  /** `Next::poll`, which drives `EventSubscribe`: it fans events out like
      `Recv`, but leaves a reply or an error parked as the head for the
      caller waiting on `Recv`, and stays pending while one is parked. */
  function NextEvent(inner: Inner, stream: seq<Polled>): (r: Polling<Option<()>>)
    requires Valid(inner)
    ensures Valid(r.inner)
    ensures |r.rest| <= |stream| && r.rest == stream[|stream| - |r.rest|..]
    ensures inner.head.Some? ==> r == Polling(Pending, inner, stream, [])
    ensures r.result.Done? ==> r.result.value.None? && r.inner == Inner(None, [])
    ensures forall k | 0 <= k < |r.fanouts| :: r.fanouts[k].to == inner.subscribers
    decreases |stream|
  {
    if inner.head.Some? then Polling(Pending, inner, stream, [])
    else if stream == [] then Polling(Pending, inner, [], [])
    else match stream[0]
      case Ended => Polling(Done(None), Inner(None, []), stream[1..], [])
      case Ready(it) =>
        if IsReplyItem(it) then NextEvent(Inner(Some(it), inner.subscribers), stream[1..])
        else
          var r := NextEvent(inner, stream[1..]);
          Polling(r.result, r.inner, r.rest, [Fanout(it.value, inner.subscribers)] + r.fanouts)
  }

  /** The events before the first reply, error or end of the stream. */
  function LeadingEvents(stream: seq<Polled>): (r: seq<Received>)
    ensures |r| <= |stream|
    ensures forall k | 0 <= k < |r| :: stream[k].Ready? && !IsReplyItem(stream[k].item) && stream[k].item.value == r[k]
  {
    if stream == [] || stream[0].Ended? || IsReplyItem(stream[0].item) then []
    else [stream[0].item.value] + LeadingEvents(stream[1..])
  }

  /** Whatever the stream holds, `Recv` from an empty head hands exactly the
      leading events to every subscriber, one fan-out each, in stream order. */
  lemma {:induction false} RecvFansOutLeadingEvents(subscribers: seq<QueueId>, stream: seq<Polled>)
    ensures var r := Recv(Inner(None, subscribers), stream);
            && |r.fanouts| == |LeadingEvents(stream)|
            && (forall k | 0 <= k < |r.fanouts| :: r.fanouts[k] == Fanout(LeadingEvents(stream)[k], subscribers))
    decreases |stream|
  {
    var inner := Inner(None, subscribers);
    if stream == [] || stream[0].Ended? || IsReplyItem(stream[0].item) {
    } else {
      var tail := stream[1..];
      RecvFansOutLeadingEvents(subscribers, tail);
      var r0 := Recv(inner, tail);
      var f := Fanout(stream[0].item.value, subscribers);
      assert stream[0].Ready? && !IsReplyItem(stream[0].item);
      assert Recv(inner, stream) == Polling(r0.result, r0.inner, r0.rest, [f] + r0.fanouts);
      assert LeadingEvents(stream) == [stream[0].item.value] + LeadingEvents(tail);
      forall k | 0 <= k < |[f] + r0.fanouts|
        ensures ([f] + r0.fanouts)[k] == Fanout(LeadingEvents(stream)[k], subscribers)
      {
        if k > 0 {
          assert ([f] + r0.fanouts)[k] == r0.fanouts[k - 1];
        }
      }
    }
  }

  /** When the first reply sits at index `j`, the leading events are the `j`
      items before it. */
  lemma {:induction false} LeadingEventsBeforeReply(stream: seq<Polled>, j: nat)
    requires j < |stream| && stream[j].Ready? && IsReplyItem(stream[j].item)
    requires forall k | 0 <= k < j :: stream[k].Ready? && stream[k].item.Success? && !IsReplyItem(stream[k].item)
    ensures |LeadingEvents(stream)| == j
    ensures forall k | 0 <= k < j :: LeadingEvents(stream)[k] == stream[k].item.value
    decreases j
  {
    if j > 0 {
      var tail := stream[1..];
      forall k | 0 <= k < j - 1
        ensures tail[k].Ready? && tail[k].item.Success? && !IsReplyItem(tail[k].item)
      {
        assert tail[k] == stream[k + 1];
      }
      LeadingEventsBeforeReply(tail, j - 1);
      assert LeadingEvents(stream) == [stream[0].item.value] + LeadingEvents(tail);
    }
  }

  /** `Recv` returns the first reply or error in the stream and hands each
      event before it to every subscriber, in stream order. */
  lemma {:induction false} RecvFindsFirstReply(subscribers: seq<QueueId>, stream: seq<Polled>, j: nat)
    requires j < |stream| && stream[j].Ready? && IsReplyItem(stream[j].item)
    requires forall k | 0 <= k < j :: stream[k].Ready? && stream[k].item.Success? && !IsReplyItem(stream[k].item)
    ensures var r := Recv(Inner(None, subscribers), stream);
            && r.result == Done(Lift(stream[j].item))
            && r.rest == stream[j + 1..]
            && r.inner == Inner(None, subscribers)
            && |r.fanouts| == j
            && (forall k | 0 <= k < j :: r.fanouts[k] == Fanout(stream[k].item.value, subscribers))
    decreases j
  {
    var inner := Inner(None, subscribers);
    if j == 0 {
      ReplyFirst(inner, stream);
    } else {
      var tail := stream[1..];
      forall k | 0 <= k < j - 1
        ensures tail[k].Ready? && tail[k].item.Success? && !IsReplyItem(tail[k].item)
      {
        assert tail[k] == stream[k + 1];
      }
      RecvFindsFirstReply(subscribers, tail, j - 1);
      var r0 := Recv(inner, tail);
      EventFirst(inner, stream);
      var f := Fanout(stream[0].item.value, subscribers);
      assert Recv(inner, stream) == Polling(r0.result, r0.inner, r0.rest, [f] + r0.fanouts);
      assert tail[j..] == stream[j + 1..];
      forall k | 0 <= k < j
        ensures ([f] + r0.fanouts)[k] == Fanout(stream[k].item.value, subscribers)
      {
        if k > 0 {
          assert ([f] + r0.fanouts)[k] == r0.fanouts[k - 1];
          assert tail[k - 1] == stream[k];
        }
      }
    }
  }

  /** A reply or an error at the front of the stream is returned at once. */
  lemma ReplyFirst(inner: Inner, stream: seq<Polled>)
    requires inner.head.None? && stream != [] && stream[0].Ready? && IsReplyItem(stream[0].item)
    ensures Recv(inner, stream)
            == Polling(Done(Lift(stream[0].item)), Inner(None, inner.subscribers), stream[1..], [])
  {
  }

  /** An event at the front of the stream is fanned out before the rest is
      received. */
  lemma EventFirst(inner: Inner, stream: seq<Polled>)
    requires inner.head.None? && stream != [] && stream[0].Ready? && !IsReplyItem(stream[0].item)
    ensures var r0 := Recv(inner, stream[1..]);
            Recv(inner, stream)
            == Polling(r0.result, r0.inner, r0.rest, [Fanout(stream[0].item.value, inner.subscribers)] + r0.fanouts)
  {
  }

  /** Nothing is lost when an event subscriber polls first: `Next` parks
      the reply it meets, and the caller's `Recv` then returns exactly what
      it would have returned on its own, with the same events fanned out. */
  lemma {:induction false} NextKeepsReply(inner: Inner, stream: seq<Polled>)
    requires Valid(inner) && inner.head.None?
    requires NextEvent(inner, stream).result.Pending?
    ensures var n := NextEvent(inner, stream);
            var r := Recv(n.inner, n.rest);
            && (n.inner.head.Some? ==> r.result == Recv(inner, stream).result && r.rest == Recv(inner, stream).rest)
            && (n.inner.head.Some? ==> n.fanouts == Recv(inner, stream).fanouts)
    decreases |stream|
  {
    if stream != [] && stream[0].Ready? && !IsReplyItem(stream[0].item) {
      NextKeepsReply(inner, stream[1..]);
    }
  }

  // ---------------------------------------------------------------------
  // call_inner
  // ---------------------------------------------------------------------

  /** A `WriteZero` error while sending is tolerated: an error reply is
      expected to follow. Every other send error is returned. */
  function Sent(r: Outcome<(), ClientError>): (s: Outcome<(), ClientError>)
    ensures s.Success? <==> r.Success? || r.error == ClientError.Io(WriteZero)
    ensures s.Failure? ==> s == r
  {
    if r.Failure? && r.error == ClientError.Io(WriteZero) then Success(()) else r
  }

  /** `call_inner` after the send: the reply must carry the request's
      index and the expected code; a CommandComplete must be a success to
      be decoded, and a CommandStatus always becomes `Reply(status)`.
      `received` is what `Recv` yielded; the end of the stream is a panic
      (`unwrap`), so it is excluded. */
  function CallInner<R>(index: ControllerIndex, expected: Frame.CommandCode, send: Outcome<(), ClientError>,
                        received: Outcome<Option<Received>, ClientError>,
                        decode: bytes -> Parsed<R>): (r: Outcome<R, ClientError>)
    requires Sent(send).Success? ==> received.Success? ==> received.value.Some? && IsReplyEvent(received.value.value.1)
    ensures Sent(send).Failure? ==> r == Failure(send.error)
    ensures Sent(send).Success? && received.Failure? ==> r == Failure(received.error)
    ensures Sent(send).Success? && received.Success? && received.value.value.0 != index ==> r == Failure(ClientError.Unexpected)
    ensures Sent(send).Success? && received.Success? && received.value.value.1.opcode != expected ==> r == Failure(ClientError.Unexpected)
    ensures (Sent(send).Success? && received.Success? && received.value.value.1.CommandComplete? &&
             !Succeeded(received.value.value.1.status)) ==> r == Failure(ClientError.Unexpected)
    ensures Sent(send).Success? && received.Success? && received.value.value.0 == index &&
              received.value.value.1.CommandStatus? && received.value.value.1.opcode == expected ==>
              r == Failure(Reply(received.value.value.1.status))
    ensures r.Success? <==>
              && Sent(send).Success? && received.Success?
              && received.value.value.0 == index
              && received.value.value.1.CommandComplete?
              && received.value.value.1.opcode == expected
              && Succeeded(received.value.value.1.status)
              && decode(received.value.value.1.data).Ok?
    ensures r.Success? ==> r.value == decode(received.value.value.1.data).value
  {
    if Sent(send).Failure? then Failure(send.error)
    else if received.Failure? then Failure(received.error)
    else
      var (i, event) := received.value.value;
      if i != index then Failure(ClientError.Unexpected)
      else if event.CommandComplete? then
        if event.opcode != expected then Failure(ClientError.Unexpected)
        else if !Succeeded(event.status) then Failure(ClientError.Unexpected)
        else match decode(event.data)
          case Ok(v, _) => Success(v)
          case Err(e, _) => Failure(Pack(e))
      else if event.opcode != expected then Failure(ClientError.Unexpected)
      else Failure(Reply(event.status))
  }

  /** A call whose successful CommandComplete frame is the next thing on
      the socket gets the decoded reply, after every event in front of it
      has reached the subscribers. */
  lemma CallReceivesItsReply<R>(index: ControllerIndex, code: Frame.CommandCode, data: bytes,
                                decode: bytes -> Parsed<R>, subscribers: seq<QueueId>,
                                events: seq<(ControllerIndex, Frame.Event)>)
    requires index != ControllerId(0xFFFF) && |data| + 3 < 0x1_0000
    requires forall i | 0 <= i < |events| :: Packable(events[i]) && !IsReplyEvent(events[i].1)
    ensures var reply := (index, Frame.CommandComplete(code, SUCCESS, data));
            var r := Recv(Inner(None, subscribers), Items(Packed(events + [reply])));
            && r.result == Done(Success(Some(reply)))
            && |r.fanouts| == |events|
            && (forall k | 0 <= k < |events| :: r.fanouts[k] == Fanout(Echo(events[k]), subscribers))
            && CallInner(index, code, Success(()), r.result.value, decode)
               == (if decode(data).Ok? then Success(decode(data).value) else Failure(Pack(decode(data).error)))
  {
    var reply := (index, Frame.CommandComplete(code, SUCCESS, data));
    assert |Frame.EncodeEventBody(reply.1)| == 3 + |data|;
    assert Echo(reply) == reply;
    StreamOfCall(events, reply);
    RecvAfterEvents(subscribers, Items(Packed(events + [reply])), events, reply);
    ReplyAccepted(index, code, data, decode);
  }

  /** The stream of some frames followed by the reply. */
  lemma StreamOfCall(events: seq<Received>, reply: Received)
    requires forall i | 0 <= i < |events| :: Packable(events[i])
    requires Packable(reply) && Echo(reply) == reply
    ensures var stream := Items(Packed(events + [reply]));
            && |stream| == |events| + 2
            && stream[|events|] == Ready(Success(reply))
            && (forall k | 0 <= k < |events| :: stream[k] == Ready(Success(Echo(events[k]))))
  {
    var frames := events + [reply];
    forall i | 0 <= i < |frames| ensures Packable(frames[i]) {
      if i < |events| {
        assert frames[i] == events[i];
      }
    }
    ItemsOfFrames(frames);
    assert frames[|events|] == reply;
    forall k | 0 <= k < |events| ensures Expected(frames)[k] == Ready(Success(Echo(events[k]))) {
      assert frames[k] == events[k];
    }
  }

  lemma RecvAfterEvents(subscribers: seq<QueueId>, stream: seq<Polled>, events: seq<Received>, reply: Received)
    requires |events| < |stream| && stream[|events|] == Ready(Success(reply)) && IsReplyEvent(reply.1)
    requires forall k | 0 <= k < |events| :: stream[k] == Ready(Success(Echo(events[k]))) && !IsReplyEvent(events[k].1)
    ensures var r := Recv(Inner(None, subscribers), stream);
            && r.result == Done(Success(Some(reply)))
            && |r.fanouts| == |events|
            && (forall k | 0 <= k < |events| :: r.fanouts[k] == Fanout(Echo(events[k]), subscribers))
  {
    RecvFindsFirstReply(subscribers, stream, |events|);
  }

  lemma ReplyAccepted<R>(index: ControllerIndex, code: Frame.CommandCode, data: bytes, decode: bytes -> Parsed<R>)
    ensures var received := Success(Some((index, Frame.CommandComplete(code, SUCCESS, data))));
            CallInner(index, code, Success(()), received, decode)
            == (if decode(data).Ok? then Success(decode(data).value) else Failure(Pack(decode(data).error)))
  {
  }
}
