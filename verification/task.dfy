/** The `btmgmt` client's I/O loop (`Task::run` in btmgmt/src/client.rs)
    and the two client operations that talk to it (`Client::call`,
    `Client::events`), as a sequential state machine.

    The loop owns a map of pending calls keyed by (controller index,
    command code) and a list of event queues. Each turn of the loop takes
    one input: a datagram from the socket, a failed socket read, an
    outgoing command from a caller, a new subscriber, or the closing of the
    ingress channel. Channels are represented by identities; whether a
    reply channel or a queue is still open when the loop sends on it is
    part of the input. */
module Task {
  import opened Bytes
  import opened Wrappers
  import opened Wire
  import opened Fields
  import opened Codes
  import Frame
  import MgmtFrame

  /** The one-shot reply channel of one call. */
  type CallerId = nat
  /** The event queue of one subscriber. */
  type QueueId = nat

  type Key = (ControllerIndex, MgmtCommandCode)

  datatype State = State(pending: map<Key, CallerId>, queues: seq<QueueId>)

  const Initial: State := State(map[], [])

  datatype Input =
    /** One datagram read from the socket. `callerGone` says whether the
        receiver of the call this reply answers has been dropped; `closed`
        are the queues whose receiver has been dropped. */
    | Inbound(frame: bytes, callerGone: bool, closed: set<QueueId>)
    /** The socket read failed. */
    | RecvFailed
    /** A message from `Client::call`; `written` says whether writing the
        frame to the socket succeeded. */
    | Outgoing(index: ControllerIndex, code: MgmtCommandCode, frame: bytes, caller: CallerId, written: bool)
    /** `Client::events` registered a new queue. */
    | Subscribe(queue: QueueId)
    /** Every `Client` is gone, so the ingress channel yields `None`. */
    | IngressClosed

  datatype Effect =
    | Wrote(frame: bytes)
    | Replied(caller: CallerId, status: ErrorCode, data: Option<bytes>)
    | Broadcast(index: ControllerIndex, event: MgmtFrame.Event, to: seq<QueueId>)
    | Dropped
    | Subscribed

  datatype TaskError = ChannelSend | ReceivedData(error: Error) | Io

  datatype Turn = Next(state: State, effect: Effect) | Stop(result: Outcome<(), TaskError>)

  /** The decoder panics on a complete header with an unknown event code;
      only inputs that avoid the panic are modelled. */
  predicate Decodable(i: Input)
  {
    i.Inbound? && |i.frame| >= 6 ==> IsEventCode(Frame.LE16(i.frame, 0))
  }

  predicate IsReply(e: MgmtFrame.Event)
  {
    e.CommandComplete? || e.CommandStatus?
  }

  /** The queues that are still open, in their original order: the effect
      of `Vec::retain` with a send that fails on closed queues. */
  function Keep(q: seq<QueueId>, closed: set<QueueId>): (r: seq<QueueId>)
    ensures |r| <= |q|
    ensures forall x :: x in r <==> x in q && x !in closed
    ensures (forall i | 0 <= i < |q| :: q[i] !in closed) ==> r == q
  {
    if q == [] then []
    else (if q[0] in closed then [] else [q[0]]) + Keep(q[1..], closed)
  }

  /** Retaining keeps relative order: it distributes over concatenation. */
  lemma {:induction false} KeepDistributes(a: seq<QueueId>, b: seq<QueueId>, closed: set<QueueId>)
    ensures Keep(a + b, closed) == Keep(a, closed) + Keep(b, closed)
    decreases |a|
  {
    if a == [] {
      assert a + b == b;
    } else {
      assert (a + b)[1..] == a[1..] + b;
      KeepDistributes(a[1..], b, closed);
    }
  }

  /** What the loop does with one decoded event. */
  function Route(s: State, index: ControllerIndex, event: MgmtFrame.Event, callerGone: bool,
                 closed: set<QueueId>): (r: Turn)
    ensures IsReply(event) && (index, event.opcode) !in s.pending ==> r == Next(s, Dropped)
    ensures IsReply(event) && (index, event.opcode) in s.pending ==>
              (r.Stop? <==> callerGone) && (r.Stop? ==> r.result == Failure(TaskError.ChannelSend))
    ensures IsReply(event) && (index, event.opcode) in s.pending && r.Next? ==>
              && r.state.queues == s.queues
              && r.state.pending.Keys == s.pending.Keys - {(index, event.opcode)}
              && (forall k | k in r.state.pending :: r.state.pending[k] == s.pending[k])
              && r.effect.Replied?
              && r.effect.caller == s.pending[(index, event.opcode)]
              && r.effect.status == event.status
              && (r.effect.data.Some? <==> event.CommandComplete?)
              && (event.CommandComplete? ==> r.effect.data.value == event.data)
    ensures !IsReply(event) ==>
              && r.Next?
              && r.state.pending == s.pending
              && (forall x :: x in r.state.queues <==> x in s.queues && x !in closed)
              && r.effect == Broadcast(index, event, r.state.queues)
  {
    if IsReply(event) then
      var key := (index, event.opcode);
      if key !in s.pending then Next(s, Dropped)
      else if callerGone then Stop(Failure(TaskError.ChannelSend))
      else
        var data := if event.CommandComplete? then Some(event.data) else None;
        Next(State(s.pending - {key}, s.queues), Replied(s.pending[key], event.status, data))
    else
      var kept := Keep(s.queues, closed);
      Next(State(s.pending, kept), Broadcast(index, event, kept))
  }

  /** One turn of the loop. */
  function Step(s: State, i: Input): (r: Turn)
    requires Decodable(i)
    ensures i.Inbound? && MgmtFrame.UnpackEvent(i.frame).Err? ==>
              r == Stop(Failure(ReceivedData(MgmtFrame.UnpackEvent(i.frame).error)))
    ensures i.RecvFailed? ==> r == Stop(Failure(TaskError.Io))
    ensures i.Outgoing? && !i.written ==> r == Stop(Failure(TaskError.Io))
    ensures i.Outgoing? && i.written ==>
              && r.Next?
              && r.effect == Wrote(i.frame)
              && r.state.queues == s.queues
              && r.state.pending.Keys == s.pending.Keys + {(i.index, i.code)}
              && r.state.pending[(i.index, i.code)] == i.caller
              && (forall k | k in s.pending && k != (i.index, i.code) :: r.state.pending[k] == s.pending[k])
    ensures i.Subscribe? ==> r == Next(State(s.pending, s.queues + [i.queue]), Subscribed)
    ensures r == Stop(Success(())) <==> i.IngressClosed?
  {
    match i
    case Inbound(frame, callerGone, closed) =>
      var d := MgmtFrame.UnpackEvent(frame);
      if d.Err? then Stop(Failure(ReceivedData(d.error)))
      else Route(s, d.value.0, d.value.1, callerGone, closed)
    case RecvFailed => Stop(Failure(TaskError.Io))
    case Outgoing(index, code, frame, caller, written) =>
      if written then Next(State(s.pending[(index, code) := caller], s.queues), Wrote(frame))
      else Stop(Failure(TaskError.Io))
    case Subscribe(q) => Next(State(s.pending, s.queues + [q]), Subscribed)
    case IngressClosed => Stop(Success(()))
  }

  /** A turn adds no reply channel to the pending map but the one of the
      command it writes. */
  lemma StepKeepsCallers(s: State, i: Input)
    requires Decodable(i)
    ensures var r := Step(s, i);
            r.Next? ==> r.state.pending.Values <= s.pending.Values + (if i.Outgoing? then {i.caller} else {})
  {
  }

  /** A turn that replies removes the entry of the caller it replies to,
      and nothing else. */
  lemma StepReplyRemoves(s: State, i: Input)
    requires Decodable(i)
    ensures var r := Step(s, i);
            r.Next? && r.effect.Replied? ==>
              exists k :: k in s.pending && k !in r.state.pending && s.pending[k] == r.effect.caller
                          && r.state.pending == s.pending - {k}
  {
    if i.Inbound? {
      var d := MgmtFrame.UnpackEvent(i.frame);
      if d.Ok? {
        var r := Route(s, d.value.0, d.value.1, i.callerGone, i.closed);
        if r.Next? && r.effect.Replied? {
          var k := (d.value.0, d.value.1.opcode);
          assert r.state.pending == s.pending - {k};
        }
      }
    }
  }

  /** With distinct channels, the caller a turn replies to was pending
      and is pending no more. */
  lemma ReplyRetiresCaller(s: State, i: Input)
    requires Decodable(i) && Injective(s.pending)
    ensures var r := Step(s, i);
            r.Next? && r.effect.Replied? ==> r.effect.caller in s.pending.Values && r.effect.caller !in r.state.pending.Values
  {
    var r := Step(s, i);
    if r.Next? && r.effect.Replied? {
      StepReplyRemoves(s, i);
      var k :| k in s.pending && k !in r.state.pending && s.pending[k] == r.effect.caller && r.state.pending == s.pending - {k};
      forall k2 | k2 in r.state.pending
        ensures r.state.pending[k2] != r.effect.caller
      {
        assert s.pending[k2] == r.state.pending[k2];
      }
    }
  }

  predicate AllDecodable(inputs: seq<Input>)
  {
    forall i | 0 <= i < |inputs| :: Decodable(inputs[i])
  }

  datatype Trace = Trace(state: State, effects: seq<Effect>, result: Option<Outcome<(), TaskError>>)

  /** The loop over a sequence of inputs, up to the input that ends it.
      `result` is `None` when the inputs run out first. */
  function Run(s: State, inputs: seq<Input>): (r: Trace)
    requires AllDecodable(inputs)
    ensures |r.effects| <= |inputs|
    ensures r.result.None? <==> |r.effects| == |inputs|
    ensures r.result == Some(Success(())) <==> |r.effects| < |inputs| && inputs[|r.effects|].IngressClosed?
    decreases |inputs|
  {
    if inputs == [] then Trace(s, [], None)
    else
      match Step(s, inputs[0])
      case Stop(result) => Trace(s, [], Some(result))
      case Next(s', e) =>
        var t := Run(s', inputs[1..]);
        Trace(t.state, [e] + t.effects, t.result)
  }

  function RequestCallers(inputs: seq<Input>): set<CallerId>
  {
    set i | 0 <= i < |inputs| && inputs[i].Outgoing? :: inputs[i].caller
  }

  /** Every reply goes to a caller that was pending at the start or that
      sent a command along the way. */
  lemma {:induction false} RepliesAnswerRequests(s: State, inputs: seq<Input>)
    requires AllDecodable(inputs)
    ensures forall k | 0 <= k < |Run(s, inputs).effects| && Run(s, inputs).effects[k].Replied? ::
              Run(s, inputs).effects[k].caller in s.pending.Values + RequestCallers(inputs)
    decreases |inputs|
  {
    if inputs != [] {
      var step := Step(s, inputs[0]);
      if step.Next? {
        var rest := inputs[1..];
        StepKeepsCallers(s, inputs[0]);
        TailDecodable(inputs);
        RepliesAnswerRequests(step.state, rest);
        assert RequestCallers(rest) <= RequestCallers(inputs) by {
          forall c | c in RequestCallers(rest) ensures c in RequestCallers(inputs) {
            var i :| 0 <= i < |rest| && rest[i].Outgoing? && rest[i].caller == c;
            assert inputs[i + 1] == rest[i];
          }
        }
        if inputs[0].Outgoing? {
          assert inputs[0].caller in RequestCallers(inputs);
        }
      }
    }
  }

  /** Each pending call has its own reply channel. */
  predicate Injective(m: map<Key, CallerId>)
  {
    forall k1, k2 | k1 in m && k2 in m && m[k1] == m[k2] :: k1 == k2
  }

  /** Every call creates a fresh one-shot channel: the callers of the
      outgoing inputs are distinct and none of them is already pending. */
  predicate FreshCallers(s: State, inputs: seq<Input>)
  {
    && Injective(s.pending)
    && (forall i, j | 0 <= i < j < |inputs| && inputs[i].Outgoing? && inputs[j].Outgoing? ::
          inputs[i].caller != inputs[j].caller)
    && (forall i | 0 <= i < |inputs| && inputs[i].Outgoing? :: inputs[i].caller !in s.pending.Values)
  }

  lemma FreshAfterStep(s: State, inputs: seq<Input>)
    requires AllDecodable(inputs) && inputs != [] && FreshCallers(s, inputs)
    requires Step(s, inputs[0]).Next?
    ensures FreshCallers(Step(s, inputs[0]).state, inputs[1..])
  {
    var s' := Step(s, inputs[0]).state;
    StepKeepsCallers(s, inputs[0]);
    if inputs[0].Outgoing? {
      assert inputs[0].caller !in s.pending.Values;
    }
    InjectiveAfterStep(s, inputs[0]);
    LaterCallersFresh(s, s'.pending, inputs);
  }

  /** A turn keeps the pending channels distinct when the channel it adds
      is new. */
  lemma InjectiveAfterStep(s: State, i: Input)
    requires Decodable(i) && Injective(s.pending) && Step(s, i).Next?
    requires i.Outgoing? ==> i.caller !in s.pending.Values
    ensures Injective(Step(s, i).state.pending)
  {
    var m := Step(s, i).state.pending;
    if i.Outgoing? {
      var key := (i.index, i.code);
      forall k | k in s.pending && k != key
        ensures m[k] != i.caller
      {
        assert s.pending[k] in s.pending.Values;
      }
    } else {
      StepReplyRemoves(s, i);
      assert forall k | k in m :: k in s.pending && m[k] == s.pending[k];
    }
  }

  /** The later calls' channels stay fresh after a turn that adds at most
      the first call's channel. */
  lemma LaterCallersFresh(s: State, m: map<Key, CallerId>, inputs: seq<Input>)
    requires FreshCallers(s, inputs) && inputs != []
    requires m.Values <= s.pending.Values + (if inputs[0].Outgoing? then {inputs[0].caller} else {})
    ensures var rest := inputs[1..];
            && (forall i, j | 0 <= i < j < |rest| && rest[i].Outgoing? && rest[j].Outgoing? ::
                  rest[i].caller != rest[j].caller)
            && (forall i | 0 <= i < |rest| && rest[i].Outgoing? :: rest[i].caller !in m.Values)
  {
    var rest := inputs[1..];
    forall i | 0 <= i < |rest| && rest[i].Outgoing?
      ensures rest[i].caller !in m.Values
    {
      assert rest[i] == inputs[i + 1];
    }
    forall i, j | 0 <= i < j < |rest| && rest[i].Outgoing? && rest[j].Outgoing?
      ensures rest[i].caller != rest[j].caller
    {
      assert rest[i] == inputs[i + 1] && rest[j] == inputs[j + 1];
    }
  }

  lemma TailDecodable(inputs: seq<Input>)
    requires AllDecodable(inputs) && inputs != []
    ensures AllDecodable(inputs[1..])
  {
    forall i | 0 <= i < |inputs| - 1 ensures Decodable(inputs[1..][i]) {
      assert inputs[1..][i] == inputs[i + 1];
    }
  }

  /** A channel that is already pending is never the channel of a later
      call. */
  lemma PendingNotRequestedLater(s: State, inputs: seq<Input>, c: CallerId)
    requires FreshCallers(s, inputs) && inputs != [] && c in s.pending.Values
    ensures c !in RequestCallers(inputs[1..])
  {
    var rest := inputs[1..];
    forall i | 0 <= i < |rest| && rest[i].Outgoing?
      ensures rest[i].caller != c
    {
      assert rest[i] == inputs[i + 1];
    }
  }

  /** When every call has a fresh channel, no caller gets two replies. */
  lemma {:induction false} AtMostOneReplyPerCall(s: State, inputs: seq<Input>)
    requires AllDecodable(inputs) && FreshCallers(s, inputs)
    ensures var effects := Run(s, inputs).effects;
            forall a, b | 0 <= a < b < |effects| && effects[a].Replied? && effects[b].Replied? ::
              effects[a].caller != effects[b].caller
    decreases |inputs|
  {
    if inputs != [] {
      var step := Step(s, inputs[0]);
      if step.Next? {
        var s', rest := step.state, inputs[1..];
        TailDecodable(inputs);
        FreshAfterStep(s, inputs);
        AtMostOneReplyPerCall(s', rest);
        RepliesAnswerRequests(s', rest);
        var effects := Run(s, inputs).effects;
        assert effects == [step.effect] + Run(s', rest).effects;
        if step.effect.Replied? {
          FirstReplyNotRepeated(s, inputs);
        }
        forall a, b | 0 < a < b < |effects| && effects[a].Replied? && effects[b].Replied?
          ensures effects[a].caller != effects[b].caller
        {
          assert effects[a] == Run(s', rest).effects[a - 1];
          assert effects[b] == Run(s', rest).effects[b - 1];
        }
      }
    }
  }

  /** The caller a turn replies to gets no later reply. */
  lemma FirstReplyNotRepeated(s: State, inputs: seq<Input>)
    requires AllDecodable(inputs) && FreshCallers(s, inputs) && inputs != []
    requires Step(s, inputs[0]).Next? && Step(s, inputs[0]).effect.Replied?
    ensures var effects := Run(s, inputs).effects;
            forall b | 0 < b < |effects| && effects[b].Replied? :: effects[b].caller != effects[0].caller
  {
    var step := Step(s, inputs[0]);
    var s', rest := step.state, inputs[1..];
    var c := step.effect.caller;
    TailDecodable(inputs);
    RunNext(s, inputs);
    ReplyRetiresCaller(s, inputs[0]);
    PendingNotRequestedLater(s, inputs, c);
    RepliesAnswerRequests(s', rest);
    var effects := Run(s, inputs).effects;
    forall b | 0 < b < |effects| && effects[b].Replied?
      ensures effects[b].caller != c
    {
      assert effects[b] == Run(s', rest).effects[b - 1];
    }
  }

  /** From a fresh start, distinct channels get at most one reply each. */
  lemma AtMostOneReplyFromStart(inputs: seq<Input>)
    requires AllDecodable(inputs)
    requires forall i, j | 0 <= i < j < |inputs| && inputs[i].Outgoing? && inputs[j].Outgoing? ::
               inputs[i].caller != inputs[j].caller
    ensures var effects := Run(Initial, inputs).effects;
            forall a, b | 0 <= a < b < |effects| && effects[a].Replied? && effects[b].Replied? ::
              effects[a].caller != effects[b].caller
  {
    AtMostOneReplyPerCall(Initial, inputs);
  }

  /** A second call with the same index and code replaces the first one's
      entry, so the first caller never gets a reply: its channel is dropped
      and its `call` fails with `ChannelRecv`. */
  lemma {:induction false} ReplacedCallerNeverAnswered(s: State, inputs: seq<Input>)
    requires AllDecodable(inputs) && FreshCallers(s, inputs)
    requires inputs != [] && inputs[0].Outgoing? && inputs[0].written
    requires (inputs[0].index, inputs[0].code) in s.pending
    ensures var effects := Run(s, inputs).effects;
            forall k | 0 <= k < |effects| && effects[k].Replied? ::
              effects[k].caller != s.pending[(inputs[0].index, inputs[0].code)]
  {
    var c := s.pending[(inputs[0].index, inputs[0].code)];
    var s', rest := Step(s, inputs[0]).state, inputs[1..];
    TailDecodable(inputs);
    forall k | k in s'.pending
      ensures s'.pending[k] != c
    {
      if k != (inputs[0].index, inputs[0].code) {
        assert s.pending[k] == s'.pending[k];
      } else {
        assert c in s.pending.Values;
      }
    }
    PendingNotRequestedLater(s, inputs, c);
    RepliesAnswerRequests(s', rest);
    var effects := Run(s, inputs).effects;
    forall k | 0 <= k < |effects| && effects[k].Replied?
      ensures effects[k].caller != c
    {
      if k > 0 {
        assert effects[k] == Run(s', rest).effects[k - 1];
      }
    }
  }

  // ---------------------------------------------------------------------
  // Client::call and Client::events
  // ---------------------------------------------------------------------

  datatype CallError =
    | ChannelSend
    | ChannelRecv
    | RecievedData(error: Error)
    | ErrorReply(status: ErrorCode)
    | EmptyReply

  /** The message `Client::call` puts on the ingress channel. */
  function Request(index: ControllerIndex, c: MgmtFrame.Command, caller: CallerId, written: bool): Input
  {
    Outgoing(index, MgmtFrame.Code(c), MgmtFrame.PackCommandInternal(index, c), caller, written)
  }

  /** What `Client::call` returns: `enqueued` says whether the ingress
      channel accepted the message; `reply` is what the one-shot channel
      yields (`None` when its sender was dropped). */
  function Call<R>(enqueued: bool, reply: Option<(ErrorCode, Option<bytes>)>, decode: bytes -> Parsed<R>): (r: Outcome<R, CallError>)
    ensures !enqueued ==> r == Failure(CallError.ChannelSend)
    ensures enqueued && reply.None? ==> r == Failure(ChannelRecv)
    ensures r.Success? <==>
              enqueued && reply.Some? && Succeeded(reply.value.0) && reply.value.1.Some?
              && decode(reply.value.1.value).Ok?
    ensures r.Success? ==> r.value == decode(reply.value.1.value).value
    ensures r == Failure(EmptyReply) <==> enqueued && reply.Some? && Succeeded(reply.value.0) && reply.value.1.None?
    ensures (r.Failure? && r.error.ErrorReply?) <==> enqueued && reply.Some? && !Succeeded(reply.value.0)
    ensures r.Failure? && r.error.ErrorReply? ==> r.error.status == reply.value.0
  {
    if !enqueued then Failure(CallError.ChannelSend)
    else if reply.None? then Failure(ChannelRecv)
    else
      var (status, data) := reply.value;
      if Succeeded(status) && data.Some? then
        match decode(data.value)
        case Ok(v, _) => Success(v)
        case Err(e, _) => Failure(RecievedData(e))
      else if Succeeded(status) then Failure(EmptyReply)
      else Failure(ErrorReply(status))
  }

  /** End to end: a call whose Command Complete frame comes back returns
      the decoded data when the status is a success and the data decodes,
      and `ErrorReply` with the status when it is not a success. */
  lemma CallReturnsItsReply<R>(s: State, index: ControllerIndex, c: MgmtFrame.Command, caller: CallerId,
                               status: ErrorCode, data: bytes, decode: bytes -> Parsed<R>)
    requires index != ControllerId(0xFFFF)
    requires |data| + 3 < 0x1_0000
    ensures var inputs := [Request(index, c, caller, true), Inbound(CompleteFrame(index, c, status, data), false, {})];
            var effects := Run(s, inputs).effects;
            && |effects| == 2 && effects[1].Replied? && effects[1].caller == caller
            && var reply := Some((effects[1].status, effects[1].data));
               && (Succeeded(status) && decode(data).Ok? ==> Call(true, reply, decode) == Success(decode(data).value))
               && (Succeeded(status) && decode(data).Err? ==> Call(true, reply, decode) == Failure(RecievedData(decode(data).error)))
               && (!Succeeded(status) ==> Call(true, reply, decode) == Failure(ErrorReply(status)))
  {
    CallAnswered(s, index, c, caller, status, data);
  }

  /** Two turns that both continue. */
  lemma RunTwo(s: State, inputs: seq<Input>)
    requires |inputs| == 2 && AllDecodable(inputs)
    requires Step(s, inputs[0]).Next? && Step(Step(s, inputs[0]).state, inputs[1]).Next?
    ensures var t0 := Step(s, inputs[0]);
            var t1 := Step(t0.state, inputs[1]);
            Run(s, inputs) == Trace(t1.state, [t0.effect, t1.effect], None)
  {
    var t0 := Step(s, inputs[0]);
    RunNext(s, inputs);
    TailDecodable(inputs);
    var rest := inputs[1..];
    assert rest[0] == inputs[1];
    RunNext(t0.state, rest);
    assert rest[1..] == [];
  }

  lemma DecodablePair(i0: Input, i1: Input)
    requires Decodable(i0) && Decodable(i1)
    ensures AllDecodable([i0, i1])
  {
  }

  lemma RunNext(s: State, inputs: seq<Input>)
    requires AllDecodable(inputs) && inputs != [] && Step(s, inputs[0]).Next?
    ensures var t := Run(Step(s, inputs[0]).state, inputs[1..]);
            Run(s, inputs) == Trace(t.state, [Step(s, inputs[0]).effect] + t.effects, t.result)
  {
  }

  lemma InsertThenRemove(m: map<Key, CallerId>, key: Key, v: CallerId)
    ensures m[key := v] - {key} == m - {key}
  {
    assert (m[key := v] - {key}).Keys == (m - {key}).Keys;
  }

  /** The CommandComplete frame the kernel sends back for a call. */
  function CompleteFrame(index: ControllerIndex, c: MgmtFrame.Command, status: ErrorCode, data: bytes): bytes
  {
    MgmtFrame.PackEvent(index, MgmtFrame.CommandComplete(MgmtFrame.Code(c), status, data))
  }

  lemma CompleteFrameDecodes(index: ControllerIndex, c: MgmtFrame.Command, status: ErrorCode, data: bytes)
    requires |data| + 3 < 0x1_0000
    ensures Decodable(Inbound(CompleteFrame(index, c, status, data), false, {}))
    ensures MgmtFrame.UnpackEvent(CompleteFrame(index, c, status, data))
            == Ok((IndexFromU16(IndexToU16(index)), MgmtFrame.CommandComplete(MgmtFrame.Code(c), status, data)), [])
  {
    var e := MgmtFrame.CommandComplete(MgmtFrame.Code(c), status, data);
    assert |MgmtFrame.EncodeEventBody(e)| == 3 + |data|;
    MgmtFrame.EventFrameRoundTrip(index, e, []);
    assert MgmtFrame.PackEvent(index, e) + [] == MgmtFrame.PackEvent(index, e);
  }

  /** Writing a call's command records its caller under the call's key. */
  lemma StepRequest(s: State, index: ControllerIndex, c: MgmtFrame.Command, caller: CallerId)
    ensures Decodable(Request(index, c, caller, true))
    ensures Step(s, Request(index, c, caller, true))
            == Next(State(s.pending[(index, MgmtFrame.Code(c)) := caller], s.queues),
                    Wrote(MgmtFrame.PackCommandInternal(index, c)))
  {
  }

  /** The reply frame is routed under the index it decodes to. */
  lemma StepComplete(s: State, index: ControllerIndex, c: MgmtFrame.Command, status: ErrorCode, data: bytes)
    requires |data| + 3 < 0x1_0000
    ensures Decodable(Inbound(CompleteFrame(index, c, status, data), false, {}))
    ensures Step(s, Inbound(CompleteFrame(index, c, status, data), false, {}))
            == Route(s, IndexFromU16(IndexToU16(index)), MgmtFrame.CommandComplete(MgmtFrame.Code(c), status, data), false, {})
  {
    CompleteFrameDecodes(index, c, status, data);
  }

  /** A call whose reply comes back in a well-formed CommandComplete frame
      gets exactly that status and data, and the pending map is left as it
      was before the call. */
  lemma CallAnswered(s: State, index: ControllerIndex, c: MgmtFrame.Command, caller: CallerId,
                     status: ErrorCode, data: bytes)
    requires index != ControllerId(0xFFFF)
    requires |data| + 3 < 0x1_0000
    ensures var inputs := [Request(index, c, caller, true), Inbound(CompleteFrame(index, c, status, data), false, {})];
            && AllDecodable(inputs)
            && Run(s, inputs).effects == [Wrote(MgmtFrame.PackCommandInternal(index, c)), Replied(caller, status, Some(data))]
            && Run(s, inputs).state.pending == s.pending - {(index, MgmtFrame.Code(c))}
            && Run(s, inputs).state.queues == s.queues
            && Run(s, inputs).result.None?
  {
    var key := (index, MgmtFrame.Code(c));
    var inputs := [Request(index, c, caller, true), Inbound(CompleteFrame(index, c, status, data), false, {})];
    var s1 := State(s.pending[key := caller], s.queues);
    StepRequest(s, index, c, caller);
    StepComplete(s1, index, c, status, data);
    assert IndexFromU16(IndexToU16(index)) == index;
    var e := MgmtFrame.CommandComplete(MgmtFrame.Code(c), status, data);
    assert Route(s1, index, e, false, {}) == Next(State(s1.pending - {key}, s.queues), Replied(caller, status, Some(data)));
    InsertThenRemove(s.pending, key, caller);
    DecodablePair(inputs[0], inputs[1]);
    assert [inputs[0], inputs[1]] == inputs;
    RunTwo(s, inputs);
  }

  /** `ControllerId(0xFFFF)` travels as 0xFFFF and comes back as
      `NonController`, so a call addressed to it is never answered: its
      reply is dropped and its entry stays pending. */
  lemma ControllerFFFFNeverAnswered(s: State, c: MgmtFrame.Command, caller: CallerId,
                                    status: ErrorCode, data: bytes)
    requires |data| + 3 < 0x1_0000
    requires (NonController, MgmtFrame.Code(c)) !in s.pending
    ensures var index := ControllerId(0xFFFF);
            var inputs := [Request(index, c, caller, true), Inbound(CompleteFrame(index, c, status, data), false, {})];
            && AllDecodable(inputs)
            && Run(s, inputs).effects == [Wrote(MgmtFrame.PackCommandInternal(index, c)), Dropped]
            && (index, MgmtFrame.Code(c)) in Run(s, inputs).state.pending
            && Run(s, inputs).state.pending[(index, MgmtFrame.Code(c))] == caller
  {
    var index := ControllerId(0xFFFF);
    var key := (index, MgmtFrame.Code(c));
    var inputs := [Request(index, c, caller, true), Inbound(CompleteFrame(index, c, status, data), false, {})];
    var s1 := State(s.pending[key := caller], s.queues);
    StepRequest(s, index, c, caller);
    StepComplete(s1, index, c, status, data);
    assert IndexFromU16(IndexToU16(index)) == NonController;
    var e := MgmtFrame.CommandComplete(MgmtFrame.Code(c), status, data);
    assert (NonController, MgmtFrame.Code(c)) !in s1.pending;
    assert Route(s1, NonController, e, false, {}) == Next(s1, Dropped);
    DecodablePair(inputs[0], inputs[1]);
    assert [inputs[0], inputs[1]] == inputs;
    RunTwo(s, inputs);
  }
}
