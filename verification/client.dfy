/** The client side of the reactive-stream protocol: `start` registers the
    inbound handler and sends one SUBSCRIBE; the handler turns every inbound
    message into exactly one subscriber call; the subscription handed over
    on ACK turns every `request(n)` and `cancel()` into exactly one outbound
    message. The client keeps NO lifecycle state: nothing it does depends
    on what it did before. The subscriber is an event log and the transport
    a log of handler registrations and sends. */
module ClientProtocol {
  import opened Wrappers
  import opened LinkedMap
  import opened Query
  import opened Messages

  /** The stream URI: the host names the remote service, the path names the
      stream, the query (if any) carries its arguments. */
  datatype Uri = Uri(host: string, path: string, query: Option<string>)

  /** What a client is built with. The codec, the discovery lookup and the
      URL decoder are library calls, so they are opaque functions here. */
  datatype Protocol = Protocol(
    uri: Uri,
    serviceName: string,
    codecsFor: string -> CodecSet,
    encode: (Body, CodecSet) -> Encoded,
    decodeArg: Decoder)

  /** What the client does to its transport connection. */
  datatype TransportOp =
    | Receive
    | Send(message: Outbound)

  /** Everything observable so far: the calls made on the subscriber and the
      operations made on the transport, oldest first. */
  datatype Client = Client(events: seq<Event>, transport: seq<TransportOp>)

  // ---------------------------------------------------------------------
  // Outbound messages

  /** Addressing every outbound message shares: this protocol, from the
      configured service, to the URI's host. */
  predicate Addressed(p: Protocol, m: Outbound) {
    && m.protocol == ProtocolId
    && m.fromService == p.serviceName
    && m.toService == p.uri.host
  }

  /** `m` holds what the codec produced for `body`, encoded for the
      destination's codecs. */
  predicate Carries(p: Protocol, m: Outbound, body: Body) {
    Encoded(m.payload, m.contentType) == p.encode(body, p.codecsFor(p.uri.host))
  }

  /** The message built by each of the three senders. */
  function Outgoing(p: Protocol, step: OutStep, body: Body): (m: Outbound)
    ensures m.step == step && Addressed(p, m) && Carries(p, m, body)
  {
    var e := p.encode(body, p.codecsFor(p.uri.host));
    Outbound(step, ProtocolId, p.serviceName, p.uri.host, e.payload, e.contentType)
  }

  /** `c` followed by exactly one more transport operation, a send of `m`,
      with the subscriber untouched. */
  predicate SentOne(c: Client, c': Client, m: Outbound) {
    && c'.events == c.events
    && |c'.transport| == |c.transport| + 1
    && c'.transport[..|c.transport|] == c.transport
    && c'.transport[|c.transport|] == Send(m)
  }

  /** `sendRequest(n)`: one REQUEST carrying `n` exactly as given. */
  function SendRequest(p: Protocol, c: Client, n: Long): (c': Client)
    ensures exists m :: SentOne(c, c', m) && m.step == Request && Addressed(p, m) && Carries(p, m, RequestMessage(n))
  {
    var m := Outgoing(p, Request, RequestMessage(n));
    var c' := c.(transport := c.transport + [Send(m)]);
    assert SentOne(c, c', m);
    c'
  }

  /** `sendCancel()`: one CANCEL whose payload encodes an empty object. */
  function SendCancel(p: Protocol, c: Client): (c': Client)
    ensures exists m :: SentOne(c, c', m) && m.step == Cancel && Addressed(p, m) && Carries(p, m, EmptyObject)
  {
    var m := Outgoing(p, Cancel, EmptyObject);
    var c' := c.(transport := c.transport + [Send(m)]);
    assert SentOne(c, c', m);
    c'
  }

  /** `sendSubscribe(request)`: one SUBSCRIBE carrying the request. */
  function SendSubscribe(p: Protocol, c: Client, request: Body): (c': Client)
    ensures exists m :: SentOne(c, c', m) && m.step == Subscribe && Addressed(p, m) && Carries(p, m, request)
  {
    var m := Outgoing(p, Subscribe, request);
    var c' := c.(transport := c.transport + [Send(m)]);
    assert SentOne(c, c', m);
    c'
  }

  // ---------------------------------------------------------------------
  // start

  /** The client after `start`, and whether `start` threw. */
  datatype Started = Started(client: Client, outcome: Outcome<QueryError>)

  /** `start()`: register the handler, then build the subscription request
      from the URI path and the split query, then send it. A query that
      cannot be split throws after the registration and before any send. */
  function Start(p: Protocol, c: Client): (r: Started)
    ensures r.client.events == c.events
    ensures |r.client.transport| > |c.transport|
    ensures r.client.transport[..|c.transport| + 1] == c.transport + [Receive]
    ensures r.outcome.Fail? <==> SplitQuery(p.uri.query, p.decodeArg).Err?
    ensures r.outcome.Fail? ==>
              && r.outcome.error == SplitQuery(p.uri.query, p.decodeArg).error
              && r.client.transport == c.transport + [Receive]
    ensures r.outcome.Pass? ==>
              && |r.client.transport| == |c.transport| + 2
              && var op := r.client.transport[|c.transport| + 1];
                 && op.Send?
                 && op.message.step == Subscribe
                 && Addressed(p, op.message)
                 && Carries(p, op.message, SubscriptionRequest(p.uri.path, SplitQuery(p.uri.query, p.decodeArg).value))
  {
    var registered := c.(transport := c.transport + [Receive]);
    match SplitQuery(p.uri.query, p.decodeArg)
    case Err(e) => Started(registered, Fail(e))
    case Ok(args) =>
      var c' := SendSubscribe(p, registered, SubscriptionRequest(p.uri.path, args));
      assert c'.transport[..|c.transport| + 1] == c'.transport[..|registered.transport|][..|c.transport| + 1];
      Started(c', Pass)
  }

  // ---------------------------------------------------------------------
  // Inbound messages

  /** The one subscriber call an inbound message (None: the channel closed)
      turns into. */
  function Dispatch(msg: Option<Inbound>): (e: Event)
    ensures e.OnSubscribe? <==> msg.Some? && msg.value.step == Ack
    ensures e.OnNext? <==> msg.Some? && msg.value.step == Data
    ensures e.OnComplete? <==> msg.None? || msg.value.step == Complete
    ensures e.OnError? <==> msg.Some? && msg.value.step !in {Ack, Data, Complete}
    ensures e.OnNext? ==> e.data.message == msg.value
    ensures e.OnError? && msg.value.step == Nack ==> Message(e.failure) == Some("Stream does not exist")
    ensures e.OnError? && msg.value.step == Error ==> Message(e.failure).None?
    ensures e.OnError? && msg.value.step == ConnectionFailure ==> e.failure == TransportLost
    ensures e.OnError? && msg.value.step == ServiceNotFound ==>
              e.failure == ServiceMissing(msg.value.sourceService)
              && Message(e.failure).Some? && Contains(Message(e.failure).value, msg.value.sourceService)
    ensures e.OnError? && msg.value.step.Other? ==>
              e.failure == UnknownStep(msg.value.step.name)
              && Message(e.failure).Some? && Contains(Message(e.failure).value, msg.value.step.name)
  {
    match msg
    case None => OnComplete
    case Some(m) =>
      match m.step
      case Ack => OnSubscribe
      case Nack => OnError(StreamMissing)
      case Data => OnNext(StreamData(m))
      case Error => OnError(RemoteFailure)
      case Complete => OnComplete
      case ServiceNotFound =>
        MessageNamesCulprit(ServiceMissing(m.sourceService));
        OnError(ServiceMissing(m.sourceService))
      case ConnectionFailure => OnError(TransportLost)
      case Other(name) =>
        MessageNamesCulprit(UnknownStep(name));
        OnError(UnknownStep(name))
  }

  /** `handleMessage(msg)`: exactly one subscriber call, nothing sent. */
  function HandleMessage(c: Client, msg: Option<Inbound>): (c': Client)
    ensures c'.transport == c.transport
    ensures |c'.events| == |c.events| + 1 && c'.events[..|c.events|] == c.events
    ensures c'.events[|c.events|] == Dispatch(msg)
  {
    var c' := c.(events := c.events + [Dispatch(msg)]);
    assert c'.events[..|c.events|] == c.events;
    c'
  }

  // ---------------------------------------------------------------------
  // The subscription handed over on ACK

  /** The two things a subscriber can do with its subscription. */
  datatype Action = RequestMore(n: Long) | CancelStream

  /** The message one action sends. */
  function ActionMessage(p: Protocol, a: Action): (m: Outbound)
    ensures Addressed(p, m)
    ensures a.RequestMore? <==> m.step == Request
    ensures a.CancelStream? <==> m.step == Cancel
    ensures a.RequestMore? ==> Carries(p, m, RequestMessage(a.n))
    ensures a.CancelStream? ==> Carries(p, m, EmptyObject)
  {
    match a
    case RequestMore(n) => Outgoing(p, Request, RequestMessage(n))
    case CancelStream => Outgoing(p, Cancel, EmptyObject)
  }

  /** `subscription.request(n)` / `subscription.cancel()`. */
  function Perform(p: Protocol, c: Client, a: Action): (c': Client)
    ensures SentOne(c, c', ActionMessage(p, a))
  {
    match a
    case RequestMore(n) => SendRequest(p, c, n)
    case CancelStream => SendCancel(p, c)
  }

  // ---------------------------------------------------------------------
  // Runs: any interleaving of deliveries and subscriber actions

  datatype Input = Deliver(msg: Option<Inbound>) | Invoke(action: Action)

  function Apply(p: Protocol, c: Client, i: Input): Client {
    match i
    case Deliver(msg) => HandleMessage(c, msg)
    case Invoke(a) => Perform(p, c, a)
  }

  /** The client after the inputs, one at a time, in order. */
  function Run(p: Protocol, c: Client, inputs: seq<Input>): Client
    decreases |inputs|
  {
    if |inputs| == 0 then c else Run(p, Apply(p, c, inputs[0]), inputs[1..])
  }

  /** The subscriber calls the deliveries among `inputs` make, in order. */
  function EventsOf(inputs: seq<Input>): seq<Event> {
    if |inputs| == 0 then []
    else (if inputs[0].Deliver? then [Dispatch(inputs[0].msg)] else []) + EventsOf(inputs[1..])
  }

  /** The sends the actions among `inputs` make, in order. */
  function SendsOf(p: Protocol, inputs: seq<Input>): seq<TransportOp> {
    if |inputs| == 0 then []
    else (if inputs[0].Invoke? then [Send(ActionMessage(p, inputs[0].action))] else []) + SendsOf(p, inputs[1..])
  }

  /** A run is the deliveries' events and the actions' sends, each in order,
      appended to what was there: inbound messages never send and actions
      never reach the subscriber, and nothing depends on earlier inputs. */
  lemma RunSeparates(p: Protocol, c: Client, inputs: seq<Input>)
    ensures Run(p, c, inputs) == Client(c.events + EventsOf(inputs), c.transport + SendsOf(p, inputs))
  {
    RunEvents(p, c, inputs);
    RunTransport(p, c, inputs);
  }

  /** The subscriber half of RunSeparates. */
  lemma {:induction false} RunEvents(p: Protocol, c: Client, inputs: seq<Input>)
    ensures Run(p, c, inputs).events == c.events + EventsOf(inputs)
    decreases |inputs|
  {
    if |inputs| == 0 {
      assert c.events + [] == c.events;
    } else {
      var c1 := Apply(p, c, inputs[0]);
      var e0, e1 := EventsOf([inputs[0]]), EventsOf(inputs[1..]);
      assert c1.events == c.events + e0 by { ApplySeparates(p, c, inputs[0]); }
      assert Run(p, c1, inputs[1..]).events == c1.events + e1 by { RunEvents(p, c1, inputs[1..]); }
      assert EventsOf(inputs) == e0 + e1 by { OfFirst(p, inputs); }
      assert c.events + e0 + e1 == c.events + (e0 + e1);
    }
  }

  /** The transport half of RunSeparates. */
  lemma {:induction false} RunTransport(p: Protocol, c: Client, inputs: seq<Input>)
    ensures Run(p, c, inputs).transport == c.transport + SendsOf(p, inputs)
    decreases |inputs|
  {
    if |inputs| == 0 {
      assert c.transport + [] == c.transport;
    } else {
      var c1 := Apply(p, c, inputs[0]);
      var s0, s1 := SendsOf(p, [inputs[0]]), SendsOf(p, inputs[1..]);
      assert c1.transport == c.transport + s0 by { ApplySeparates(p, c, inputs[0]); }
      assert Run(p, c1, inputs[1..]).transport == c1.transport + s1 by { RunTransport(p, c1, inputs[1..]); }
      assert SendsOf(p, inputs) == s0 + s1 by { OfFirst(p, inputs); }
      assert c.transport + s0 + s1 == c.transport + (s0 + s1);
    }
  }

  /** The events and sends of a non-empty input sequence: those of its first
      input, then those of the rest. */
  lemma OfFirst(p: Protocol, inputs: seq<Input>)
    requires |inputs| > 0
    ensures EventsOf(inputs) == EventsOf([inputs[0]]) + EventsOf(inputs[1..])
    ensures SendsOf(p, inputs) == SendsOf(p, [inputs[0]]) + SendsOf(p, inputs[1..])
  {
    assert [inputs[0]][1..] == [];
    assert EventsOf([inputs[0]]) == EventsOf([inputs[0]]) + EventsOf([]);
    assert SendsOf(p, [inputs[0]]) == SendsOf(p, [inputs[0]]) + SendsOf(p, []);
  }

  /** One input is its own event or its own send. */
  lemma ApplySeparates(p: Protocol, c: Client, i: Input)
    ensures Apply(p, c, i) == Client(c.events + EventsOf([i]), c.transport + SendsOf(p, [i]))
  {
    assert [i][1..] == [];
    match i
    case Deliver(msg) =>
      assert EventsOf([i]) == [Dispatch(msg)];
      assert SendsOf(p, [i]) == [];
      var c' := HandleMessage(c, msg);
      assert c'.events == c'.events[..|c.events|] + [c'.events[|c.events|]];
    case Invoke(a) =>
      assert EventsOf([i]) == [];
      assert SendsOf(p, [i]) == [Send(ActionMessage(p, a))];
      var c' := Perform(p, c, a);
      assert c'.transport == c'.transport[..|c.transport|] + [c'.transport[|c.transport|]];
  }

  /** The number of deliveries among the inputs. */
  function Deliveries(inputs: seq<Input>): nat {
    if |inputs| == 0 then 0 else (if inputs[0].Deliver? then 1 else 0) + Deliveries(inputs[1..])
  }

  /** One subscriber call per delivered message, one send per action. */
  lemma {:induction false} RunCounts(p: Protocol, c: Client, inputs: seq<Input>)
    ensures |Run(p, c, inputs).events| == |c.events| + Deliveries(inputs)
    ensures |Run(p, c, inputs).transport| == |c.transport| + |inputs| - Deliveries(inputs)
  {
    RunSeparates(p, c, inputs);
    CountsOf(p, inputs);
  }

  lemma {:induction false} CountsOf(p: Protocol, inputs: seq<Input>)
    ensures |EventsOf(inputs)| == Deliveries(inputs)
    ensures |SendsOf(p, inputs)| == |inputs| - Deliveries(inputs)
  {
    if |inputs| > 0 {
      CountsOf(p, inputs[1..]);
    }
  }

  /** Every message the client has sent is addressed from this service, to
      the URI's host, under this protocol. */
  predicate AllAddressed(p: Protocol, ops: seq<TransportOp>) {
    forall i :: 0 <= i < |ops| && ops[i].Send? ==> Addressed(p, ops[i].message)
  }

  /** `start` followed by any run keeps every send addressed. */
  lemma StartedRunAddressed(p: Protocol, c: Client, inputs: seq<Input>)
    requires AllAddressed(p, c.transport)
    ensures AllAddressed(p, Start(p, c).client.transport)
    ensures AllAddressed(p, Run(p, Start(p, c).client, inputs).transport)
  {
    var s := Start(p, c).client;
    StartAddressed(p, c);
    RunSeparates(p, s, inputs);
    SendsAddressed(p, inputs);
    AppendAddressed(p, s.transport, SendsOf(p, inputs));
  }

  lemma StartAddressed(p: Protocol, c: Client)
    requires AllAddressed(p, c.transport)
    ensures AllAddressed(p, Start(p, c).client.transport)
  {
    var s := Start(p, c).client;
    forall i | 0 <= i < |s.transport| && s.transport[i].Send?
      ensures Addressed(p, s.transport[i].message)
    {
      if i < |c.transport| {
        assert s.transport[i] == s.transport[..|c.transport| + 1][i];
      }
    }
  }

  lemma AppendAddressed(p: Protocol, a: seq<TransportOp>, b: seq<TransportOp>)
    requires AllAddressed(p, a) && AllAddressed(p, b)
    ensures AllAddressed(p, a + b)
  {
    forall i | 0 <= i < |a + b| && (a + b)[i].Send? ensures Addressed(p, (a + b)[i].message) {
      if i >= |a| {
        assert (a + b)[i] == b[i - |a|];
      } else {
        assert (a + b)[i] == a[i];
      }
    }
  }

  lemma {:induction false} SendsAddressed(p: Protocol, inputs: seq<Input>)
    ensures AllAddressed(p, SendsOf(p, inputs))
  {
    if |inputs| > 0 {
      SendsAddressed(p, inputs[1..]);
      var head := if inputs[0].Invoke? then [Send(ActionMessage(p, inputs[0].action))] else [];
      assert SendsOf(p, inputs) == head + SendsOf(p, inputs[1..]);
    }
  }

  // ---------------------------------------------------------------------
  // The properties the protocol's users rely on

  /** A closed channel produces exactly one `onComplete` and nothing else. */
  lemma ClosedChannelCompletes(c: Client)
    ensures HandleMessage(c, None) == Client(c.events + [OnComplete], c.transport)
  {
    var c' := HandleMessage(c, None);
    assert c'.events == c'.events[..|c.events|] + [c'.events[|c.events|]];
  }

  /** `request(n)` forwards `n` unchanged, for every `long` (zero and
      negative values included): decoding the sent payload with a codec
      that round-trips gives back exactly RequestMessage(n). */
  lemma RequestCarriesDemandUnchanged(p: Protocol, c: Client, n: Long, decode: (Encoded, CodecSet) -> Body)
    requires forall b: Body, cs: CodecSet :: decode(p.encode(b, cs), cs) == b
    ensures var c' := Perform(p, c, RequestMore(n));
            var op := c'.transport[|c.transport|];
            && op.Send?
            && op.message.step == Request
            && decode(Encoded(op.message.payload, op.message.contentType), p.codecsFor(p.uri.host)) == RequestMessage(n)
  {
  }

  /** Two cancels send two CANCEL messages: nothing remembers the first. */
  lemma CancelTwiceSendsTwice(p: Protocol, c: Client)
    ensures var m := ActionMessage(p, CancelStream);
            && m.step == Cancel
            && Run(p, c, [Invoke(CancelStream), Invoke(CancelStream)]) == Client(c.events, c.transport + [Send(m), Send(m)])
  {
    var ins := [Invoke(CancelStream), Invoke(CancelStream)];
    RunSeparates(p, c, ins);
    assert ins[1..][1..] == [];
    assert SendsOf(p, ins) == [Send(ActionMessage(p, CancelStream)), Send(ActionMessage(p, CancelStream))];
    assert EventsOf(ins) == [];
  }

  /** ACK then `request(3)`: one `onSubscribe`, then one REQUEST for 3. */
  lemma AckThenRequest(p: Protocol, c: Client, ack: Inbound)
    requires ack.step == Ack
    ensures var m := ActionMessage(p, RequestMore(3));
            && m.step == Request
            && Carries(p, m, RequestMessage(3))
            && Run(p, c, [Deliver(Some(ack)), Invoke(RequestMore(3))]) ==
                 Client(c.events + [OnSubscribe], c.transport + [Send(m)])
  {
    var ins := [Deliver(Some(ack)), Invoke(RequestMore(3))];
    RunSeparates(p, c, ins);
    assert ins[1..][1..] == [];
    assert EventsOf(ins[1..]) == [];
    assert EventsOf(ins) == [Dispatch(Some(ack))] + EventsOf(ins[1..]);
    assert SendsOf(p, ins[1..]) == [Send(ActionMessage(p, RequestMore(3)))] + SendsOf(p, ins[1..][1..]);
    assert SendsOf(p, ins) == SendsOf(p, ins[1..]);
  }

  /** No lifecycle guard: a message that arrives after a terminal event is
      still passed on, whatever came before. */
  lemma DeliveredAfterTerminal(c: Client, msg: Option<Inbound>)
    requires |c.events| > 0 && IsTerminal(c.events[|c.events| - 1])
    ensures HandleMessage(c, msg).events == c.events + [Dispatch(msg)]
  {
    var c' := HandleMessage(c, msg);
    assert c'.events == c'.events[..|c.events|] + [c'.events[|c.events|]];
  }

  /** No lifecycle guard: `request(n)` after a terminal event still sends. */
  lemma RequestAfterTerminalStillSends(p: Protocol, c: Client, n: Long)
    requires |c.events| > 0 && IsTerminal(c.events[|c.events| - 1])
    ensures Perform(p, c, RequestMore(n)).transport == c.transport + [Send(ActionMessage(p, RequestMore(n)))]
  {
    var c' := Perform(p, c, RequestMore(n));
    assert c'.transport == c'.transport[..|c.transport|] + [c'.transport[|c.transport|]];
  }
}
