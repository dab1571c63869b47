/** The vocabulary the client side of the reactive-stream protocol speaks:
    inbound steps, the events a subscriber sees, the failures it is told
    about, and the records the client hands to its transport. */
module Messages {
  import opened Wrappers
  import opened Text
  import opened LinkedMap

  /** The protocol identifier stamped on every outbound message. */
  const ProtocolId: string := "reactive-stream"

  /** A Java `long`, the type of the demand passed to `request`. */
  newtype Long = x: int | -0x8000_0000_0000_0000 <= x < 0x8000_0000_0000_0000

  /** The step of an inbound message: the five steps a server sends, the two
      events the transport raises, and any other step text at all. */
  datatype Step =
    | Ack
    | Nack
    | Data
    | Error
    | Complete
    | ServiceNotFound
    | ConnectionFailure
    | Other(name: string)

  datatype Inbound = Inbound(step: Step, sourceService: string, payload: seq<bv8>, contentType: string)

  /** One delivered element: the inbound message, decoded lazily later. */
  datatype StreamData = StreamData(message: Inbound)

  /** Why a subscriber is told that the stream failed. */
  datatype Failure =
    | StreamMissing
    | RemoteFailure
    | ServiceMissing(service: string)
    | TransportLost
    | UnknownStep(step: string)

  /** The message of the exception handed to `onError`; the remote failure
      is raised with no message at all. */
  function Message(f: Failure): Option<string>
  {
    match f
    case StreamMissing => Some("Stream does not exist")
    case RemoteFailure => None
    case ServiceMissing(s) => Some("Service " + s + " does not exist")
    // one sentence, cut after its short opening words so that the verifier
    // can read the first characters of the message
    case TransportLost =>
      Some("Connection lost " + "to remote service, the channel has shut down due to a transport failure")
    case UnknownStep(s) => Some("An unknown step in the protocol [" + s + "] has been sent, this is a bug")
  }

  /** `s` occurs in `text` starting at position `i`. */
  predicate OccursAt(text: string, s: string, i: int) {
    0 <= i <= |text| - |s| && text[i..i + |s|] == s
  }

  /** `s` occurs somewhere in `text`. */
  ghost predicate Contains(text: string, s: string) {
    exists i :: OccursAt(text, s, i)
  }

  /** The failure messages name what went wrong: the missing service and the
      unexpected step appear in them verbatim. */
  lemma MessageNamesCulprit(f: Failure)
    ensures f.ServiceMissing? ==> Message(f).Some? && Contains(Message(f).value, f.service)
    ensures f.UnknownStep? ==> Message(f).Some? && Contains(Message(f).value, f.step)
    ensures Message(f).None? <==> f == RemoteFailure
  {
    match f
    case ServiceMissing(s) =>
      assert OccursAt(Message(f).value, s, 8);
    case UnknownStep(s) =>
      assert OccursAt(Message(f).value, s, 33);
    case _ =>
  }

  /** The first two characters of a message, or nothing. */
  function Lead(f: Failure): string {
    match Message(f)
    case None => ""
    case Some(t) => if |t| >= 2 then t[..2] else t
  }

  lemma LeadOf(f: Failure)
    ensures f.StreamMissing? ==> Lead(f) == "St"
    ensures f.RemoteFailure? ==> Lead(f) == ""
    ensures f.ServiceMissing? ==> Lead(f) == "Se"
    ensures f.TransportLost? ==> Lead(f) == "Co"
    ensures f.UnknownStep? ==> Lead(f) == "An"
  {
    match f
    case ServiceMissing(s) => LeadOfServiceMissing(s);
    case UnknownStep(s) => LeadOfUnknownStep(s);
    case StreamMissing => LeadOfStreamMissing();
    case TransportLost => LeadOfTransportLost();
    case RemoteFailure =>
  }

  lemma LeadOfServiceMissing(s: string)
    ensures Lead(ServiceMissing(s)) == "Se"
  {
    assert Message(ServiceMissing(s)).value[..2] == "Se";
  }

  lemma LeadOfUnknownStep(s: string)
    ensures Lead(UnknownStep(s)) == "An"
  {
    var t := Message(UnknownStep(s)).value;
    assert t[0] == 'A' && t[1] == 'n';
    assert t[..2] == "An";
  }

  lemma LeadOfStreamMissing()
    ensures Lead(StreamMissing) == "St"
  {
    assert Message(StreamMissing).value[..2] == "St";
  }

  lemma LeadOfTransportLost()
    ensures Lead(TransportLost) == "Co"
  {
    var t := Message(TransportLost).value;
    assert t[..2] == "Co";
  }

  /** Different failures never share a message, so the text alone tells
      which failure, and which service or step, was reported. */
  lemma MessageIdentifiesFailure(f: Failure, g: Failure)
    requires Message(f) == Message(g)
    ensures f == g
  {
    LeadOf(f);
    LeadOf(g);
    match f
    case ServiceMissing(s) =>
      if g.ServiceMissing? {
        var t := Message(f).value;
        assert t[8..8 + |s|] == s;
        assert t[8..8 + |s|] == g.service;
      }
    case UnknownStep(s) =>
      if g.UnknownStep? {
        var t := Message(f).value;
        assert t[33..33 + |s|] == s;
        assert t[33..33 + |s|] == g.step;
      }
    case _ =>
  }

  /** What a subscriber is called with. */
  datatype Event =
    | OnSubscribe
    | OnNext(data: StreamData)
    | OnError(failure: Failure)
    | OnComplete

  /** After `onError` or `onComplete` the reactive-streams contract expects
      silence; the client does not enforce that. */
  predicate IsTerminal(e: Event) {
    e.OnError? || e.OnComplete?
  }

  /** The steps the client sends. */
  datatype OutStep = Subscribe | Request | Cancel

  /** The object handed to the codec for each outbound step: the subscription
      request (stream path and ordered arguments), the demand, and an empty
      object for cancellation. */
  datatype Body =
    | SubscriptionRequest(path: string, args: Entries)
    | RequestMessage(n: Long)
    | EmptyObject

  /** The codec's answer: encoded payload and its content type. */
  datatype Encoded = Encoded(payload: seq<bv8>, contentType: string)

  /** The set of codecs a destination service accepts, as discovery reports it. */
  datatype CodecSet = CodecSet(contentTypes: seq<string>)

  datatype Outbound = Outbound(
    step: OutStep,
    protocol: string,
    fromService: string,
    toService: string,
    payload: seq<bv8>,
    contentType: string)
}
