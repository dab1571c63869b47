# Reactive-stream client protocol, modelled in Dafny

This project models the client side of Muon's `reactive-stream` protocol as
implemented by `ReactiveStreamClientProtocol`. It covers three pieces:

- **Query-argument splitting** (`splitQuery`). The query of a stream URI
  is cut at every `&`, exactly as Java's `String.split("&")` does it:
  trailing empty pieces are dropped, and a text with no `&` comes back
  whole. Each piece is cut at its first `=` into a key and a value. Both
  go through a URL decoder, which is a parameter here. The pairs are then
  put in order into an insertion-ordered map with `LinkedHashMap.put`
  semantics. A piece with no `=` throws, because `substring(0, -1)` is out
  of bounds. A decoder failure throws too.
- **Inbound dispatch** (`handleMessage`). Every inbound message makes
  exactly one subscriber call. A `null` message (the channel closed) makes
  one too. Unknown steps go to the default arm and produce `onError`, with
  the step named in the message.
- **Outbound messages** (`start`, `sendSubscribe`, `sendRequest`,
  `sendCancel`, and the `Subscription` handed over on ACK). Each action
  produces exactly one record. Every record carries the protocol id
  `reactive-stream`, the configured service name as sender, the URI host
  as destination, and the codec's encoding of the step's body. A run of
  the model may call the subscription before any ACK arrives, although in
  the client it exists only once `onSubscribe` has been called. Every
  property of runs holds for all inputs, so this extra freedom only widens
  what they cover.

The client keeps no lifecycle state. It has no state field, no guard after
a terminal event, no check that `n` is positive, and no cancel
de-duplication. The model has none of these either. Lemmas show the
resulting behaviour: events after a terminal event are still delivered,
`request` after a terminal event still sends, and two cancels send two
CANCELs.

Modules:

- `Wrappers`: Option, Result and Outcome.
- `Text`: Java's `indexOf`, `trim` and `split`.
- `LinkedMap`: `LinkedHashMap` over strings.
- `Query`: `splitQuery`.
- `Messages`: steps, events, failure texts and outbound records.
- `ClientProtocol`: `start`, `handleMessage`, the senders, the subscription, and runs of interleaved inputs.

The subscriber is a log of events. The transport connection is a log of
handler registrations (`Receive`) and sends (`Send`). Because the log
records both, "the handler is registered before the SUBSCRIBE is sent"
can be stated.

External collaborators are opaque function parameters of the `Protocol`
datatype. These are `Codecs.encode`, `Discovery.getCodecsForService`, and
`URLDecoder.decode` (None stands for the exception it throws).

The client does not enforce the rules of the Reactive Streams
specification (version 1.0) that a stateful subscription would:

- Rule 1.7 forbids signals after `onError` or `onComplete`. The client
  keeps no state, so a message that arrives after a terminal event is still
  dispatched to the subscriber.
- Rule 3.9 calls for `onError` when `request(n)` is given `n <= 0`, and
  rule 3.6 makes `request` after cancellation a no-op. The client forwards
  every `request(n)` as a REQUEST, for any `long` `n`, at any time.
- Rule 3.7 makes a second `cancel()` a no-op. The client sends a CANCEL
  for every call.
- NACK is turned into `onError` whenever it arrives, even after an ACK.

## Model

| member | source | states |
|---|---|---|
| Text.IndexOf | java/stack-reactive-streams/src/main/java/io/muoncore/protocol/reactivestream/client/ReactiveStreamClientProtocol.java:67 | The result is -1 exactly when the character is absent. Otherwise it is a position holding the character, with none before it. |
| Text.TrimEmptyIffBlank | java/stack-reactive-streams/src/main/java/io/muoncore/protocol/reactivestream/client/ReactiveStreamClientProtocol.java:63 | `trim()` leaves an empty string exactly when every character is at most U+0020. |
| Text.Split | java/stack-reactive-streams/src/main/java/io/muoncore/protocol/reactivestream/client/ReactiveStreamClientProtocol.java:65 | Cutting at every separator gives at least one piece, and no piece holds the separator. |
| Text.JoinSplit | java/stack-reactive-streams/src/main/java/io/muoncore/protocol/reactivestream/client/ReactiveStreamClientProtocol.java:65 | Joining the pieces with the separator gives back the input, so no character is lost or added. |
| Text.SplitJoin | java/stack-reactive-streams/src/main/java/io/muoncore/protocol/reactivestream/client/ReactiveStreamClientProtocol.java:65 | Split is the only separator-free cut. Splitting a join of separator-free parts returns those parts. |
| Text.SplitAround | java/stack-reactive-streams/src/main/java/io/muoncore/protocol/reactivestream/client/ReactiveStreamClientProtocol.java:65 | Splitting `a & b` gives the pieces of `a` followed by the pieces of `b`. |
| Text.DropTrailingEmpty | java/stack-reactive-streams/src/main/java/io/muoncore/protocol/reactivestream/client/ReactiveStreamClientProtocol.java:65 | The result is a prefix of the pieces. It is empty or ends with a non-empty piece, and every piece it drops is empty. |
| Text.JavaSplitPieces | java/stack-reactive-streams/src/main/java/io/muoncore/protocol/reactivestream/client/ReactiveStreamClientProtocol.java:65 | `split("&")` returns the leading pieces in order, with no `&` in any of them. Only empty pieces are dropped, and when the text holds a `&` no trailing empty piece is kept. A text without `&` comes back whole. |
| LinkedMap.Put | java/stack-reactive-streams/src/main/java/io/muoncore/protocol/reactivestream/client/ReactiveStreamClientProtocol.java:69 | After `put(k, v)`, `get(k)` is `v` and every other key keeps its value. A present key keeps its position and an absent key is appended. Distinct keys stay distinct. |
| LinkedMap.FromPairsKeys | java/stack-reactive-streams/src/main/java/io/muoncore/protocol/reactivestream/client/ReactiveStreamClientProtocol.java:61-73 | The map holds exactly the keys that occur among the put pairs. |
| LinkedMap.FromPairsLastWins | java/stack-reactive-streams/src/main/java/io/muoncore/protocol/reactivestream/client/ReactiveStreamClientProtocol.java:61-73 | A repeated key takes the value of its last pair. |
| LinkedMap.FromPairsFirstOccurrenceOrder | java/stack-reactive-streams/src/main/java/io/muoncore/protocol/reactivestream/client/ReactiveStreamClientProtocol.java:61-73 | Entries stand in the order in which their keys first occur. A repeated key keeps its first position. |
| LinkedMap.FromPairsOfDistinct | java/stack-reactive-streams/src/main/java/io/muoncore/protocol/reactivestream/client/ReactiveStreamClientProtocol.java:61-73 | Putting pairs whose keys are already distinct rebuilds exactly those pairs. |
| Query.ParsePair | java/stack-reactive-streams/src/main/java/io/muoncore/protocol/reactivestream/client/ReactiveStreamClientProtocol.java:67-69 | A piece fails with MissingEquals exactly when it holds no `=`. |
| Query.ParsePairAtFirstEquals | java/stack-reactive-streams/src/main/java/io/muoncore/protocol/reactivestream/client/ReactiveStreamClientProtocol.java:67-69 | The cut is at the first `=`, so values may hold `=`. The key is decoded first, then the value, and the first failure is reported. |
| Query.DecodePairs | java/stack-reactive-streams/src/main/java/io/muoncore/protocol/reactivestream/client/ReactiveStreamClientProtocol.java:66-73 | The call succeeds exactly when every piece parses, with one pair per piece in order. On failure, the error is that of the first piece that fails. |
| Query.SplitQuery | java/stack-reactive-streams/src/main/java/io/muoncore/protocol/reactivestream/client/ReactiveStreamClientProtocol.java:60-75 | A missing or whitespace-only query gives no arguments. Otherwise the call fails exactly when some piece fails, and it reports the error of the first failing piece, as the loop's first exception does. A success holds distinct keys and is the ordered put of the decoded pairs. |
| Query.SplitQueryArguments | java/stack-reactive-streams/src/main/java/io/muoncore/protocol/reactivestream/client/ReactiveStreamClientProtocol.java:61-74 | On success there is one decoded pair per piece. The map has exactly the decoded keys. Each key has the value of its last piece and stands in the order of its first piece. |
| Query.SegmentWithoutEqualsFails | java/stack-reactive-streams/src/main/java/io/muoncore/protocol/reactivestream/client/ReactiveStreamClientProtocol.java:65-69 | Any kept piece without `=` in a non-blank query makes the call fail. |
| Query.EmptySegmentFails | java/stack-reactive-streams/src/main/java/io/muoncore/protocol/reactivestream/client/ReactiveStreamClientProtocol.java:65-69 | An empty piece that is not trailing makes the call fail. That is a leading `&` or a `&&` with a non-`&` character somewhere after it. |
| Query.TrailingSeparatorIgnored | java/stack-reactive-streams/src/main/java/io/muoncore/protocol/reactivestream/client/ReactiveStreamClientProtocol.java:65 | A trailing `&` on a non-blank query changes nothing. |
| Query.QueryRoundTrip | java/stack-reactive-streams/src/main/java/io/muoncore/protocol/reactivestream/client/ReactiveStreamClientProtocol.java:60-75 | Take distinct keys without `=` or `&` and values without `&`. Written as `k=v&…` and split with a verbatim decoder, they come back unchanged, in order. |
| Query.ExampleQuery | java/stack-reactive-streams/src/main/java/io/muoncore/protocol/reactivestream/client/ReactiveStreamClientProtocol.java:60-75 | `bar=1&baz=two word` gives `bar` → `1` and `baz` → `two word`, in that order. It uses the identity decoder, which is what `URLDecoder.decode` does to these four strings. |
| Messages.MessageNamesCulprit | java/stack-reactive-streams/src/main/java/io/muoncore/protocol/reactivestream/client/ReactiveStreamClientProtocol.java:111-118 | The service-not-found text contains the source service verbatim. The unknown-step text contains the step verbatim. Only the remote ERROR carries no message. |
| Messages.MessageIdentifiesFailure | java/stack-reactive-streams/src/main/java/io/muoncore/protocol/reactivestream/client/ReactiveStreamClientProtocol.java:97-118 | No two different failures share a message text. |
| ClientProtocol.Dispatch | java/stack-reactive-streams/src/main/java/io/muoncore/protocol/reactivestream/client/ReactiveStreamClientProtocol.java:79-120 | `onSubscribe` comes exactly for ACK. `onNext` comes exactly for DATA and wraps that message. `onComplete` comes exactly for COMPLETE or a null message. `onError` comes for every other step. NACK says "Stream does not exist". ERROR carries no message. CONNECTION_FAILURE reports the lost connection. SERVICE_NOT_FOUND reports "Service X does not exist" for the source service X. An unknown step is reported as a bug that names the step, never dropped. |
| ClientProtocol.HandleMessage | java/stack-reactive-streams/src/main/java/io/muoncore/protocol/reactivestream/client/ReactiveStreamClientProtocol.java:77-121 | Handling a message appends exactly one subscriber event, the dispatched one, and sends nothing. |
| ClientProtocol.SendRequest | java/stack-reactive-streams/src/main/java/io/muoncore/protocol/reactivestream/client/ReactiveStreamClientProtocol.java:123-138 | Appends exactly one send: a REQUEST, addressed to the URI host, carrying the encoding of `n`. The subscriber is untouched. |
| ClientProtocol.SendCancel | java/stack-reactive-streams/src/main/java/io/muoncore/protocol/reactivestream/client/ReactiveStreamClientProtocol.java:140-153 | Appends exactly one send: an addressed CANCEL carrying the encoding of an empty object. |
| ClientProtocol.SendSubscribe | java/stack-reactive-streams/src/main/java/io/muoncore/protocol/reactivestream/client/ReactiveStreamClientProtocol.java:155-168 | Appends exactly one send: an addressed SUBSCRIBE carrying the encoded request. |
| ClientProtocol.Start | java/stack-reactive-streams/src/main/java/io/muoncore/protocol/reactivestream/client/ReactiveStreamClientProtocol.java:50-58 | `start` registers the handler first. It throws exactly when the query cannot be split, and then sends nothing. Otherwise it sends exactly one SUBSCRIBE, carrying the URI path and the split query. |
| ClientProtocol.ActionMessage | java/stack-reactive-streams/src/main/java/io/muoncore/protocol/reactivestream/client/ReactiveStreamClientProtocol.java:85-152 | `request(n)` maps to an addressed REQUEST carrying the codec's encoding of `RequestMessage(n)`. `cancel` maps to an addressed CANCEL carrying the encoding of an empty object. |
| ClientProtocol.Perform | java/stack-reactive-streams/src/main/java/io/muoncore/protocol/reactivestream/client/ReactiveStreamClientProtocol.java:85-95 | Each subscription call sends exactly its one message and leaves the subscriber untouched. |
| ClientProtocol.RunSeparates | java/stack-reactive-streams/src/main/java/io/muoncore/protocol/reactivestream/client/ReactiveStreamClientProtocol.java:77-153 | Take any interleaving of deliveries and subscription calls. The result is the deliveries' events and the calls' sends, each in input order. No input depends on an earlier one. |
| ClientProtocol.RunCounts | java/stack-reactive-streams/src/main/java/io/muoncore/protocol/reactivestream/client/ReactiveStreamClientProtocol.java:77-153 | A run makes one subscriber call per delivered message and one send per subscription call. |
| ClientProtocol.StartedRunAddressed | java/stack-reactive-streams/src/main/java/io/muoncore/protocol/reactivestream/client/ReactiveStreamClientProtocol.java:129-167 | After `start` and any run, every send carries `reactive-stream`, the configured service name and the URI host. |
| ClientProtocol.ClosedChannelCompletes | java/stack-reactive-streams/src/main/java/io/muoncore/protocol/reactivestream/client/ReactiveStreamClientProtocol.java:79-82 | A null message produces exactly one `onComplete` and nothing else. |
| ClientProtocol.RequestCarriesDemandUnchanged | java/stack-reactive-streams/src/main/java/io/muoncore/protocol/reactivestream/client/ReactiveStreamClientProtocol.java:123-137 | Take any `long` `n`, zero and negatives included, and a codec that round-trips. Decoding the REQUEST payload gives back exactly `n`. |
| ClientProtocol.CancelTwiceSendsTwice | java/stack-reactive-streams/src/main/java/io/muoncore/protocol/reactivestream/client/ReactiveStreamClientProtocol.java:140-153 | Two `cancel()` calls send two identical CANCEL messages. |
| ClientProtocol.AckThenRequest | java/stack-reactive-streams/src/main/java/io/muoncore/protocol/reactivestream/client/ReactiveStreamClientProtocol.java:84-96 | ACK then `request(3)` gives one `onSubscribe` and one REQUEST carrying 3. |
| ClientProtocol.DeliveredAfterTerminal | java/stack-reactive-streams/src/main/java/io/muoncore/protocol/reactivestream/client/ReactiveStreamClientProtocol.java:77-121 | With no lifecycle guard, a message after `onError`/`onComplete` is still dispatched to the subscriber. |
| ClientProtocol.RequestAfterTerminalStillSends | java/stack-reactive-streams/src/main/java/io/muoncore/protocol/reactivestream/client/ReactiveStreamClientProtocol.java:85-95 | With no lifecycle guard, `request(n)` after a terminal event still sends its REQUEST. |

## Left out

- `ReactiveStreamJSServerStack`, `ReactiveStreamServer` and the JavaScript `protocol.js`: server wiring, an embedded script engine and promise plumbing, with no client protocol logic.
- The server-side protocol (ACK/NACK on SUBSCRIBE, relaying REQUEST and CANCEL to a publisher): `ReactiveStreamServerStack` and `DefaultPublisherLookup` are not part of this model.
- Codec encoding, discovery's codec lookup and URL decoding: library calls, modelled as opaque function parameters. Most properties hold for any choice of them. These do not:
  - RequestCarriesDemandUnchanged assumes a codec that round-trips.
  - QueryRoundTrip and ExampleQuery are proved only for the identity decoder (`Verbatim`).
  - CancelTwiceSendsTwice's "identical" relies on the next point.
- Discovery and the codec as functions: the model takes `getCodecsForService` and `encode` to be total and to give the same result on every call. In the source they are asked again on every send and could throw or answer differently over time.
- A null source service on SERVICE_NOT_FOUND: Java prints "Service null does not exist". The model's source service is always a string.
- `StreamData`'s lazy payload decoding and its `setCodecs` call: the element is modelled as the wrapped inbound message.
- The wire spellings of the step constants: they live in `ProtocolMessages` and `TransportEvents`, which are not part of this model. Steps are a datatype, and `Other(name)` stands for any step text outside the seven handled constants, including client-to-server step names received inbound.
- A `null` step: the Java `switch` on a null string throws. Steps are never null in the model.
- `java.net.URI` parsing: the host, the path and the query are given as already parsed. The query is the text `getQuery()` returns, or None when it returns null. A null host or path is not modelled.
- `MuonEncodingException` for an unsupported charset: it cannot happen with `"UTF-8"`. The decoder's other failure (a malformed escape) is modelled as `Undecodable`.
- Exception classes: failures are modelled by kind and message text only.
- `ReactiveStreamSubscriptionRequest.arg`: the class is not part of this model. The request is taken to carry the split-query map as is, in order.
- Asynchrony, threading and the transport's delivery order: inputs are applied one at a time in the order given.
