# WebSocket sub-protocol negotiation of the ActiveMQ WebSocket servlet

This project models, in Dafny, how the ActiveMQ Jetty 9 WebSocket servlet
(`WSServlet`) negotiates a sub-protocol when an HTTP connection is upgraded to
a WebSocket. Section 4.2.2 of RFC 6455 lets the server pick one of the
tokens the client offers in `Sec-WebSocket-Protocol` and echo it back, or
send no such header when it accepts none of them. The servlet echoes an
offered token only when one is registered in its table. Otherwise it answers
the family default, `stomp` or `mqtt`, even though the client did not offer
it. That departs from section 4.2.2 of RFC 6455, and the model keeps it. The
servlet works in three steps:

- **Registry** (`registry.dfy`). Two fixed priority tables: STOMP
  (`v12.stomp`→3, `v11.stomp`→2, `v10.stomp`→1, `stomp`→0) and MQTT
  (`mqttv3.1`→1, `mqtt`→0). They are immutable `map<string, int>` constants.
- **Classifier** (`classifier.dfy`). An upgrade is MQTT when any offered
  token starts with `"mqtt"` (case-sensitive, position irrelevant), and STOMP
  otherwise. The `isMqtt` loop is the method `Classify`. It is proved equal
  to the specification function `Classification`.
- **Selector** (`selector.dfy`). This is `getAcceptedSubProtocol`. A loop
  keeps the offered tokens that are table keys, in client order. The list is
  sorted by descending priority, and the first entry is returned. When
  nothing matched, the default is returned. The method is proved against
  `AcceptedSubProtocol`: the earliest offered candidate of highest priority,
  else the default. `Collections.sort` is modelled by a stable insertion
  sort, `SortByPriority`. It is proved to be a permutation, descending and
  stable, and its head is proved to be the earliest highest candidate.
- **Dispatcher** (`dispatcher.dfy`). This is `createWebSocket`, a method of
  the class `WSServlet`. It classifies the offer and builds a `Socket`
  tagged with the family. It sets the accepted sub-protocol on the
  `UpgradeResponse`, selected against that family's table and default. It
  calls `onAccept` on the `TransportAcceptListener` once and returns the
  same socket. The listener keeps a ghost log of its `onAccept` calls. The
  response keeps a ghost log of its `setAcceptedSubProtocol` calls.

Java `null` is modelled by `Outcomes.Option`, and a thrown exception by
`Outcomes.Outcome` (`outcomes.dfy`). Offered tokens are
`seq<Option<string>>`. A `null` candidate list passed to
`getAcceptedSubProtocol` is modelled as the empty sequence, because the
code answers the default for both. The dispatcher always receives a list,
since Jetty's upgrade request never hands out a null one.

Some details of the code are easy to misread, and the model follows the code on each:

- Only the MQTT socket receives the defensive copy of the transport options
  (`new HashMap(transportOptions)`, line 92). The STOMP socket receives none.
- Both families receive their certificates through a setter (lines 93 and 96),
  not through a constructor.
- A `null` offered token is not skipped. The classifying loop calls
  `startsWith` on it and throws, so no socket is built and nothing is accepted.
- With the shipped tables, each default (`stomp`, `mqtt`) is itself
  registered at priority 0. So the accepted token is always a key of the
  family's table (`Dispatcher.Negotiate`).

Classification followed by selection is a pure function (`Negotiate`). It
therefore gives the same (family, token) pair every time it is applied to the
same offer.

## Model

| member | source | states |
|---|---|---|
| Registry.DefaultIsLowestRegistered | activemq-http/src/main/java/org/apache/activemq/transport/ws/jetty9/WSServlet.java:53-61 | each family's default token is a key of its own table, at priority 0, and no key has a lower priority |
| Registry.PrioritiesAreDistinct | activemq-http/src/main/java/org/apache/activemq/transport/ws/jetty9/WSServlet.java:53-61 | within one table no two tokens share a priority, so the best match is unique |
| Registry.FamiliesAreDisjoint | activemq-http/src/main/java/org/apache/activemq/transport/ws/jetty9/WSServlet.java:53-61 | no token is registered in both the STOMP and the MQTT table |
| Selector.Matched | activemq-http/src/main/java/org/apache/activemq/transport/ws/jetty9/WSServlet.java:107-116 | the matched list holds only table keys paired with their table priority, is no longer than the offer, and is empty exactly when no non-null offered token is a key; every non-null offered key is kept, with its table priority |
| Selector.MatchedAppend | activemq-http/src/main/java/org/apache/activemq/transport/ws/jetty9/WSServlet.java:110-116 | matching keeps client order: the matches of an offer a + b are the matches of a followed by those of b |
| Selector.BestIndex | activemq-http/src/main/java/org/apache/activemq/transport/ws/jetty9/WSServlet.java:118-125 | there is no index exactly when nothing is offered; otherwise the index is an offered candidate whose priority is at least every offered one's and strictly above every earlier offered one's |
| Selector.EarliestHighestIsUnique | activemq-http/src/main/java/org/apache/activemq/transport/ws/jetty9/WSServlet.java:119-125 | the highest-priority candidate that is earliest among ties is a single index |
| Selector.AcceptedSubProtocol | activemq-http/src/main/java/org/apache/activemq/transport/ws/jetty9/WSServlet.java:105-129 | with no offered table key the answer is the default; otherwise it is the earliest offered candidate of highest priority |
| Selector.AcceptsEarliestHighest | activemq-http/src/main/java/org/apache/activemq/transport/ws/jetty9/WSServlet.java:118-125 | whenever an index is the earliest highest candidate, the selection answers exactly that token |
| Selector.InsertByPriorityIsPermutation | activemq-http/src/main/java/org/apache/activemq/transport/ws/jetty9/WSServlet.java:119-125 | one insertion step of the sort adds exactly the inserted entry |
| Selector.InsertByPriorityKeepsSorted | activemq-http/src/main/java/org/apache/activemq/transport/ws/jetty9/WSServlet.java:119-125 | inserting into a descending list keeps it descending, and the new head is the inserted entry only if it outranks the old head strictly |
| Selector.SortByPriorityIsSorted | activemq-http/src/main/java/org/apache/activemq/transport/ws/jetty9/WSServlet.java:119-124 | after the sort, priorities never increase along the list (comparator s2.priority.compareTo(s1.priority)) |
| Selector.SortByPriorityIsPermutation | activemq-http/src/main/java/org/apache/activemq/transport/ws/jetty9/WSServlet.java:119-124 | the sort neither loses nor adds a matched entry (same multiset) |
| Selector.InsertByPriorityIsStable | activemq-http/src/main/java/org/apache/activemq/transport/ws/jetty9/WSServlet.java:119-125 | an insertion places the new entry after every entry of equal priority |
| Selector.SortByPriorityIsStable | activemq-http/src/main/java/org/apache/activemq/transport/ws/jetty9/WSServlet.java:119-124 | the sort is stable: for every priority, the entries of that priority keep their client order |
| Selector.SortedHeadIsBest | activemq-http/src/main/java/org/apache/activemq/transport/ws/jetty9/WSServlet.java:118-125 | the sorted matched list is empty exactly when nothing is offered, and otherwise its first entry is the earliest offered candidate of highest priority |
| Selector.GetAcceptedSubProtocol | activemq-http/src/main/java/org/apache/activemq/transport/ws/jetty9/WSServlet.java:105-129 | the loop-and-sort selector, with null candidates skipped, answers exactly AcceptedSubProtocol |
| Selector.MatchedAsWritten | activemq-http/src/main/java/org/apache/activemq/transport/ws/jetty9/WSServlet.java:110-116 | the matching loop as written throws exactly when some candidate is null, because the map lookup precedes the null test; otherwise it gives the matched list |
| Selector.AcceptedSubProtocolAsWritten | activemq-http/src/main/java/org/apache/activemq/transport/ws/jetty9/WSServlet.java:105-129 | the selector as written throws exactly when a candidate is null, and otherwise agrees with AcceptedSubProtocol |
| Selector.NullCandidateThrowsAsWritten | activemq-http/src/main/java/org/apache/activemq/transport/ws/jetty9/WSServlet.java:111-113 | on the offer [null, "v12.stomp"] against the STOMP table, the code as written throws, whereas skipping the null answers "v12.stomp" |
| Classifier.Classify | activemq-http/src/main/java/org/apache/activemq/transport/ws/jetty9/WSServlet.java:83-88 | the isMqtt loop throws on a null token; otherwise it answers MQTT exactly when some token starts with "mqtt", and STOMP otherwise |
| Classifier.ClassificationAgreesWithTables | activemq-http/src/main/java/org/apache/activemq/transport/ws/jetty9/WSServlet.java:83-89 | an offer holding an MQTT table key (and no null) is classified MQTT, and an offer classified STOMP holds no MQTT table key |
| Classifier.ClassificationExamples | activemq-http/src/main/java/org/apache/activemq/transport/ws/jetty9/WSServlet.java:83-89 | ["mqtt","v10.stomp"] and ["v10.stomp","mqttv3.1"] are MQTT; ["MQTT"] and [] are STOMP (case-sensitive); a null token throws |
| Dispatcher.Negotiate | activemq-http/src/main/java/org/apache/activemq/transport/ws/jetty9/WSServlet.java:89-98 | the pipeline throws exactly on a null token; otherwise the family is MQTT exactly when an "mqtt"-prefixed token is offered, the accepted token is a key of that family's table, it is the family default when no key is offered, and otherwise it is the earliest highest offered key |
| Dispatcher.NegotiatesEarliestHighest | activemq-http/src/main/java/org/apache/activemq/transport/ws/jetty9/WSServlet.java:89-98 | once classified, the upgrade accepts the earliest highest candidate of that family's own table |
| Dispatcher.NegotiationPrefersNewestStomp | activemq-http/src/main/java/org/apache/activemq/transport/ws/jetty9/WSServlet.java:95-97 | ["v12.stomp","v10.stomp"] negotiates STOMP with "v12.stomp" |
| Dispatcher.NegotiationSkipsUnknownTokens | activemq-http/src/main/java/org/apache/activemq/transport/ws/jetty9/WSServlet.java:110-116 | ["v10.stomp","chat","v11.stomp"] negotiates STOMP with "v11.stomp"; the unknown token is ignored |
| Dispatcher.NegotiationOfMqttOffers | activemq-http/src/main/java/org/apache/activemq/transport/ws/jetty9/WSServlet.java:89-91 | ["mqttv3.1"] negotiates MQTT with "mqttv3.1"; ["mqtt","v10.stomp"] negotiates MQTT with "mqtt" |
| Dispatcher.NegotiationOfEmptyOffer | activemq-http/src/main/java/org/apache/activemq/transport/ws/jetty9/WSServlet.java:83-97 | an empty offer negotiates STOMP with the default "stomp" |
| Dispatcher.UnmatchedOfferGetsUnofferedDefault | activemq-http/src/main/java/org/apache/activemq/transport/ws/jetty9/WSServlet.java:91-97 | when no offered token is a key of the classified family's table, the answered token is that family's default, and the client did not offer it; ["chat"] negotiates STOMP with "stomp" |
| Dispatcher.Socket.constructor | activemq-http/src/main/java/org/apache/activemq/transport/ws/jetty9/WSServlet.java:90 | a new socket carries its family and the generated remote address, with no certificates or options yet |
| Dispatcher.Socket.SetCertificates | activemq-http/src/main/java/org/apache/activemq/transport/ws/jetty9/WSServlet.java:96 | setCertificates (STOMP) and setPeerCertificates (line 93, MQTT) store the certificates and change nothing else |
| Dispatcher.Socket.SetTransportOptions | activemq-http/src/main/java/org/apache/activemq/transport/ws/jetty9/WSServlet.java:92 | the MQTT socket stores the options copy and changes nothing else |
| Dispatcher.UpgradeResponse.SetAcceptedSubProtocol | activemq-http/src/main/java/org/apache/activemq/transport/ws/jetty9/WSServlet.java:91 | the response answers the given token, and the call is logged |
| Dispatcher.TransportAcceptListener.OnAccept | activemq-http/src/main/java/org/apache/activemq/transport/ws/jetty9/WSServlet.java:99 | the accept log grows by exactly the given socket |
| Dispatcher.WSServlet.constructor | activemq-http/src/main/java/org/apache/activemq/transport/ws/jetty9/WSServlet.java:64-70 | the servlet holds the non-null accept listener; transport options are unset (null) |
| Dispatcher.WSServlet.SetTransportOptions | activemq-http/src/main/java/org/apache/activemq/transport/ws/jetty9/WSServlet.java:140-142 | the servlet's transport options become the given map |
| Dispatcher.WSServlet.CreateWebSocket | activemq-http/src/main/java/org/apache/activemq/transport/ws/jetty9/WSServlet.java:81-101 | a null token throws before any effect; otherwise the response gets the negotiated token exactly once; an MQTT upgrade with unset options throws after that without calling onAccept; otherwise a fresh socket of the classified family, with the request's address and certificates and (MQTT only) the options, is passed to onAccept exactly once and returned |

## Left out

- `init` reading `acceptListener` from the servlet context and failing when it is absent (lines 64-70): the constructor takes a non-null listener instead, so the startup failure path is not modelled.
- `doGet` forwarding plain GET requests to the `default` dispatcher (lines 73-75): this is I/O plumbing.
- `configure` wiring the anonymous `WebSocketCreator` into Jetty's factory (lines 78-79): this is framework glue. `createWebSocket` is modelled as a method of the servlet.
- The internals of `MQTTSocket`, `StompSocket` and `HttpTransportUtils.generateWsRemoteAddress` are not part of this model. The sockets are a class that only stores what it is given. The remote address is a string field of the request.
- Certificates and transport options are opaque values that are passed through.
- Dispatcher.Socket.SetTransportOptions: `new HashMap(transportOptions)` is modelled as passing the map value. Dafny maps are values, so aliasing between the servlet's map and the socket's copy cannot arise, and the copy itself is not represented.
- Selector.GetAcceptedSubProtocol: `Collections.sort` sorting the `ArrayList` in place is modelled as reassigning the list to the value of a pure stable sort. Any stable sort under this comparator yields that same list.
- The `ConcurrentHashMap` tables and concurrent upgrades: the tables are read-only after the static initialiser, so they are constants, and each upgrade is modelled as one sequential call.
- A `null` candidate list reaching `createWebSocket` (the for-each loop at line 84 would throw): Jetty always supplies a list, so the dispatcher takes a sequence.

## Findings

| source | as written | input that shows it | evidently intended | confidence | as-written member | corrected member |
|---|---|---|---|---|---|---|
| activemq-http/src/main/java/org/apache/activemq/transport/ws/jetty9/WSServlet.java:111-112 | `protocols.get(subProtocol)` runs before the `subProtocol != null` test. The tables are `ConcurrentHashMap`s, whose `get(null)` throws `NullPointerException`, so the null test never takes effect | `getAcceptedSubProtocol(stompProtocols, [null, "v12.stomp"], "stomp")` throws instead of answering `"v12.stomp"` | null candidates are skipped silently, as the comment at line 113 says | high that the null test at line 112 is dead code, not executed; the method is private and its only calls (lines 91 and 97) come after the classifying loop of lines 84-88, which already throws on a null token, so the discrepancy cannot be observed through `createWebSocket` | Selector.AcceptedSubProtocolAsWritten, Selector.NullCandidateThrowsAsWritten | Selector.GetAcceptedSubProtocol |
