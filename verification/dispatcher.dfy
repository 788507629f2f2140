/**
 * The upgrade dispatcher `createWebSocket`: classify the offered
 * sub-protocols, build the socket of that family, answer the accepted
 * sub-protocol on the response, hand the socket to the accept listener once
 * and return it.
 */
module Dispatcher {
  import opened Outcomes
  import opened Registry
  import Selector
  import Classifier

  /** Peer certificate material; passed through, never inspected. */
  datatype PeerCertificates = NoCertificates | CertificateChain(encoded: seq<string>)

  /** The servlet's transport options; their contents are not interpreted. */
  type TransportOptions = map<string, string>

  /** What `createWebSocket` reads from the upgrade request. */
  datatype UpgradeRequest = UpgradeRequest(
    subProtocols: seq<Option<string>>,
    // the address HttpTransportUtils.generateWsRemoteAddress derives from the HTTP request
    wsRemoteAddress: string,
    certificates: PeerCertificates)

  /** The family an upgrade is dispatched to and the sub-protocol it accepts. */
  datatype Negotiation = Negotiation(family: Family, token: string)

  /**
   * Classification followed by selection against the family's own table and
   * default. The answer is always a key of that table.
   */
  function Negotiate(cands: seq<Option<string>>): (r: Outcome<Negotiation>)
    ensures r.Throws? <==> ContainsNull(cands)
    ensures r.Returns? ==> (r.value.family == Mqtt <==> Classifier.OffersMqtt(cands))
    ensures r.Returns? ==> r.value.token in ProtocolsOf(r.value.family)
    ensures r.Returns? && (forall i :: 0 <= i < |cands| ==> !Selector.Offered(ProtocolsOf(r.value.family), cands, i))
            ==> r.value.token == DefaultProtocolOf(r.value.family)
    ensures r.Returns? && (exists i :: Selector.Offered(ProtocolsOf(r.value.family), cands, i))
            ==> exists i :: Selector.EarliestHighest(ProtocolsOf(r.value.family), cands, i) && r.value.token == cands[i].value
  {
    match Classifier.Classification(cands)
    case Throws(e) => Throws(e)
    case Returns(family) =>
      DefaultIsLowestRegistered(family);
      Returns(Negotiation(family, Selector.AcceptedSubProtocol(ProtocolsOf(family), cands, DefaultProtocolOf(family))))
  }

  /** Negotiation answers the earliest highest candidate of the classified family. */
  lemma NegotiatesEarliestHighest(cands: seq<Option<string>>, family: Family, i: int)
    requires Classifier.Classification(cands) == Returns(family)
    requires Selector.EarliestHighest(ProtocolsOf(family), cands, i)
    ensures Negotiate(cands) == Returns(Negotiation(family, cands[i].value))
  {
    Selector.AcceptsEarliestHighest(ProtocolsOf(family), cands, i, DefaultProtocolOf(family));
  }

  lemma NegotiationPrefersNewestStomp()
    ensures Negotiate([Some("v12.stomp"), Some("v10.stomp")]) == Returns(Negotiation(Stomp, "v12.stomp"))
  {
    var cands: seq<Option<string>> := [Some("v12.stomp"), Some("v10.stomp")];
    assert !Classifier.HasMqttPrefix("v12.stomp") by { assert "v12.stomp"[..4][0] == 'v'; }
    assert !Classifier.HasMqttPrefix("v10.stomp") by { assert "v10.stomp"[..4][0] == 'v'; }
    assert Classifier.Classification(cands) == Returns(Stomp);
    assert Selector.EarliestHighest(StompProtocols, cands, 0);
    NegotiatesEarliestHighest(cands, Stomp, 0);
  }

  lemma NegotiationSkipsUnknownTokens()
    ensures Negotiate([Some("v10.stomp"), Some("chat"), Some("v11.stomp")]) == Returns(Negotiation(Stomp, "v11.stomp"))
  {
    var cands: seq<Option<string>> := [Some("v10.stomp"), Some("chat"), Some("v11.stomp")];
    assert !Classifier.HasMqttPrefix("v10.stomp") by { assert "v10.stomp"[..4][0] == 'v'; }
    assert !Classifier.HasMqttPrefix("chat") by { assert "chat"[..4][0] == 'c'; }
    assert !Classifier.HasMqttPrefix("v11.stomp") by { assert "v11.stomp"[..4][0] == 'v'; }
    assert Classifier.Classification(cands) == Returns(Stomp);
    assert Selector.EarliestHighest(StompProtocols, cands, 2);
    NegotiatesEarliestHighest(cands, Stomp, 2);
  }

  lemma NegotiationOfMqttOffers()
    ensures Negotiate([Some("mqttv3.1")]) == Returns(Negotiation(Mqtt, "mqttv3.1"))
    ensures Negotiate([Some("mqtt"), Some("v10.stomp")]) == Returns(Negotiation(Mqtt, "mqtt"))
  {
    var c: seq<Option<string>> := [Some("mqttv3.1")];
    assert c[0].Some? && Classifier.HasMqttPrefix(c[0].value);
    assert Selector.EarliestHighest(MqttProtocols, c, 0);
    NegotiatesEarliestHighest(c, Mqtt, 0);

    var d: seq<Option<string>> := [Some("mqtt"), Some("v10.stomp")];
    assert d[0].Some? && Classifier.HasMqttPrefix(d[0].value);
    assert Selector.EarliestHighest(MqttProtocols, d, 0);
    NegotiatesEarliestHighest(d, Mqtt, 0);
  }

  lemma NegotiationOfEmptyOffer()
    ensures Negotiate([]) == Returns(Negotiation(Stomp, "stomp"))
  {
  }

  /**
   * With no registered token offered, the answer is the family default,
   * which the client did not offer.
   */
  lemma UnmatchedOfferGetsUnofferedDefault(cands: seq<Option<string>>)
    requires Negotiate(cands).Returns?
    requires forall i :: 0 <= i < |cands| ==> !Selector.Offered(ProtocolsOf(Negotiate(cands).value.family), cands, i)
    ensures Negotiate(cands).value.token == DefaultProtocolOf(Negotiate(cands).value.family)
    ensures forall i :: 0 <= i < |cands| ==> cands[i] != Some(Negotiate(cands).value.token)
    ensures cands == [Some("chat")] ==> Negotiate(cands) == Returns(Negotiation(Stomp, "stomp"))
  {
    var n := Negotiate(cands).value;
    forall i | 0 <= i < |cands|
      ensures cands[i] != Some(n.token)
    {
      assert n.token in ProtocolsOf(n.family);
      assert !Selector.Offered(ProtocolsOf(n.family), cands, i);
    }
    if cands == [Some("chat")] {
      assert !Classifier.HasMqttPrefix("chat") by { assert "chat"[..4][0] == 'c'; }
      assert Classifier.Classification(cands) == Returns(Stomp);
    }
  }

  /** The MQTTSocket or StompSocket built for an upgrade, tagged with its family. */
  class Socket {
    const family: Family
    const remoteAddress: string
    var certificates: Option<PeerCertificates>
    var transportOptions: Option<TransportOptions>

    constructor (family: Family, remoteAddress: string)
      ensures this.family == family && this.remoteAddress == remoteAddress
      ensures certificates == None && transportOptions == None
    {
      this.family := family;
      this.remoteAddress := remoteAddress;
      certificates := None;
      transportOptions := None;
    }

    /** `setCertificates` of the STOMP socket, `setPeerCertificates` of the MQTT one. */
    method SetCertificates(certificates: PeerCertificates)
      modifies this
      ensures this.certificates == Some(certificates)
      ensures transportOptions == old(transportOptions)
    {
      this.certificates := Some(certificates);
    }

    method SetTransportOptions(options: TransportOptions)
      modifies this
      ensures transportOptions == Some(options)
      ensures certificates == old(certificates)
    {
      transportOptions := Some(options);
    }
  }

  /** The upgrade response, as far as the accepted sub-protocol goes. */
  class UpgradeResponse {
    var acceptedSubProtocol: Option<string>
    // every value passed to setAcceptedSubProtocol, in call order
    ghost var subProtocolSets: seq<string>

    constructor ()
      ensures acceptedSubProtocol == None && subProtocolSets == []
    {
      acceptedSubProtocol := None;
      subProtocolSets := [];
    }

    method SetAcceptedSubProtocol(protocol: string)
      modifies this
      ensures acceptedSubProtocol == Some(protocol)
      ensures subProtocolSets == old(subProtocolSets) + [protocol]
    {
      acceptedSubProtocol := Some(protocol);
      subProtocolSets := subProtocolSets + [protocol];
    }
  }

  /** The broker's accept listener, seen through the log of its `onAccept` calls. */
  class TransportAcceptListener {
    ghost var accepted: seq<Socket>

    constructor ()
      ensures accepted == []
    {
      accepted := [];
    }

    method OnAccept(socket: Socket)
      modifies this
      ensures accepted == old(accepted) + [socket]
    {
      accepted := accepted + [socket];
    }
  }

  class WSServlet {
    /** The listener `init` found in the servlet context; never null once serving. */
    const listener: TransportAcceptListener
    /** `null` (`None`) until `setTransportOptions` is called. */
    var transportOptions: Option<TransportOptions>

    constructor (listener: TransportAcceptListener)
      ensures this.listener == listener && transportOptions == None
    {
      this.listener := listener;
      transportOptions := None;
    }

    method SetTransportOptions(options: TransportOptions)
      modifies this
      ensures transportOptions == Some(options)
    {
      transportOptions := Some(options);
    }

    /**
     * `createWebSocket`. A `null` offered token throws in the classifying
     * loop before anything happens. Otherwise the response gets the
     * negotiated token exactly once; the MQTT branch then throws if the
     * transport options were never set (copying `null`), and otherwise a
     * fresh socket of the classified family is handed to `onAccept` once and
     * returned.
     */
    method CreateWebSocket(req: UpgradeRequest, resp: UpgradeResponse) returns (r: Outcome<Socket>)
      modifies listener, resp
      ensures ContainsNull(req.subProtocols) ==>
                r == Throws(NullPointerException) && unchanged(resp) && unchanged(listener)
      ensures !ContainsNull(req.subProtocols) ==>
                var n := Negotiate(req.subProtocols).value;
                && resp.acceptedSubProtocol == Some(n.token)
                && resp.subProtocolSets == old(resp.subProtocolSets) + [n.token]
                && (n.family == Mqtt && transportOptions.None? ==>
                      r == Throws(NullPointerException) && listener.accepted == old(listener.accepted))
                && (n.family == Stomp || transportOptions.Some? ==>
                      && r.Returns? && fresh(r.value)
                      && r.value.family == n.family
                      && r.value.remoteAddress == req.wsRemoteAddress
                      && r.value.certificates == Some(req.certificates)
                      && r.value.transportOptions == (if n.family == Mqtt then transportOptions else None)
                      && listener.accepted == old(listener.accepted) + [r.value])
    {
      var classified := Classifier.Classify(req.subProtocols);
      if classified.Throws? {
        return Throws(classified.exception);
      }
      var socket: Socket;
      if classified.value == Mqtt {
        socket := new Socket(Mqtt, req.wsRemoteAddress);
        var accepted := Selector.GetAcceptedSubProtocol(MqttProtocols, req.subProtocols, "mqtt");
        resp.SetAcceptedSubProtocol(accepted);
        if transportOptions.None? {
          // the defensive copy of a null map throws
          return Throws(NullPointerException);
        }
        socket.SetTransportOptions(transportOptions.value);
        socket.SetCertificates(req.certificates);
      } else {
        socket := new Socket(Stomp, req.wsRemoteAddress);
        socket.SetCertificates(req.certificates);
        var accepted := Selector.GetAcceptedSubProtocol(StompProtocols, req.subProtocols, "stomp");
        resp.SetAcceptedSubProtocol(accepted);
      }
      listener.OnAccept(socket);
      r := Returns(socket);
    }
  }
}
