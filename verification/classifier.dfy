/**
 * The protocol classifier of `createWebSocket`: an upgrade is MQTT when some
 * offered token starts with "mqtt", and STOMP otherwise.
 */
module Classifier {
  import opened Outcomes
  import opened Registry

  /** Java's case-sensitive `token.startsWith("mqtt")`. */
  predicate HasMqttPrefix(token: string) {
    |token| >= 4 && token[..4] == "mqtt"
  }

  /** Some offered token, wherever it stands, carries the MQTT prefix. */
  predicate OffersMqtt(cands: seq<Option<string>>) {
    exists i :: 0 <= i < |cands| && cands[i].Some? && HasMqttPrefix(cands[i].value)
  }

  /**
   * The family an offer is classified as. A `null` token makes the
   * `startsWith` call throw, whatever else was offered.
   */
  function Classification(cands: seq<Option<string>>): Outcome<Family> {
    if ContainsNull(cands) then Throws(NullPointerException)
    else if OffersMqtt(cands) then Returns(Mqtt)
    else Returns(Stomp)
  }

  /** The `isMqtt` loop at the head of `createWebSocket`. */
  method Classify(subProtocols: seq<Option<string>>) returns (r: Outcome<Family>)
    ensures r == Classification(subProtocols)
  {
    var isMqtt := false;
    for i := 0 to |subProtocols|
      invariant forall k :: 0 <= k < i ==> subProtocols[k].Some?
      invariant isMqtt <==> exists k :: 0 <= k < i && subProtocols[k].Some? && HasMqttPrefix(subProtocols[k].value)
    {
      var subProtocol := subProtocols[i];
      if subProtocol.None? {
        return Throws(NullPointerException);
      }
      if HasMqttPrefix(subProtocol.value) {
        isMqtt := true;
      }
    }
    r := if isMqtt then Returns(Mqtt) else Returns(Stomp);
  }

  /**
   * Classification agrees with the tables: an offer holding an MQTT table key
   * is MQTT, and an offer classified STOMP holds no MQTT table key.
   */
  lemma ClassificationAgreesWithTables(cands: seq<Option<string>>)
    ensures !ContainsNull(cands) && (exists i :: 0 <= i < |cands| && cands[i].Some? && cands[i].value in MqttProtocols)
            ==> Classification(cands) == Returns(Mqtt)
    ensures Classification(cands) == Returns(Stomp) ==>
              forall i :: 0 <= i < |cands| && cands[i].Some? ==> cands[i].value !in MqttProtocols
  {
    forall i | 0 <= i < |cands| && cands[i].Some? && cands[i].value in MqttProtocols
      ensures HasMqttPrefix(cands[i].value)
    {
      assert cands[i].value == "mqttv3.1" || cands[i].value == "mqtt";
    }
  }

  /** Presence, not position, decides; an empty offer is STOMP. */
  lemma ClassificationExamples()
    ensures Classification([Some("mqtt"), Some("v10.stomp")]) == Returns(Mqtt)
    ensures Classification([Some("v10.stomp"), Some("mqttv3.1")]) == Returns(Mqtt)
    ensures Classification([Some("MQTT")]) == Returns(Stomp)
    ensures Classification([]) == Returns(Stomp)
    ensures Classification([Some("mqtt"), None]) == Throws(NullPointerException)
  {
    var a: seq<Option<string>> := [Some("mqtt"), Some("v10.stomp")];
    assert a[0].Some? && HasMqttPrefix(a[0].value);
    var b: seq<Option<string>> := [Some("v10.stomp"), Some("mqttv3.1")];
    assert b[1].Some? && HasMqttPrefix(b[1].value);
    var c: seq<Option<string>> := [Some("MQTT")];
    assert "MQTT"[..4] != "mqtt" by { assert "MQTT"[0] != "mqtt"[0]; }
    var d: seq<Option<string>> := [Some("mqtt"), None];
    assert d[1].None?;
  }
}
