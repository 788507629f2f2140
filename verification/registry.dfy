/**
 * The two fixed sub-protocol priority tables of the WebSocket servlet.
 * They are filled once by a static initialiser and only read afterwards,
 * so they are immutable constants here. A higher priority wins.
 */
module Registry {

  /** The protocol family a WebSocket upgrade is dispatched to. */
  datatype Family = Stomp | Mqtt

  const StompProtocols: map<string, int> :=
    map["v12.stomp" := 3, "v11.stomp" := 2, "v10.stomp" := 1, "stomp" := 0]

  const MqttProtocols: map<string, int> :=
    map["mqttv3.1" := 1, "mqtt" := 0]

  /** The table a family's sub-protocol is selected against. */
  function ProtocolsOf(family: Family): map<string, int> {
    match family
    case Stomp => StompProtocols
    case Mqtt => MqttProtocols
  }

  /** The token answered when none of the offered ones is in the family's table. */
  function DefaultProtocolOf(family: Family): string {
    match family
    case Stomp => "stomp"
    case Mqtt => "mqtt"
  }

  /** Each default is itself registered, at the lowest priority of its table. */
  lemma DefaultIsLowestRegistered(family: Family)
    ensures DefaultProtocolOf(family) in ProtocolsOf(family)
    ensures ProtocolsOf(family)[DefaultProtocolOf(family)] == 0
    ensures forall t :: t in ProtocolsOf(family) ==> ProtocolsOf(family)[t] >= 0
  {
  }

  /** No two tokens of one table share a priority, so the best match is unique. */
  lemma PrioritiesAreDistinct(family: Family)
    ensures forall a, b ::
              a in ProtocolsOf(family) && b in ProtocolsOf(family) &&
              ProtocolsOf(family)[a] == ProtocolsOf(family)[b]
              ==> a == b
  {
  }

  /** No token is claimed by both families. */
  lemma FamiliesAreDisjoint()
    ensures StompProtocols.Keys !! MqttProtocols.Keys
  {
  }
}
