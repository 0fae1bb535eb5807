/** The firmware's state and `setAntenna`, the one operation that changes the
    selection. */
module Antenna {
  import opened Text
  import opened Config
  import opened RelayDriver

  /** One `mqttClient.publish(topic, payload, retained)` call. */
  datatype Publication = Publication(topic: string, payload: string, retained: bool)

  /** The globals of the firmware together with the parts of the MQTT client
      the core reads or drives. The two logs record outbound effects in the
      order they were made. */
  datatype Device = Device(
    antenna: int,                 // currentAntenna
    relays: Relays,               // levels last written to the relay pins
    connected: bool,              // mqttClient.connected()
    justConnected: bool,          // mqttJustConnected
    subscriptions: seq<string>,   // every mqttClient.subscribe call
    published: seq<Publication>)  // every mqttClient.publish call

  /** 0 (all relays released), 1 or 2. */
  predicate ValidSelection(a: int)
  {
    0 <= a <= AntennaCount
  }

  /** The fail-safe coercion at the top of `setAntenna`. */
  function Coerce(a: int): (r: int)
    ensures ValidSelection(r)
    ensures ValidSelection(a) ==> r == a
    ensures !ValidSelection(a) ==> r == 0
  {
    if a < 0 || a > 2 then 0 else a
  }

  /** Payload announcing a selection: "off" for 0, the decimal number otherwise. */
  function StatePayload(a: int): (p: string)
    ensures p == "off" <==> a == 0
    ensures a != 0 ==> ParseInt(p) == Some(a)
  {
    if a == 0 then "off" else IntToDecimalRoundTrip(a); IntToDecimal(a)
  }

  /** The retained state message for a selection. */
  function StateMessage(a: int): Publication
  {
    Publication(StateTopic, StatePayload(a), true)
  }

  /** `setAntenna(a)`: coerce, drive the relays, and announce the new
      selection on the state topic only while the session is up. Nothing
      about the session itself changes. */
  function SetAntenna(d: Device, a: int): (d': Device)
    ensures ValidSelection(d'.antenna)
    ensures ValidSelection(a) ==> d'.antenna == a
    ensures !ValidSelection(a) ==> d'.antenna == 0
    ensures Energised(d'.relays.relay1) <==> d'.antenna == 1
    ensures Energised(d'.relays.relay2) <==> d'.antenna == 2
    ensures d.connected ==> d'.published == d.published + [Publication(StateTopic, StatePayload(d'.antenna), true)]
    ensures !d.connected ==> d'.published == d.published
    ensures d'.connected == d.connected && d'.justConnected == d.justConnected
    ensures d'.subscriptions == d.subscriptions
  {
    var a' := Coerce(a);
    var published := if d.connected then d.published + [StateMessage(a')] else d.published;
    d.(antenna := a', relays := ApplyRelayState(d.relays, a'), published := published)
  }

  /** Calling `setAntenna(k)` twice leaves the same selection and relay levels
      as calling it once; while connected the second call repeats the first
      publication exactly, and while disconnected neither publishes. */
  lemma SetAntennaTwice(d: Device, k: int)
    ensures var d1 := SetAntenna(d, k); var d2 := SetAntenna(d1, k);
      && d2.antenna == d1.antenna
      && d2.relays == d1.relays
      && (d.connected ==> |d2.published| == |d.published| + 2
                          && d2.published[|d.published|] == d2.published[|d.published| + 1])
      && (!d.connected ==> d2.published == d.published)
  {
  }
}
