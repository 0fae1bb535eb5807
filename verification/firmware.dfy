/** `setup` and `loop`: the whole device as a state machine driven by the
    environment (HTTP requests, the outcome of connect attempts, inbound
    messages, and session drops). */
module Firmware {
  import opened Text
  import opened Config
  import opened RelayDriver
  import opened Antenna
  import opened MqttSession
  import opened HttpApi

  /** What `server.handleClient()` found waiting, if anything. */
  datatype HttpRequest = NoRequest | RootPage | SetRequest(ant: int) | StateQuery

  /** The environment's part of one `loop()` pass: a pending HTTP request,
      whether a connect attempt would succeed, and the message (at most one)
      the MQTT client would hand to the callback. */
  datatype Tick = Tick(request: HttpRequest, connectOk: bool, delivered: Option<Inbound>)

  datatype Event = Pass(tick: Tick) | Dropped

  /** `setup`: the globals start at `currentAntenna = 0`, not connected, and
      the boot-time `applyRelayState` releases both relays whatever the pins
      held before. */
  function Setup(pins: Relays): (d: Device)
    ensures d.antenna == 0
    ensures !Energised(d.relays.relay1) && !Energised(d.relays.relay2)
    ensures !d.connected && !d.justConnected
    ensures d.subscriptions == [] && d.published == []
  {
    Device(0, ApplyRelayState(pins, 0), false, false, [], [])
  }

  /** `server.handleClient()`: only `/set` changes the state. */
  function ServeHttp(d: Device, req: HttpRequest): (d': Device)
    ensures req.SetRequest? ==> d' == SetAntenna(d, req.ant)
    ensures !req.SetRequest? ==> d' == d
  {
    match req
    case SetRequest(ant) => HandleSet(d, ant).0
    case _ => d
  }

  /** One pass of `loop()`: serve HTTP, then either try to reconnect or let
      the MQTT client deliver a message. A pass that connects never delivers
      a message, and at most two publications are made per pass. */
  function Loop(d: Device, t: Tick): (d': Device)
    ensures d'.connected == (d.connected || t.connectOk)
    ensures !d.connected ==> d'.antenna == ServeHttp(d, t.request).antenna
    ensures |d.published| <= |d'.published| <= |d.published| + 2
    ensures d'.published[..|d.published|] == d.published
    ensures !d.connected ==> d' == Reconnect(ServeHttp(d, t.request), t.connectOk)
    ensures d.connected && t.delivered.None? ==> d' == ServeHttp(d, t.request)
    ensures d.connected && t.delivered.Some? ==> d' == Callback(ServeHttp(d, t.request), t.delivered.value)
  {
    var d1 := ServeHttp(d, t.request);
    if !d1.connected then
      Reconnect(d1, t.connectOk)
    else
      match t.delivered
      case None => d1
      case Some(m) => Callback(d1, m)
  }

  function Step(d: Device, e: Event): Device
  {
    match e
    case Pass(t) => Loop(d, t)
    case Dropped => SessionLost(d)
  }

  /** The device after a sequence of events. */
  function Run(d: Device, es: seq<Event>): Device
    decreases |es|
  {
    if es == [] then d else Run(Step(d, es[0]), es[1..])
  }

  /** Every publication the firmware makes is a retained state message for a
      valid selection. */
  predicate WellFormed(p: Publication)
  {
    p.topic == StateTopic && p.retained && (p.payload == "off" || p.payload == "1" || p.payload == "2")
  }

  /** What holds of every reachable state: the selection is valid, the relays
      show it (so never both energised), every publication is a well-formed
      state message, and the command topic is the only subscription. */
  predicate Inv(d: Device)
  {
    && ValidSelection(d.antenna)
    && (Energised(d.relays.relay1) <==> d.antenna == 1)
    && (Energised(d.relays.relay2) <==> d.antenna == 2)
    && (forall i :: 0 <= i < |d.published| ==> WellFormed(d.published[i]))
    && (forall i :: 0 <= i < |d.subscriptions| ==> d.subscriptions[i] == CommandTopic)
  }

  lemma SetAntennaKeepsInv(d: Device, a: int)
    requires Inv(d)
    ensures Inv(SetAntenna(d, a))
  {
  }

  lemma StepKeepsInv(d: Device, e: Event)
    requires Inv(d)
    ensures Inv(Step(d, e))
  {
    match e
    case Dropped =>
    case Pass(t) =>
      var d1 := ServeHttp(d, t.request);
      if t.request.SetRequest? {
        SetAntennaKeepsInv(d, t.request.ant);
      }
      if d1.connected {
        match t.delivered
        case None =>
        case Some(m) =>
          if !d1.justConnected && Requested(m).Some? {
            SetAntennaKeepsInv(d1, Requested(m).value);
          }
      }
  }

  lemma {:induction false} RunKeepsInv(d: Device, es: seq<Event>)
    requires Inv(d)
    ensures Inv(Run(d, es))
    decreases |es|
  {
    if es != [] {
      StepKeepsInv(d, es[0]);
      RunKeepsInv(Step(d, es[0]), es[1..]);
    }
  }

  /** From power-on, whatever the pins held and whatever the environment
      does, the two relays are never left energised together between events,
      and every publication is a retained state message. */
  lemma Safety(pins: Relays, es: seq<Event>)
    ensures Inv(Run(Setup(pins), es))
    ensures !Overlap(Run(Setup(pins), es).relays)
  {
    RunKeepsInv(Setup(pins), es);
  }

  /** A selection made over HTTP while the broker is unreachable is applied to
      the relays but never announced: the connect that follows publishes
      nothing. */
  lemma NoResyncOnConnect(pins: Relays)
    ensures var d1 := Loop(Setup(pins), Tick(SetRequest(2), false, None));
      var d2 := Loop(d1, Tick(NoRequest, true, None));
      && d2.antenna == 2 && Energised(d2.relays.relay2)
      && d2.connected && d2.published == []
  {
  }
}
