/** The MQTT side of the firmware: decoding inbound commands with the one-shot
    suppression flag, and (re)connecting the session. */
module MqttSession {
  import opened Text
  import opened Config
  import opened RelayDriver
  import opened Antenna

  /** A message handed to `mqttCallback`: topic and raw payload bytes. */
  datatype Inbound = Inbound(topic: string, payload: seq<byte>)

  /** The command table applied to the trimmed payload: exact, case-sensitive
      comparisons against "1", "2", "off" and "0". */
  function DecodeCommand(msg: string): (c: Option<int>)
    ensures c.Some? ==> ValidSelection(c.value)
    ensures c == Some(1) <==> msg == "1"
    ensures c == Some(2) <==> msg == "2"
    ensures c == Some(0) <==> msg == "0" || msg == "off"
  {
    if msg == "1" then Some(1)
    else if msg == "2" then Some(2)
    else if msg == "off" || msg == "0" then Some(0)
    else None
  }

  /** The selection an inbound message asks for, if it is a command at all. */
  function Requested(m: Inbound): Option<int>
  {
    if m.topic == CommandTopic then DecodeCommand(Trim(PayloadText(m.payload))) else None
  }

  /** `mqttCallback`. The first message after a connect is swallowed whatever
      it says and only clears the flag; afterwards a recognised command on the
      command topic runs `setAntenna`, and anything else changes nothing. */
  function Callback(d: Device, m: Inbound): (d': Device)
    ensures d'.connected == d.connected && d'.subscriptions == d.subscriptions
    ensures !d'.justConnected
    ensures d.justConnected ==> d' == d.(justConnected := false)
    ensures !d.justConnected && Requested(m).None? ==> d' == d
    ensures !d.justConnected && Requested(m).Some? ==> d' == SetAntenna(d, Requested(m).value)
  {
    if d.justConnected then
      d.(justConnected := false)
    else
      var msg := Trim(PayloadText(m.payload));
      if m.topic == CommandTopic then
        match DecodeCommand(msg)
        case Some(k) => SetAntenna(d, k)
        case None => d
      else
        d
  }

  /** `reconnectMqtt`, with the outcome of `mqttClient.connect` as a parameter.
      A live session is left alone; a failed attempt changes nothing; a
      successful one raises the suppression flag and subscribes to the command
      topic. No state is republished on connect. */
  function Reconnect(d: Device, connectOk: bool): (d': Device)
    ensures d.connected || !connectOk ==> d' == d
    ensures !d.connected && connectOk ==>
      d'.connected && d'.justConnected && d'.subscriptions == d.subscriptions + [CommandTopic]
    ensures d'.antenna == d.antenna && d'.relays == d.relays && d'.published == d.published
  {
    if d.connected then d
    else if connectOk then d.(connected := true, justConnected := true, subscriptions := d.subscriptions + [CommandTopic])
    else d
  }

  /** The broker connection going away (detected inside the MQTT client). */
  function SessionLost(d: Device): (d': Device)
    ensures !d'.connected
    ensures d' == d.(connected := false)
  {
    d.(connected := false)
  }

  // ---------------------------------------------------------------------------
  // Properties of the decoder

  /** Each state payload, read back as a command, selects the antenna it
      announces. */
  lemma DecodeStatePayload(a: int)
    requires ValidSelection(a)
    ensures DecodeCommand(StatePayload(a)) == Some(a)
  {
  }

  /** The numeric commands are exactly the decimal forms of the valid
      selections; the only other accepted word is lower-case "off". */
  lemma DecodeNumeric(msg: string, k: int)
    requires msg != "off"
    ensures DecodeCommand(msg) == Some(k) <==> ParseInt(msg) == Some(k) && ValidSelection(k)
  {
    if ParseInt(msg) == Some(k) && ValidSelection(k) {
      ParseIntIsCanonical(msg, k);
      assert msg == IntToDecimal(k);
      assert IntToDecimal(0) == "0" && IntToDecimal(1) == "1" && IntToDecimal(2) == "2";
    }
    if DecodeCommand(msg) == Some(k) {
      IntToDecimalRoundTrip(k);
      assert IntToDecimal(0) == "0" && IntToDecimal(1) == "1" && IntToDecimal(2) == "2";
    }
  }

  /** Comparisons are case-sensitive and exact: "OFF", "3" and the empty
      payload are not commands. */
  lemma DecodeRejects()
    ensures DecodeCommand("OFF") == None
    ensures DecodeCommand("Off") == None
    ensures DecodeCommand("3") == None
    ensures DecodeCommand("") == None
    ensures DecodeCommand("01") == None
  {
  }

  // ---------------------------------------------------------------------------
  // Properties of the callback

  /** Any accepted command ("1", "2", "0" or "off") surrounded by any white
      space is still accepted: the payload is trimmed before it is compared. */
  lemma PaddedCommand(d: Device, a: string, c: string, b: string, k: int)
    requires !d.justConnected
    requires DecodeCommand(c) == Some(k)
    requires AllSpace(a) && AllSpace(b) && IsNarrow(a) && IsNarrow(b)
    ensures IsNarrow(a + c + b)
    ensures Callback(d, Inbound(CommandTopic, NarrowBytes(a + c + b))) == SetAntenna(d, k)
  {
    assert c == "1" || c == "2" || c == "0" || c == "off";
    assert NoEdgeSpace(c) && IsNarrow(c);
    var s := a + c + b;
    assert IsNarrow(s) by {
      forall i | 0 <= i < |s|
        ensures s[i] as int < 256
      {
        if i < |a| { assert s[i] == a[i]; }
        else if i < |a| + |c| { assert s[i] == c[i - |a|]; }
        else { assert s[i] == b[i - |a| - |c|]; }
      }
    }
    PayloadTextOfNarrowBytes(s);
    TrimPadded(a, c, b);
  }

  /** The device's own state messages can never act as commands to it. */
  lemma StateTopicIsNotCommand(p: seq<byte>)
    ensures Requested(Inbound(StateTopic, p)) == None
  {
    TopicsDistinct();
  }

  /** Echoing the device's own state payload on the command topic reselects
      the current antenna: same selection, same relays. */
  lemma EchoIsFixedPoint(d: Device)
    requires !d.justConnected
    requires ValidSelection(d.antenna)
    requires Energised(d.relays.relay1) <==> d.antenna == 1
    requires Energised(d.relays.relay2) <==> d.antenna == 2
    ensures IsNarrow(StatePayload(d.antenna))
    ensures var d' := Callback(d, Inbound(CommandTopic, NarrowBytes(StatePayload(d.antenna))));
      d'.antenna == d.antenna && d'.relays == d.relays
  {
  }

  /** After a successful connect the very next message is dropped even when it
      is a live, well-formed command; only the one after it takes effect. */
  lemma FirstMessageAfterConnectDropped(d: Device, m: Inbound, k: int)
    requires !d.connected
    requires Requested(m) == Some(k)
    ensures var c := Reconnect(d, true); var d1 := Callback(c, m);
      && d1.antenna == d.antenna && d1.relays == d.relays && d1.published == d.published
      && !d1.justConnected
      && Callback(d1, m).antenna == k
  {
  }
}
