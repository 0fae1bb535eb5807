# Antenna switch firmware — Dafny model

A model of the ESP32 two-relay antenna switch in `src/main.cpp`. The device
selects antenna 0 (all relays released), 1 or 2. It takes selections from an
HTTP page and from an MQTT command topic. It drives two relay pins and
announces each new selection as a retained message on an MQTT state topic.

The model is functional. One immutable `Device` record holds:

- the firmware's globals (`currentAntenna`, `mqttJustConnected`);
- the level last written to each relay pin;
- whether the MQTT session is up;
- a log of `subscribe` calls and a log of `publish` calls.

Each event of the firmware is a pure function on that record:
`setAntenna`, `mqttCallback`, `reconnectMqtt`, the two HTTP handlers, `setup`
and one pass of `loop`. The environment's choices are parameters:

- whether `mqttClient.connect` succeeds;
- which HTTP request is waiting;
- which message the MQTT client delivers;
- when the broker connection drops.

Files, one module each, leaves first:

- `config.dfy` (`Config`): topics, relay polarity, antenna count.
- `text.dfy` (`Text`): payload bytes to text, `String::trim`, decimal
  formatting of an `int` with an inverse parser.
- `relays.dfy` (`RelayDriver`): relay levels, the `digitalWrite` sequence of
  `applyRelayState`, and the intermediate pin states it passes through.
- `device.dfy` (`Antenna`): the `Device` record, coercion, state payloads,
  `setAntenna`.
- `mqtt.dfy` (`MqttSession`): the command decoder, `mqttCallback` with its
  one-shot suppression flag, `reconnectMqtt`, session loss.
- `http.dfy` (`HttpApi`): `handleSet`, `handleState` and its 32-byte buffer.
- `firmware.dfy` (`Firmware`): `setup`, `loop`, runs of events and the
  invariant every reachable state keeps.

Behaviour of the code that the model proves, and that a reader might not expect:

- **No break-before-make.** For antenna 1 the code writes relay 1 ON before
  relay 2 OFF. A switch from antenna 2 to antenna 1 therefore passes through a
  pin state with both relays energised (`RelayDriver.TransientOverlap`). Only
  the state after `applyRelayState` returns is mutually exclusive.
- **The first message after a connect is always dropped.** The source comment
  speaks of a retained message. But the flag drops whatever message arrives
  first, on any topic. That includes a live, well-formed command
  (`MqttSession.FirstMessageAfterConnectDropped`).
- **No republish on connect.** A selection made over HTTP while the broker is
  unreachable is applied to the relays. It is never announced, and the later
  connect publishes nothing (`Firmware.NoResyncOnConnect`).
- **"off" is case-sensitive.** `"OFF"` is ignored (`MqttSession.DecodeRejects`).

The firmware also has no persisted selection, no link-health supervisor and
no reboot ladder, and it supports only two antennas. The model claims none of
these features.

## Model

| member | source | states |
|---|---|---|
| Antenna.Coerce | src/main.cpp:109 | The coerced selection is always 0, 1 or 2; an in-range request is kept and any other integer becomes exactly 0 |
| Antenna.StatePayload | src/main.cpp:115-117 | The state payload is "off" exactly for selection 0; any other selection's payload parses back to that selection |
| Antenna.SetAntenna | src/main.cpp:107-119 | The selection becomes the coerced request. Relay 1 is energised iff it is 1 and relay 2 iff it is 2. Exactly one retained state message with the new payload is appended iff the session is connected, none otherwise. Session fields are untouched |
| Antenna.SetAntennaTwice | src/main.cpp:107-119 | Repeating setAntenna(k) leaves the same selection and relays. Connected, it appends two identical publications; disconnected, none |
| RelayDriver.ApplyRelayState | src/main.cpp:86-102 | Whatever the previous levels, relay 1 ends energised iff the selection is 1 and relay 2 iff it is 2. Both never end on; both end off for 0 or any other value. The final state is the last of the write sequence's intermediate states |
| RelayDriver.SelectedAfterApply | src/main.cpp:86-102 | Reading the relays back after applyRelayState gives the selection for 1 and 2 and gives 0 for every other value; never "both" |
| RelayDriver.ApplyForgetsPrevious | src/main.cpp:86-102 | The relay state after applyRelayState depends only on the selection, not on the previous levels |
| RelayDriver.TransientOverlap | src/main.cpp:91-97 | Starting from a non-overlapping state, the state after the first write has both relays energised exactly when selecting 1 while relay 2 is on. The state after the second write never overlaps |
| RelayDriver.SwitchTwoToOneOverlaps | src/main.cpp:91-93 | A 2 -> 1 switch passes through a state with both relays energised |
| Config.TopicsDistinct | src/main.cpp:18-19 | The command topic and the state topic are different strings |
| Text.CopyPayload | src/main.cpp:156-157 | The copy loop yields one character per payload byte, each with that byte's code |
| Text.PayloadTextOfNarrowBytes | src/main.cpp:157 | Copying the bytes of a text whose characters fit in a byte gives back that text |
| Text.Trim | src/main.cpp:158 | The trimmed text has no white space at either end. It is empty iff the input is all white space. It is a slice of the input with only white space before and after it |
| Text.TrimPadded | src/main.cpp:158 | For any r with no white space at its ends and any white-space padding a, b: trim(a + r + b) = r |
| Text.TrimIdempotent | src/main.cpp:158 | Trimming twice equals trimming once |
| Text.IntToDecimalRoundTrip | src/main.cpp:116 | The decimal text written for any int parses back to that int |
| Text.ParseIntIsCanonical | src/main.cpp:116 | Any text the parser accepts is exactly the decimal formatting of the value it returns |
| Text.NatToDecimalLength | src/main.cpp:135 | A number below 10^k is written with at most k digits |
| MqttSession.DecodeCommand | src/main.cpp:160-164 | The trimmed payload selects 1 iff it is "1", 2 iff it is "2", and 0 iff it is "0" or "off". Any decoded value is a valid selection |
| MqttSession.DecodeStatePayload | src/main.cpp:114-117 | Every state payload the device publishes, read as a command, selects the antenna it announces |
| MqttSession.DecodeNumeric | src/main.cpp:161-163 | Apart from "off", a payload is accepted as selection k iff it is the canonical decimal of k and k is 0, 1 or 2 |
| MqttSession.DecodeRejects | src/main.cpp:161-163 | "OFF", "Off", "3", "01" and the empty payload are not commands |
| MqttSession.Callback | src/main.cpp:148-165 | With the flag raised, the only change is clearing the flag, whatever the message. Otherwise a recognised command on the command topic acts as setAntenna, and any other message changes nothing. The session is never touched and the flag is always cleared |
| MqttSession.PaddedCommand | src/main.cpp:156-163 | Any payload the table accepts as selection k ("1", "2", "0" or "off"), with any white space around it, on the command topic acts exactly as setAntenna(k) |
| MqttSession.StateTopicIsNotCommand | src/main.cpp:18-19 | No message on the state topic, whatever its payload, is ever read as a command |
| MqttSession.EchoIsFixedPoint | src/main.cpp:160-163 | Receiving its own state payload as a command leaves the device's selection and relays as they were |
| MqttSession.FirstMessageAfterConnectDropped | src/main.cpp:150-153 | After a successful connect the next message is discarded even if it is a valid command. It changes neither selection, relays nor publications. The same message delivered again takes effect |
| MqttSession.Reconnect | src/main.cpp:167-179 | With the session up, or with a failed connect, nothing changes. A successful connect marks the session up, raises the flag and appends one subscription to the command topic. Selection, relays and publications are never changed |
| HttpApi.HandleState | src/main.cpp:132-136 | The /state body reads back as {"antenna":n} with n the current selection |
| HttpApi.HandleSet | src/main.cpp:125-130 | /set has exactly the effect of setAntenna with its argument (coerced selection, relays driven, state published iff connected) and answers {"ok":true} |
| HttpApi.StateJsonRoundTrip | src/main.cpp:135 | The /state body formatted for any int parses back to that int |
| HttpApi.StateJsonInjective | src/main.cpp:135 | Different numbers give different /state bodies |
| HttpApi.StateJsonFitsBuffer | src/main.cpp:134-135 | For every 32-bit int the formatted body plus its terminating NUL fits in the 32-byte buffer |
| Firmware.Setup | src/main.cpp:203-211 | After boot the selection is 0, both relays are released whatever the pins held, the session is down, the flag is clear, and nothing has been published or subscribed |
| Firmware.ServeHttp | src/main.cpp:222 | A /set request acts as setAntenna with its argument; every other request leaves the device unchanged |
| Firmware.Loop | src/main.cpp:220-226 | A pass first serves HTTP. If the session was down it then attempts reconnectMqtt and delivers nothing. If it was up, the delivered message, if any, goes to mqttCallback. After the pass the session is up iff it was up or the connect succeeded. At most two publications are appended and earlier ones are kept |
| Firmware.RunKeepsInv | src/main.cpp:220-226 | Every sequence of loop passes and session drops keeps the invariant: valid selection, relays matching it, well-formed retained state publications, command topic as the only subscription |
| Firmware.Safety | src/main.cpp:203-226 | From power-on, under any environment, every state between events satisfies the invariant and never has both relays energised (the transient inside a 2 -> 1 switch is the exception described by RelayDriver.TransientOverlap) |
| Firmware.NoResyncOnConnect | src/main.cpp:167-179 | A selection made over HTTP while disconnected drives the relays, and the connect that follows publishes nothing |

## Left out

- `connectWiFi` (Wi-Fi association, the 40 x 200 ms wait, mDNS): network I/O and timing. The model starts `loop` after `setup` whatever the link state.
- `handleRoot` and the HTML/JavaScript page: presentation only; a root request is modelled as changing nothing.
- `server.arg("ant").toInt()`: Arduino library parsing. `/set` receives the integer the parser produced, as a parameter.
- PubSubClient internals. `connect` is a boolean chosen by the environment. Connection loss is an environment event. `publish` and `subscribe` are appends to logs, and the model does not check whether the broker accepted them. At most one message is delivered per `loop` pass.
- Broker address, client id, credentials and Wi-Fi identity: constants handed to library calls that are not modelled.
- `Serial` logging: no observable effect on the core.
- Pin numbers 16 and 17 and `pinMode`: the model names the two relays, not their GPIO numbers.
- Arduino `String` details. `trim` is taken to strip the C-locale `isspace` characters (space, tab, line feed, vertical tab, form feed, carriage return). `(char)payload[i]` is taken to be the character with that byte's code. A NUL byte inside a payload is treated as an ordinary character. The library compares with `strcmp`, which would stop at that NUL.
- Integer width. `setAntenna` takes an unbounded integer, which covers every 32-bit `int`. The only width-dependent fact, the 32-byte `/state` buffer, is proved for 32-bit values.
- Persistence of the selection, link-health probing with reboot escalation, republishing the state on connect, break-before-make relay switching, case-insensitive "off" and more than two antennas: this firmware has none of them.
