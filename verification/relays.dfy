/** The two relay outputs and the GPIO writes `applyRelayState` performs. */
module RelayDriver {
  import opened Config

  datatype Level = Low | High

  datatype Pin = Relay1 | Relay2

  /** One `digitalWrite` call. */
  datatype Write = Write(pin: Pin, level: Level)

  /** Output level last written to each relay pin. */
  datatype Relays = Relays(relay1: Level, relay2: Level)

  /** The level that energises a relay coil, and the one that releases it. */
  const On: Level := if RelayActiveHigh then High else Low
  const Off: Level := if RelayActiveHigh then Low else High

  predicate Energised(l: Level)
  {
    l == On
  }

  /** Both relays energised at once: two antennas connected together. */
  predicate Overlap(r: Relays)
  {
    Energised(r.relay1) && Energised(r.relay2)
  }

  function LevelOf(r: Relays, p: Pin): Level
  {
    match p
    case Relay1 => r.relay1
    case Relay2 => r.relay2
  }

  /** Effect of one `digitalWrite` on the outputs. */
  function Perform(r: Relays, w: Write): (r': Relays)
    ensures LevelOf(r', w.pin) == w.level
    ensures forall p :: p != w.pin ==> LevelOf(r', p) == LevelOf(r, p)
  {
    match w.pin
    case Relay1 => r.(relay1 := w.level)
    case Relay2 => r.(relay2 := w.level)
  }

  /** The outputs after each write of `ws` in turn (the states an observer
      of the pins can see). */
  function Transients(r: Relays, ws: seq<Write>): (ts: seq<Relays>)
    ensures |ts| == |ws|
    ensures ws != [] ==> ts[|ts| - 1] == PerformAll(r, ws)
    decreases |ws|
  {
    if ws == [] then [] else var r' := Perform(r, ws[0]); [r'] + Transients(r', ws[1..])
  }

  /** The outputs once every write of `ws` has been made. */
  function PerformAll(r: Relays, ws: seq<Write>): Relays
    decreases |ws|
  {
    if ws == [] then r else PerformAll(Perform(r, ws[0]), ws[1..])
  }

  /** The `digitalWrite` calls of `applyRelayState` for a selection, in
      program order: relay 1 is always written first. */
  function RelayWrites(antenna: int): seq<Write>
  {
    if antenna == 1 then [Write(Relay1, On), Write(Relay2, Off)]
    else if antenna == 2 then [Write(Relay1, Off), Write(Relay2, On)]
    else [Write(Relay1, Off), Write(Relay2, Off)]
  }

  /** `applyRelayState`: whatever the outputs were, afterwards relay 1 is
      energised exactly for antenna 1 and relay 2 exactly for antenna 2, so
      the final state never connects both, and any other value releases both. */
  function ApplyRelayState(r: Relays, antenna: int): (r': Relays)
    ensures Energised(r'.relay1) <==> antenna == 1
    ensures Energised(r'.relay2) <==> antenna == 2
    ensures !Overlap(r')
    ensures r' == Transients(r, RelayWrites(antenna))[1]
  {
    var ws := RelayWrites(antenna);
    assert PerformAll(r, ws) == Perform(Perform(r, ws[0]), ws[1]) by {
      var r1 := Perform(r, ws[0]);
      assert PerformAll(r, ws) == PerformAll(r1, ws[1..]);
      assert ws[1..][0] == ws[1] && ws[1..][1..] == [];
      assert PerformAll(r1, ws[1..]) == PerformAll(Perform(r1, ws[1]), []);
    }
    PerformAll(r, ws)
  }

  /** Which antenna a relay state connects; `Both` is the unsafe state. */
  datatype Connection = Only(n: int) | Both

  function Selected(r: Relays): Connection
  {
    if Overlap(r) then Both
    else if Energised(r.relay1) then Only(1)
    else if Energised(r.relay2) then Only(2)
    else Only(0)
  }

  /** Reading the relays back after `applyRelayState` recovers the selection
      for each valid one, and 0 for anything else. */
  lemma SelectedAfterApply(r: Relays, antenna: int)
    ensures Selected(ApplyRelayState(r, antenna)) == Only(if 1 <= antenna <= 2 then antenna else 0)
  {
  }

  /** The final state depends on the selection only, not on what was there. */
  lemma ApplyForgetsPrevious(r1: Relays, r2: Relays, antenna: int)
    ensures ApplyRelayState(r1, antenna) == ApplyRelayState(r2, antenna)
  {
  }

  /** The write order gives no break-before-make: starting from a state with
      no overlap, an intermediate state with both relays energised occurs
      exactly when antenna 1 is selected while relay 2 is energised (a switch
      from antenna 2 to antenna 1). */
  lemma TransientOverlap(r: Relays, antenna: int)
    requires !Overlap(r)
    ensures Overlap(Transients(r, RelayWrites(antenna))[0]) <==> antenna == 1 && Energised(r.relay2)
    ensures !Overlap(Transients(r, RelayWrites(antenna))[1])
  {
  }

  /** The concrete 2 -> 1 switch. */
  lemma SwitchTwoToOneOverlaps(r: Relays)
    ensures Overlap(Transients(ApplyRelayState(r, 2), RelayWrites(1))[0])
  {
  }
}
