/** The compile-time settings of the switch that the core depends on. Broker
    address, credentials and Wi-Fi identity are not part of this model. */
module Config {

  /** Topic the device subscribes to for selection commands. */
  const CommandTopic: string := "flexpilot/antennaSwitch/cmd"

  /** Topic the device publishes its selection on, always retained. */
  const StateTopic: string := "flexpilot/antennaSwitch/state"

  /** The relay board energises a coil when its input is driven HIGH. */
  const RelayActiveHigh: bool := true

  /** Highest antenna number; 0 means every relay released. */
  const AntennaCount: int := 2

  /** The device never hears its own state publications as commands. */
  lemma TopicsDistinct()
    ensures CommandTopic != StateTopic
  {
  }
}
