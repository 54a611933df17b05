/** The build-time constants the core uses. */
module Configuration {

  /** The number of LEDs in the string. */
  const LED_STRING_SIZE: nat := 24

  /** The capacity of the presence tracker; a power of two, as the map type demands. */
  const MAX_SOULS_TRACKED: nat := 16
}
