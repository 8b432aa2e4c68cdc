/** The build-time configuration of the library (config.h), given to the model
    as a value: the CPU clock F_CPU in hertz and the requested RTC_PRESCALER.
    The modelled build is the default one, with RTC_MS_RESOLUTION,
    RTC_US_RESOLUTION and RTC_32_BIT all defined. */
module RtcConfig {

  datatype Config = Config(fCpu: nat, prescaler: nat)

  /** F_CPU 8000000UL and RTC_PRESCALER 1024, the values config.h falls back to. */
  const Default := Config(8_000_000, 1024)

  /** The prescaler values that rtc_init has a branch for. */
  predicate Supported(p: nat)
  {
    p == 1 || p == 8 || p == 64 || p == 256 || p == 1024
  }

  /** The prescaler the build actually uses: rtc_init's last branch redefines
      RTC_PRESCALER as 1024 for any value it has no branch for, and ticks2ms and
      ticks2us, later in the same file, see that redefinition. */
  function Prescaler(requested: nat): (p: nat)
    ensures Supported(p)
    ensures Supported(requested) ==> p == requested
    ensures !Supported(requested) ==> p == 1024
  {
    if Supported(requested) then requested else 1024
  }
}
