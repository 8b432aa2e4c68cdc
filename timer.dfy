/** rtc_init and the Timer1 overflow interrupt of rtc.c, over the state they
    change: the registers TCCR1B and TIMSK1 and the global high_bites. */
module Timer {
  import opened Layout
  import opened RtcConfig

  /** Bit values of the ATmega328P Timer/Counter1 registers used by rtc.c. */
  const CS10: bv8 := 0x01    // TCCR1B bit 0
  const CS11: bv8 := 0x02    // TCCR1B bit 1
  const CS12: bv8 := 0x04    // TCCR1B bit 2
  const ClockSelectBits: bv8 := 0x07
  const TOIE1: bv8 := 0x01    // TIMSK1 bit 0: overflow interrupt enable

  /** The clock-select bits rtc_init ORs into TCCR1B for RTC_PRESCALER = p: they
      lie inside the clock-select field and are the data-sheet code of the
      prescaler the build uses. */
  function ClockSelect(p: nat): (cs: bv8)
    ensures cs & ClockSelectBits == cs
    ensures Divisor(cs) == Prescaler(p)
  {
    if p == 1 then CS10
    else if p == 8 then CS11
    else if p == 64 then CS10 | CS11
    else if p == 256 then CS12
    else CS12 | CS10
  }

  /** The divisor the ATmega328P data sheet gives to the clock-select field
      CS12:CS10 of TCCR1B; 0 stands for the settings that do not clock the
      counter from the prescaler (stopped, or an external pin). */
  function Divisor(tccr1b: bv8): nat
  {
    match tccr1b & ClockSelectBits
    case 1 => 1
    case 2 => 8
    case 3 => 64
    case 4 => 256
    case 5 => 1024
    case _ => 0
  }

  /** Starting from a TCCR1B whose clock-select field is clear, as it is after
      reset, rtc_init makes Timer1 count at the prescaler the build uses:
      RTC_PRESCALER itself when supported, 1024 otherwise. */
  lemma ClockSelectRunsAtPrescaler(before: bv8, p: nat)
    requires before & ClockSelectBits == 0
    ensures Divisor(before | ClockSelect(p)) == Prescaler(p)
  {
    assert (before | ClockSelect(p)) & ClockSelectBits == ClockSelect(p);
  }

  /** rtc_init only sets bits: a clock-select bit already set before it stays
      set, so a timer already running at divisor 8 and reconfigured for 1024
      ends up clocked from the external pin instead. */
  lemma StaleClockSelectBitsRemain()
    ensures Divisor(CS11 | ClockSelect(1024)) == 0
  {
    assert (CS11 | ClockSelect(1024)) & ClockSelectBits == 7;
  }

  class Timer1 {
    var tccr1b: bv8
    var timsk1: bv8
    var highBites: Word
    /** The overflows serviced since rtc_init, not wrapped. */
    ghost var overflows: nat

    /** high_bites counts the serviced overflows modulo 2^16. */
    ghost predicate Valid()
      reads this
    {
      highBites == overflows % U16
    }

    /** The state before rtc_init: whatever earlier code left in the registers,
        and high_bites zero as a C global is. */
    constructor (tccr1b0: bv8, timsk10: bv8)
      ensures tccr1b == tccr1b0 && timsk1 == timsk10
      ensures highBites == 0 && overflows == 0 && Valid()
    {
      tccr1b, timsk1 := tccr1b0, timsk10;
      highBites, overflows := 0, 0;
    }

    /** rtc_init in the 32-bit build: select the clock, enable the overflow
        interrupt and reset high_bites, setting register bits and clearing none. */
    method Init(cfg: Config)
      modifies this
      ensures tccr1b == old(tccr1b) | ClockSelect(cfg.prescaler)
      ensures tccr1b & old(tccr1b) == old(tccr1b)
      ensures timsk1 == old(timsk1) | TOIE1 && timsk1 & TOIE1 == TOIE1
      ensures highBites == 0 && overflows == 0 && Valid()
    {
      tccr1b := tccr1b | ClockSelect(cfg.prescaler);
      timsk1 := timsk1 | TOIE1;
      highBites := 0;
      overflows := 0;
    }

    /** ISR(TIMER1_OVF_vect): high_bites++, wrapping at 2^16; nothing else changes. */
    method OnOverflow()
      requires Valid()
      modifies this`highBites, this`overflows
      ensures highBites == (old(highBites) + 1) % U16
      ensures overflows == old(overflows) + 1 && Valid()
    {
      highBites := (highBites + 1) % U16;
      overflows := overflows + 1;
    }
  }
}
