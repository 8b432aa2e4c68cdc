/** ticks2ms and ticks2us of rtc.c in the 32-bit build: a uint32_t tick count is
    widened into a uint64_t, scaled step by step, divided and cast back to
    uint32_t. Every `tmp *=` step wraps modulo 2^64 and the final cast wraps
    modulo 2^32; the lemmas show when those wraps lose nothing and relate the
    results to the true elapsed time. */
module Convert {
  import opened Layout
  import opened RtcConfig
  import opened Arith

  const U64: nat := 0x1_0000_0000_0000_0000

  /** A uint64_t holds its value modulo 2^64. */
  function Wrap64(x: int): nat { x % U64 }

  /** The clock frequencies for which rtc.c takes the exact-MHz path. */
  predicate ExactMHz(fCpu: nat)
  {
    fCpu == 8_000_000 || fCpu == 4_000_000 || fCpu == 2_000_000 || fCpu == 1_000_000
  }

  function MHz(cfg: Config): nat
    requires ExactMHz(cfg.fCpu)
  {
    cfg.fCpu / 1_000_000
  }

  /** QUOT of rtc.c:132 and rtc.c:179: the prescaler divided by the MHz count,
      rounded down. */
  function Quot(cfg: Config): nat
    requires ExactMHz(cfg.fCpu)
  {
    Prescaler(cfg.prescaler) / MHz(cfg)
  }

  /** The uint64_t tmp of ticks2ms just before its cast to uint32_t. */
  function MsBeforeCast(cfg: Config, ticks: DWord): (tmp: nat)
    requires cfg.fCpu > 0
    ensures tmp < U64
  {
    if ExactMHz(cfg.fCpu) then Wrap64(ticks * Quot(cfg)) / 1000
    else
      var scaled := Wrap64(Wrap64(ticks * 1000) * Prescaler(cfg.prescaler));
      // bounds for the quotient by the variable F_CPU, which the solver
      // does not find reliably on its own
      DivLe(0, scaled, cfg.fCpu);
      DivByLarger(scaled, 1, cfg.fCpu);
      scaled / cfg.fCpu
  }

  /** ticks2ms: the true elapsed milliseconds, modulo 2^32 by the cast, on the
      general path and on the exact-MHz path whenever QUOT is exact. */
  function TicksToMs(cfg: Config, ticks: DWord): (ms: DWord)
    requires cfg.fCpu > 0
    ensures (!ExactMHz(cfg.fCpu) || Prescaler(cfg.prescaler) % MHz(cfg) == 0)
            ==> ms == ElapsedMs(cfg, ticks) % U32
  {
    MsNoOverflow(cfg, ticks);
    if ExactMHz(cfg.fCpu) && Prescaler(cfg.prescaler) % MHz(cfg) == 0 then
      ExactPathIsElapsed(cfg, ticks);
      MsBeforeCast(cfg, ticks) % U32
    else MsBeforeCast(cfg, ticks) % U32
  }

  /** The uint64_t tmp of ticks2us just before its cast to uint32_t. */
  function UsBeforeCast(cfg: Config, ticks: DWord): (tmp: nat)
    requires cfg.fCpu >= 1000
    ensures tmp < U64
  {
    if ExactMHz(cfg.fCpu) then Wrap64(ticks * Quot(cfg))
    else
      var scaled, kHz := Wrap64(Wrap64(ticks * 1000) * Prescaler(cfg.prescaler)), cfg.fCpu / 1000;
      // bounds for the quotient by the variable F_CPU / 1000, as above
      DivLe(0, scaled, kHz);
      DivByLarger(scaled, 1, kHz);
      scaled / kHz
  }

  /** ticks2us: the true elapsed microseconds, modulo 2^32 by the cast, on the
      exact-MHz path whenever QUOT is exact and on the general path whenever
      1000 divides F_CPU. */
  function TicksToUs(cfg: Config, ticks: DWord): (us: DWord)
    requires cfg.fCpu >= 1000
    ensures ((ExactMHz(cfg.fCpu) && Prescaler(cfg.prescaler) % MHz(cfg) == 0)
             || (!ExactMHz(cfg.fCpu) && cfg.fCpu % 1000 == 0))
            ==> us == ElapsedUs(cfg, ticks) % U32
  {
    if ExactMHz(cfg.fCpu) && Prescaler(cfg.prescaler) % MHz(cfg) == 0 then
      ExactPathIsElapsed(cfg, ticks);
      UsBeforeCast(cfg, ticks) % U32
    else if !ExactMHz(cfg.fCpu) && cfg.fCpu % 1000 == 0 then
      GeneralUsIsElapsed(cfg, ticks);
      UsBeforeCast(cfg, ticks) % U32
    else UsBeforeCast(cfg, ticks) % U32
  }

  /** The whole milliseconds that ticks timer ticks take: each tick lasts
      prescaler / F_CPU seconds, and the fraction is dropped. */
  function ElapsedMs(cfg: Config, ticks: nat): (ms: nat)
    requires cfg.fCpu > 0
    ensures ms * cfg.fCpu <= ticks * Prescaler(cfg.prescaler) * 1000 < (ms + 1) * cfg.fCpu
  {
    ticks * Prescaler(cfg.prescaler) * 1000 / cfg.fCpu
  }

  /** The whole microseconds that ticks timer ticks take. */
  function ElapsedUs(cfg: Config, ticks: nat): (us: nat)
    requires cfg.fCpu > 0
    ensures us * cfg.fCpu <= ticks * Prescaler(cfg.prescaler) * 1_000_000 < (us + 1) * cfg.fCpu
  {
    ticks * Prescaler(cfg.prescaler) * 1_000_000 / cfg.fCpu
  }

  /** The scaled tick count never needs more than 52 bits. */
  lemma ScaledFits(cfg: Config, ticks: DWord)
    ensures ticks * 1000 < U64
    ensures ticks * 1000 * Prescaler(cfg.prescaler) < U64
  {
    MulLe(Prescaler(cfg.prescaler), 1024, ticks * 1000);
  }

  lemma QuotFits(cfg: Config, ticks: DWord)
    requires ExactMHz(cfg.fCpu)
    ensures Quot(cfg) <= 1024 && ticks * Quot(cfg) < U64
  {
    MulLe(Quot(cfg), 1024, ticks);
  }

  /** No `tmp *=` step of ticks2ms overflows the uint64_t. */
  lemma MsNoOverflow(cfg: Config, ticks: DWord)
    requires cfg.fCpu > 0
    ensures MsBeforeCast(cfg, ticks)
         == if ExactMHz(cfg.fCpu) then ticks * Quot(cfg) / 1000 else ElapsedMs(cfg, ticks)
  {
    if ExactMHz(cfg.fCpu) {
      QuotFits(cfg, ticks);
    } else {
      ScaledFits(cfg, ticks);
      var p := Prescaler(cfg.prescaler);
      var x := ticks * 1000 * p;
      assert Wrap64(Wrap64(ticks * 1000) * p) == x;
      assert ticks * p * 1000 == x;
      assert MsBeforeCast(cfg, ticks) == x / cfg.fCpu;
    }
  }

  /** No `tmp *=` step of ticks2us overflows the uint64_t. */
  lemma UsNoOverflow(cfg: Config, ticks: DWord)
    requires cfg.fCpu >= 1000
    ensures UsBeforeCast(cfg, ticks)
         == if ExactMHz(cfg.fCpu) then ticks * Quot(cfg)
            else ticks * 1000 * Prescaler(cfg.prescaler) / (cfg.fCpu / 1000)
  {
    if ExactMHz(cfg.fCpu) {
      QuotFits(cfg, ticks);
    } else {
      ScaledFits(cfg, ticks);
    }
  }

  /** On the exact-MHz path, when the MHz count divides the prescaler (every
      supported prescaler except 1 at 2, 4 or 8 MHz), QUOT loses nothing and both
      conversions give the true elapsed time before the final cast. */
  lemma ExactPathIsElapsed(cfg: Config, ticks: DWord)
    requires ExactMHz(cfg.fCpu) && Prescaler(cfg.prescaler) % MHz(cfg) == 0
    ensures MsBeforeCast(cfg, ticks) == ElapsedMs(cfg, ticks)
    ensures UsBeforeCast(cfg, ticks) == ElapsedUs(cfg, ticks)
  {
    MsNoOverflow(cfg, ticks);
    UsNoOverflow(cfg, ticks);
    var p, m, q := Prescaler(cfg.prescaler), MHz(cfg), Quot(cfg);
    assert p == q * m;
    assert cfg.fCpu == m * 1_000_000;
    // ms: ticks * p * 1000 == (ticks * q) * (m * 1000) and F_CPU == 1000 * (m * 1000)
    assert ticks * p * 1000 == (ticks * q) * (m * 1000);
    assert cfg.fCpu == 1000 * (m * 1000);
    DivCancel(ticks * q, 1000, m * 1000);
    // us: ticks * p * 1000000 == (ticks * q) * F_CPU
    assert ticks * p * 1_000_000 == (ticks * q) * cfg.fCpu;
    DivCancel(ticks * q, 1, cfg.fCpu);
  }

  /** When the prescaler is smaller than the MHz count (prescaler 1 at 2, 4 or
      8 MHz), QUOT is 0 and both conversions always return 0. */
  lemma ExactPathVanishes(cfg: Config, ticks: DWord)
    requires ExactMHz(cfg.fCpu) && Prescaler(cfg.prescaler) < MHz(cfg)
    ensures TicksToMs(cfg, ticks) == 0 && TicksToUs(cfg, ticks) == 0
  {
    assert Quot(cfg) == 0;
  }

  /** On the general path ticks2us is exact when 1000 divides F_CPU. */
  lemma GeneralUsIsElapsed(cfg: Config, ticks: DWord)
    requires !ExactMHz(cfg.fCpu) && cfg.fCpu >= 1000 && cfg.fCpu % 1000 == 0
    ensures UsBeforeCast(cfg, ticks) == ElapsedUs(cfg, ticks)
  {
    UsNoOverflow(cfg, ticks);
    var x, g := ticks * 1000 * Prescaler(cfg.prescaler), cfg.fCpu / 1000;
    assert cfg.fCpu == g * 1000;
    assert ticks * Prescaler(cfg.prescaler) * 1_000_000 == x * 1000;
    DivCancel(x, g, 1000);
  }

  /** On the general path ticks2us divides by F_CPU / 1000, rounded down, so it
      never reports less than the true elapsed time. */
  lemma GeneralUsOverestimates(cfg: Config, ticks: DWord)
    requires !ExactMHz(cfg.fCpu) && cfg.fCpu >= 1000
    ensures UsBeforeCast(cfg, ticks) >= ElapsedUs(cfg, ticks)
  {
    UsNoOverflow(cfg, ticks);
    var x, g := ticks * 1000 * Prescaler(cfg.prescaler), cfg.fCpu / 1000;
    assert ticks * Prescaler(cfg.prescaler) * 1_000_000 == x * 1000;
    DivByLarger(x * 1000, g * 1000, cfg.fCpu);
    DivCancel(x, g, 1000);
  }

  /** Before the casts, the tmp of ticks2ms is the tmp of ticks2us over 1000
      on the exact-MHz path and on the general path when 1000 divides F_CPU. */
  lemma MsBeforeCastIsUsOverThousand(cfg: Config, ticks: DWord)
    requires cfg.fCpu >= 1000 && (ExactMHz(cfg.fCpu) || cfg.fCpu % 1000 == 0)
    ensures MsBeforeCast(cfg, ticks) == UsBeforeCast(cfg, ticks) / 1000
  {
    MsNoOverflow(cfg, ticks);
    UsNoOverflow(cfg, ticks);
    if !ExactMHz(cfg.fCpu) {
      var x, g := ticks * 1000 * Prescaler(cfg.prescaler), cfg.fCpu / 1000;
      assert ticks * Prescaler(cfg.prescaler) * 1000 == x;
      assert g * 1000 == cfg.fCpu;
      DivDiv(x, g, 1000);
    }
  }

  /** ticks2ms is ticks2us / 1000 whenever ticks2us is not truncated by its cast,
      on the exact-MHz path and on the general path when 1000 divides F_CPU. */
  lemma MsIsUsOverThousand(cfg: Config, ticks: DWord)
    requires cfg.fCpu >= 1000 && (ExactMHz(cfg.fCpu) || cfg.fCpu % 1000 == 0)
    requires UsBeforeCast(cfg, ticks) < U32
    ensures TicksToMs(cfg, ticks) == TicksToUs(cfg, ticks) / 1000
  {
    MsBeforeCastIsUsOverThousand(cfg, ticks);
    var ms, us := MsBeforeCast(cfg, ticks), UsBeforeCast(cfg, ticks);
    assert ms <= us;
    assert TicksToMs(cfg, ticks) == ms % U32 == ms;
    assert TicksToUs(cfg, ticks) == us % U32 == us;
  }

  lemma {:induction false} MsBeforeCastMonotone(cfg: Config, t1: DWord, t2: DWord)
    requires cfg.fCpu > 0 && t1 <= t2
    ensures MsBeforeCast(cfg, t1) <= MsBeforeCast(cfg, t2)
  {
    MsNoOverflow(cfg, t1);
    MsNoOverflow(cfg, t2);
    if ExactMHz(cfg.fCpu) {
      MulLe(t1, t2, Quot(cfg));
      DivLe(t1 * Quot(cfg), t2 * Quot(cfg), 1000);
    } else {
      var p := Prescaler(cfg.prescaler);
      MulLe(t1, t2, p);
      MulLe(t1 * p, t2 * p, 1000);
      DivLe(t1 * p * 1000, t2 * p * 1000, cfg.fCpu);
    }
  }

  lemma {:induction false} UsBeforeCastMonotone(cfg: Config, t1: DWord, t2: DWord)
    requires cfg.fCpu >= 1000 && t1 <= t2
    ensures UsBeforeCast(cfg, t1) <= UsBeforeCast(cfg, t2)
  {
    UsNoOverflow(cfg, t1);
    UsNoOverflow(cfg, t2);
    if ExactMHz(cfg.fCpu) {
      MulLe(t1, t2, Quot(cfg));
    } else {
      var p := Prescaler(cfg.prescaler);
      MulLe(t1, t2, 1000);
      MulLe(t1 * 1000, t2 * 1000, p);
      DivLe(t1 * 1000 * p, t2 * 1000 * p, cfg.fCpu / 1000);
    }
  }

  /** ticks2ms never decreases as ticks grows, as long as the larger result
      is not truncated by the cast to uint32_t. */
  lemma TicksToMsMonotone(cfg: Config, t1: DWord, t2: DWord)
    requires cfg.fCpu > 0 && t1 <= t2 && MsBeforeCast(cfg, t2) < U32
    ensures TicksToMs(cfg, t1) <= TicksToMs(cfg, t2)
  {
    MsBeforeCastMonotone(cfg, t1, t2);
    var a, b := MsBeforeCast(cfg, t1), MsBeforeCast(cfg, t2);
    assert a % U32 == a && b % U32 == b;
  }

  /** ticks2us never decreases as ticks grows, as long as the larger result
      is not truncated by the cast to uint32_t. */
  lemma TicksToUsMonotone(cfg: Config, t1: DWord, t2: DWord)
    requires cfg.fCpu >= 1000 && t1 <= t2 && UsBeforeCast(cfg, t2) < U32
    ensures TicksToUs(cfg, t1) <= TicksToUs(cfg, t2)
  {
    UsBeforeCastMonotone(cfg, t1, t2);
    var a, b := UsBeforeCast(cfg, t1), UsBeforeCast(cfg, t2);
    assert a % U32 == a && b % U32 == b;
  }

  /** With the default 8 MHz clock and prescaler 1024 one tick is 128 us:
      ticks2ms is never truncated, while ticks2us wraps modulo 2^32. */
  lemma DefaultConversions(ticks: DWord)
    ensures TicksToMs(Default, ticks) == ticks * 128 / 1000 == ElapsedMs(Default, ticks)
    ensures TicksToUs(Default, ticks) == (ticks * 128) % U32
    ensures ticks * 128 < U32 ==> TicksToUs(Default, ticks) == ElapsedUs(Default, ticks)
  {
    assert Quot(Default) == 128;
    MsNoOverflow(Default, ticks);
    UsNoOverflow(Default, ticks);
    ExactPathIsElapsed(Default, ticks);
    DivLe(ticks * 128, U32 * 128, 1000);
  }

  /** 7812 ticks at 8 MHz with prescaler 1024 are 999.936 ms; the first tick
      count whose microseconds do not fit a uint32_t, 2^25, reads as 0 us. */
  lemma DefaultBoundaries()
    ensures TicksToMs(Default, 7812) == 999
    ensures TicksToUs(Default, 7812) == 999_936
    ensures TicksToUs(Default, 0x200_0000) == 0
    ensures TicksToMs(Default, 0xFFFF_FFFF) == 549_755_813
  {
    DefaultConversions(7812);
    DefaultConversions(0x200_0000);
    DefaultConversions(0xFFFF_FFFF);
  }
}
