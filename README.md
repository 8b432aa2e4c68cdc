# RTC-ATMega in Dafny

A model of the real-time-clock library for the ATmega328P in `rtc.c`. The
library turns the 16-bit Timer/Counter1 into a 32-bit tick counter. The
overflow interrupt counts wraps in `high_bites`, and the upper half of the
counter is taken from it. Tick counts are converted to milliseconds and
microseconds with integer arithmetic.

The modelled build is the default one in `config.h`, with `RTC_MS_RESOLUTION`,
`RTC_US_RESOLUTION` and `RTC_32_BIT` defined. `F_CPU` and `RTC_PRESCALER` are
given as a `Config` value, with the defaults 8 MHz and 1024 as
`RtcConfig.Default`.

- `config.dfy` (`RtcConfig`): the configuration and the prescaler the build
  actually uses. An unsupported `RTC_PRESCALER` is redefined as 1024 in
  `rtc_init`'s last branch. The conversions further down the file see 1024 too.
- `convert.dfy` (`Convert`): `ticks2ms` and `ticks2us`. Each `tmp *=` step wraps
  modulo 2^64 (`Wrap64`) and the final cast wraps modulo 2^32. The lemmas show
  that the 64-bit steps never overflow. They relate each result to the floor of
  the true elapsed time (`ElapsedMs`, `ElapsedUs`) and prove that milliseconds
  are microseconds over 1000 and that both conversions are monotone.
- `layout.dfy` (`Layout`): the `uint8_t`/`uint16_t`/`uint32_t` types and the
  little-endian byte image that the pointer casts in `get_rtc` and
  `get_full_rtc` write into.
- `counter.dfy` (`Counter`): `get_rtc`, `get_full_rtc`, `get_rtc_ms` and
  `get_rtc_us`. Reads of `TCNT1H`, `TCNT1L`, `TCNT1` and `high_bites` are
  observations passed in as data, in program order. The consistency theorems
  take a timeline of absolute tick counts as a hypothesis: a counter that runs
  freely, and an interrupt that increments `high_bites` at each wrap. Under that
  hypothesis `get_rtc` returns the counter's value at one instant of the call.
  `get_full_rtc` returns either the literal 1, after four failed attempts, or
  the 32-bit count at one instant of the call, never a torn mix of two instants.
  A call whose attempts span at most 3·2^16 ticks never returns 1, and two such
  calls in a row return non-decreasing values.
- `timer.dfy` (`Timer`): `rtc_init` and `ISR(TIMER1_OVF_vect)` as methods of a
  class `Timer1` that holds `TCCR1B`, `TIMSK1` and `high_bites`. A ghost overflow
  count is kept beside them.
- `arith.dfy` (`Arith`): facts about multiplication and floor division used by
  the proofs.

Where the code and the library's description differ, the model follows the code:

- When all four attempts of `get_full_rtc` disagree, it returns the literal
  `1`. The blocking fallback after that `return` (rtc.c:107-114) is never
  reached. `Counter.ReadWide` returns 1 in that case.
- The comparison at rtc.c:75 indexes the address of `tmp` as a `uint16_t`
  pointer, so it reads the `uint16_t` one past `tmp`, which is undefined behaviour. The model compares the
  high byte of `tmp` with a fresh read of `TCNT1H`, as the comment at rtc.c:71
  and the description of `get_rtc` in rtc.h:42-53 intend.
- `config.h` lists the prescalers 1, 64, 256 and 1024. `rtc_init` also accepts
  8 (rtc.c:39-40), and so does the model.

## Model

| member | source | states |
|---|---|---|
| RtcConfig.Prescaler | rtc.c:37-50 | the prescaler in use is always supported: a supported `RTC_PRESCALER` is kept and any other becomes 1024 |
| Convert.ElapsedMs | rtc.h:107-121 | the reference value for ticks2ms: the whole milliseconds that `ticks` ticks of prescaler/F_CPU seconds take, truncated (floor) |
| Convert.ElapsedUs | rtc.h:126-135 | the reference value for ticks2us: the whole microseconds that `ticks` ticks take, truncated |
| Convert.MsBeforeCast | rtc.c:121-146 | the uint64_t tmp of ticks2ms before the cast: `ticks*QUOT` (wrapping) over 1000 on the exact-MHz path, `ticks*1000*prescaler` (wrapping) over F_CPU otherwise; it is below 2^64 |
| Convert.TicksToMs | rtc.c:121-151 | ticks2ms: on the general path, and on the exact-MHz path when the MHz count divides the prescaler, the result is the true elapsed milliseconds modulo 2^32 (the uint32_t cast) |
| Convert.UsBeforeCast | rtc.c:168-188 | the uint64_t tmp of ticks2us before the cast: `ticks*QUOT` (wrapping), or `ticks*1000*prescaler` (wrapping) over `F_CPU/1000`; it is below 2^64 |
| Convert.TicksToUs | rtc.c:168-193 | ticks2us: on the exact-MHz path when the MHz count divides the prescaler, and on the general path when 1000 divides F_CPU, the result is the true elapsed microseconds modulo 2^32 |
| Convert.MsNoOverflow | rtc.c:121-146 | no `tmp *=` step of ticks2ms wraps its uint64_t: on the exact-MHz path tmp is `ticks*QUOT/1000`, on the general path it is the exact floor of `ticks*1000*prescaler/F_CPU` |
| Convert.UsNoOverflow | rtc.c:168-188 | no `tmp *=` step of ticks2us wraps: tmp is `ticks*QUOT` or `ticks*1000*prescaler/(F_CPU/1000)` |
| Convert.ExactPathIsElapsed | rtc.c:130-136 | when the MHz count divides the prescaler, the exact-MHz path loses nothing to `QUOT`: both conversions are the true elapsed time before the cast |
| Convert.ExactPathVanishes | rtc.c:132-133 | when the prescaler is below the MHz count (prescaler 1 at 2, 4 or 8 MHz), `QUOT` is 0 and ticks2ms and ticks2us always return 0 |
| Convert.GeneralUsIsElapsed | rtc.c:184-188 | on the general path ticks2us is the true elapsed time before the cast when 1000 divides F_CPU |
| Convert.GeneralUsOverestimates | rtc.c:184-188 | on the general path, with `F_CPU/1000` rounded down, ticks2us is never below the true elapsed time |
| Convert.MsBeforeCastIsUsOverThousand | rtc.c:121-193 | before the casts, the tmp of ticks2ms is the tmp of ticks2us over 1000, on the exact-MHz path and on the general path when 1000 divides F_CPU |
| Convert.MsIsUsOverThousand | rtc.c:121-193 | `ticks2ms(t) == ticks2us(t) / 1000` whenever ticks2us is not truncated, on the exact-MHz path and on the general path when 1000 divides F_CPU |
| Convert.TicksToMsMonotone | rtc.c:121-151 | ticks2ms is non-decreasing in ticks while the larger result fits in 32 bits |
| Convert.TicksToUsMonotone | rtc.c:168-193 | ticks2us is non-decreasing in ticks while the larger result fits in 32 bits |
| Convert.DefaultConversions | config.h:58-63 | at 8 MHz and prescaler 1024: ticks2ms is `ticks*128/1000`, never truncated and equal to the elapsed time; ticks2us is `ticks*128` modulo 2^32 |
| Convert.DefaultBoundaries | rtc.c:119 | at the defaults: 7812 ticks give 999 ms and 999936 us; 2^25 ticks give 0 us (the 32-bit wrap); 2^32-1 ticks give 549755813 ms |
| Layout.ValueOf | rtc.c:97-100 | the value of an n-byte little-endian image is below 256^n |
| Layout.ImageOf | rtc.c:97-100 | the n-byte little-endian image of x has n bytes and reads back as x |
| Layout.ImageOfValueOf | rtc.c:97-100 | laying out the value of an image again gives the same bytes, the other half of the round trip |
| Layout.WordImage | rtc.c:73-74 | a uint16_t's bytes at offsets 0 and 1 are its low and high byte, and `lo + 256*hi` is the value |
| Layout.WithHalf | rtc.c:97 | writing `((uint16_t *)&ret)[k]` sets half-word k and leaves the other half-word unchanged |
| Layout.ValueOfHalves | rtc.c:101 | a uint32_t is its half-word 1 times 2^16 plus its half-word 0 |
| Counter.First | rtc.c:72-77 | the attempt that returns is the first whose check succeeds: all before it failed; none succeeded when it is past the last |
| Counter.ReadTimer | rtc.c:66-85 | the value of get_rtc: after the first attempt whose two TCNT1H reads agree, its high byte is the agreed high byte and its low byte the TCNT1L read between them; otherwise it is the TCNT1 read with interrupts off |
| Counter.GetRtc | rtc.c:66-85 | get_rtc composes `hi*256+lo` through the byte image of tmp on the first attempt whose high bytes agree, else returns the atomic TCNT1 read; the result is below 2^16 |
| Counter.HighByteSandwich | rtc.c:73-75 | equal high bytes around the low byte read of a free-running counter mean the composed value is the counter at the low byte read, even across a wrap |
| Counter.ReadTimerIsSample | rtc.c:66-85 | for a free-running counter, get_rtc returns TCNT1 as it was at one of its own reads: never a torn value |
| Counter.ReadTimerStable | rtc.c:72-76 | with a counter that does not move, get_rtc returns its value |
| Counter.ReadWide | rtc.c:89-105 | the value of get_full_rtc: for the first attempt whose high_bites sample equals the re-read at rtc.c:101, the upper half is that agreed sample and the lower half get_rtc's value; 1 when all four attempts disagree |
| Counter.GetFullRtc | rtc.c:89-115 | get_full_rtc, with its writes into ret done on the byte image, returns `h*65536 + get_rtc()` for the first attempt whose sampled `h` equals the re-read high_bites, and 1 after four failed attempts |
| Counter.ExtendedCount | rtc.c:97-100 | high_bites (wraps modulo 2^16) above TCNT1 is the absolute tick count modulo 2^32 |
| Counter.SameOverflowCount | rtc.c:101 | equal high_bites samples fewer than 0xFF00 ticks apart mean no overflow happened between them |
| Counter.ReadWideIsSample | rtc.c:95-105 | get_full_rtc returns 1 after four failures, and otherwise the 32-bit extended count at the instant of the TCNT1 read get_rtc returned: high and low halves never come from opposite sides of a wrap |
| Counter.Chronological | rtc.c:95-103 | the attempts of one call follow each other in time: each later attempt starts and ends no earlier than an earlier one |
| Counter.FailedAttemptSpansWrap | rtc.c:96-101 | an attempt fails only when a counter overflow falls between its second high_bites sample and the re-read |
| Counter.ExhaustedCallIsLong | rtc.c:95-105 | a call that reaches `return 1` has seen four overflows, one inside each attempt, so it spans more than 3·2^16 ticks |
| Counter.CallSucceeds | rtc.c:95-105 | a call whose attempts span at most 3·2^16 ticks returns from a successful attempt, never the literal 1 |
| Counter.LongCallReturnsOne | rtc.c:95-105 | the bound is tight: a call of four attempts spanning 3·2^16+1 ticks, with an overflow inside each attempt, fits the timeline hypothesis and returns 1 |
| Counter.SuccessiveReadsNonDecreasing | rtc.c:89-105 | two get_full_rtc calls, each spanning at most 3·2^16 ticks, the second after the first and both within one 2^32-tick period, return non-decreasing values |
| Counter.GetRtcUs | rtc.c:196-199 | get_rtc_us computes ticks2us of get_full_rtc's value and, having no return statement, returns nothing |
| Counter.GetRtcMs | rtc.c:154-157 | get_rtc_ms is ticks2ms of the value get_full_rtc returns |
| Timer.ClockSelect | rtc.c:37-50 | the bits rtc_init ORs into TCCR1B lie inside the clock-select field and are the data-sheet code of the prescaler in use, 1024 for an unsupported one |
| Timer.ClockSelectRunsAtPrescaler | rtc.c:37-50 | with the clock-select field clear beforehand, the bits rtc_init sets make Timer1 count at the prescaler in use: 1→CS10, 8→CS11, 64→CS11\|CS10, 256→CS12, 1024 and anything else→CS12\|CS10 |
| Timer.StaleClockSelectBitsRemain | rtc.c:38-49 | rtc_init only ORs bits in, so a clock-select bit left set by earlier code stays set: CS11 left over with prescaler 1024 selects the external clock |
| Timer.Timer1.constructor | rtc.c:32 | before rtc_init the registers hold whatever earlier code left and high_bites is zero |
| Timer.Timer1.Init | rtc.c:35-58 | rtc_init ORs the clock-select bits into TCCR1B and TOIE1 into TIMSK1, so every bit already set stays set, and zeroes high_bites |
| Timer.Timer1.OnOverflow | rtc.c:61-63 | the overflow interrupt only does `high_bites = (high_bites + 1) mod 2^16`; it keeps high_bites equal to the serviced overflows modulo 2^16 |

## Left out

- The 16-bit build (without `RTC_32_BIT`) is not modelled. Its general-path cast `(uint16_0t)` at rtc.c:148 does not compile. Its ticks2us casts to `uint32_t` in a `uint16_t` function (rtc.c:181, rtc.c:190).
- `get_rtc_us` (rtc.c:196-204) has no `return` statement, so its result is undefined. `Counter.GetRtcUs` computes `ticks2us(get_full_rtc())` and returns nothing, and it has no contract on a result.
- The hardware is not modelled: how Timer1 counts, the TEMP register that latches `TCNT1H` during 16-bit accesses, and the clock itself. Register and `high_bites` reads are observations given as data.
- Interrupt preemption is not modelled as real interleaving, and neither is `ATOMIC_BLOCK`. The interrupt is the method `Timer1.OnOverflow`. Its effect on `get_full_rtc` is the observed `high_bites` samples. The consistency theorems assume the interrupt runs at the instant of each wrap (`Counter.OverflowCount`), so they leave out interrupt latency.
- Counter.ReadTimerIsSample assumes that all 13 TCNT1 reads of its trace, the ones after an early return included, fall within fewer than 0xFF00 timer ticks (`Counter.CallTicks`). Counter.ReadWideIsSample assumes this of each attempt of `get_full_rtc`: from its second `high_bites` sample to the re-read.
- Counter.SuccessiveReadsNonDecreasing covers only calls whose four attempts span at most 3·2^16 ticks. A longer call can exhaust its attempts and return 1 (`Counter.LongCallReturnsOne`), which is below any earlier read other than 0 or 1.
- The consistency theorems assume that every read of `high_bites` in the text is performed, in program order, and reads one whole value. The C code does not guarantee this. `high_bites` (rtc.c:32) is not declared `volatile`, so the compiler may reuse the value loaded at rtc.c:97 for the comparison at rtc.c:101, which makes the check always succeed. On the 8-bit AVR each read of the 16-bit variable is also two byte loads that the overflow interrupt can split. Both are latent defects of the source that the model does not capture.
- Builds with `F_CPU` of 0, or below 1000 for ticks2us, divide by zero at rtc.c:146 and rtc.c:188. The conversions require `F_CPU > 0`, and `F_CPU >= 1000` for microseconds (`Counter.GetRtcMs`, `Counter.GetRtcUs` likewise).
- The blocking fallback of `get_full_rtc` after `return 1` (rtc.c:107-114) is unreachable, so it is not modelled.
- The comparison at rtc.c:75 reads past `tmp`, which is undefined behaviour. The model uses the intended high-byte comparison instead.
