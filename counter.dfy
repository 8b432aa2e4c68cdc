/** get_rtc, get_full_rtc and get_rtc_ms of rtc.c. The timer hardware and the
    overflow interrupt are outside the code: every read of TCNT1H, TCNT1L, TCNT1
    or high_bites is an observation supplied to the methods as data, in the order
    the code performs the reads. Writes through byte and half-word pointers are
    modelled on the little-endian image of the variable written. */
module Counter {
  import opened Layout
  import opened Arith
  import opened RtcConfig
  import opened Convert

  /** The number of lock-free attempts get_rtc and get_full_rtc make (rtc.c:72, rtc.c:95). */
  const Attempts: nat := 4

  /** TCNT1 reads one get_rtc call may perform: three per attempt and one in the atomic block. */
  const TimerReads: nat := 13

  /** The index of the first true entry at or after i, or |agree| when there is none. */
  function First(agree: seq<bool>, i: nat): (k: nat)
    requires i <= |agree|
    ensures i <= k <= |agree|
    ensures k < |agree| ==> agree[k]
    ensures forall j :: i <= j < k ==> !agree[j]
    decreases |agree| - i
  {
    if i == |agree| || agree[i] then i else First(agree, i + 1)
  }

  /** The TCNT1 values one get_rtc call would see: attempt i reads the high byte
      of tcnt[3i], the low byte of tcnt[3i+1] and the high byte of tcnt[3i+2];
      the atomic block reads tcnt[12] whole. Entries after an early return are
      never read. */
  predicate IsTimerTrace(tcnt: seq<Word>)
  {
    |tcnt| == TimerReads
  }

  /** Attempt i saw the same high byte before and after the low byte. */
  predicate HighBytesAgree(tcnt: seq<Word>, i: nat)
    requires IsTimerTrace(tcnt) && i < Attempts
  {
    HighByte(tcnt[3 * i]) == HighByte(tcnt[3 * i + 2])
  }

  function TimerAgreement(tcnt: seq<Word>): (agree: seq<bool>)
    requires IsTimerTrace(tcnt)
    ensures |agree| == Attempts
    ensures forall i :: 0 <= i < Attempts ==> agree[i] == HighBytesAgree(tcnt, i)
  {
    seq(Attempts, i requires 0 <= i < Attempts => HighBytesAgree(tcnt, i))
  }

  /** Which TCNT1 read get_rtc returns: the low-byte read of the first agreeing
      attempt, or the read inside the atomic block. */
  function ReadIndex(tcnt: seq<Word>): (j: nat)
    requires IsTimerTrace(tcnt)
    ensures j < TimerReads
  {
    var k := First(TimerAgreement(tcnt), 0);
    if k < Attempts then 3 * k + 1 else 12
  }

  /** The value get_rtc returns for the trace tcnt: after a successful attempt
      its high byte is what both TCNT1H reads of that attempt saw and its low
      byte is the TCNT1L read between them; otherwise it is the atomic read. */
  function ReadTimer(tcnt: seq<Word>): (r: Word)
    requires IsTimerTrace(tcnt)
    ensures var k := First(TimerAgreement(tcnt), 0);
            if k < Attempts
            then HighByte(r) == HighByte(tcnt[3 * k]) == HighByte(tcnt[3 * k + 2])
                 && LowByte(r) == LowByte(tcnt[3 * k + 1])
            else r == tcnt[12]
  {
    var k := First(TimerAgreement(tcnt), 0);
    if k < Attempts then
      var hi, lo := HighByte(tcnt[3 * k]), LowByte(tcnt[3 * k + 1]);
      DivUnique(hi * 256 + lo, 256, hi, lo);
      hi * 256 + lo
    else tcnt[12]
  }

  /** get_rtc: up to four lock-free attempts, then one read with interrupts off. */
  method GetRtc(tcnt: seq<Word>) returns (r: Word)
    requires IsTimerTrace(tcnt)
    ensures r == ReadTimer(tcnt)
  {
    var tmp: seq<Byte> := [0, 0];    // both bytes are written before they are read
    var i := 0;
    while i < Attempts
      invariant 0 <= i <= Attempts && |tmp| == 2
      invariant forall j :: 0 <= j < i ==> !HighBytesAgree(tcnt, j)
    {
      tmp := tmp[1 := HighByte(tcnt[3 * i])];    // high byte from the first TCNT1H read
      tmp := tmp[0 := LowByte(tcnt[3 * i + 1])];    // low byte from the TCNT1L read
      if tmp[1] == HighByte(tcnt[3 * i + 2]) {    // checked against a second TCNT1H read
        assert ValueOf(tmp[1..]) == tmp[1];
        assert TimerAgreement(tcnt)[i];
        r := ValueOf(tmp);
        return;
      }
      i := i + 1;
    }
    r := tcnt[12];    // one 16-bit read with interrupts off (rtc.c:80-82)
  }

  /** ticks[j] is the count of timer ticks since the timer started at the
      instant of read j; TCNT1 shows it modulo 2^16. */
  ghost predicate Samples(tcnt: seq<Word>, ticks: seq<nat>)
  {
    |ticks| == |tcnt| && forall j :: 0 <= j < |tcnt| ==> tcnt[j] == ticks[j] % U16
  }

  ghost predicate NonDecreasing(ticks: seq<nat>)
  {
    forall j, k :: 0 <= j <= k < |ticks| ==> ticks[j] <= ticks[k]
  }

  /** A bound on the ticks that elapse during one call: well under a full turn
      of the 16-bit counter. */
  const CallTicks: nat := 0xFF00

  /** Whatever the moment of a wrap, a high byte that is the same before and
      after the low byte read means that no carry into the high byte happened
      in between: the composed value is the counter at the low byte read. */
  lemma HighByteSandwich(t0: nat, t1: nat, t2: nat)
    requires t0 <= t1 <= t2 && t2 - t0 < CallTicks
    requires HighByte(t0 % U16) == HighByte(t2 % U16)
    ensures HighByte(t0 % U16) * 256 + LowByte(t1 % U16) == t1 % U16
  {
    var q0, q1, q2 := t0 / U16, t1 / U16, t2 / U16;
    DivLe(t0, t1, U16);
    DivLe(t1, t2, U16);
    if q0 < q2 {
      assert false;
    }
    assert q0 == q1 == q2;
    assert t0 % U16 <= t1 % U16 <= t2 % U16;
    DivLe(t0 % U16, t1 % U16, 256);
    DivLe(t1 % U16, t2 % U16, 256);
  }

  /** If the counter runs freely and the call takes less than CallTicks ticks,
      get_rtc returns the value TCNT1 held at one of the reads it performed: no
      torn value whose high and low bytes come from different sides of a carry. */
  lemma ReadTimerIsSample(tcnt: seq<Word>, ticks: seq<nat>)
    requires IsTimerTrace(tcnt) && Samples(tcnt, ticks) && NonDecreasing(ticks)
    requires ticks[TimerReads - 1] - ticks[0] < CallTicks
    ensures ReadTimer(tcnt) == tcnt[ReadIndex(tcnt)] == ticks[ReadIndex(tcnt)] % U16
  {
    var k := First(TimerAgreement(tcnt), 0);
    if k < Attempts {
      HighByteSandwich(ticks[3 * k], ticks[3 * k + 1], ticks[3 * k + 2]);
    }
  }

  /** When the counter does not move, get_rtc returns its value. */
  lemma ReadTimerStable(tcnt: seq<Word>, v: Word)
    requires IsTimerTrace(tcnt) && forall j :: 0 <= j < |tcnt| ==> tcnt[j] == v
    ensures ReadTimer(tcnt) == v
  {
    assert HighBytesAgree(tcnt, 0);
    WordImage(v);
  }

  /** The observations of one get_full_rtc attempt: the two reads of high_bites
      that fill ret (rtc.c:96 stores the first into the whole of ret, rtc.c:97
      the second into its upper half), the TCNT1 trace of the nested get_rtc
      call, and the high_bites read the upper half is compared with (rtc.c:101). */
  datatype WideAttempt = WideAttempt(hbLow: Word, hbHigh: Word, tcnt: seq<Word>, hbCheck: Word)

  predicate IsWideTrace(attempts: seq<WideAttempt>)
  {
    |attempts| == Attempts && forall i :: 0 <= i < |attempts| ==> IsTimerTrace(attempts[i].tcnt)
  }

  function WideAgreement(attempts: seq<WideAttempt>): (agree: seq<bool>)
    requires IsWideTrace(attempts)
    ensures |agree| == Attempts
    ensures forall i :: 0 <= i < Attempts ==> agree[i] == (attempts[i].hbHigh == attempts[i].hbCheck)
  {
    seq(Attempts, i requires 0 <= i < Attempts => attempts[i].hbHigh == attempts[i].hbCheck)
  }

  /** The value get_full_rtc returns: after the first attempt whose second and
      third high_bites samples agree, the upper half is that agreed sample and
      the lower half the get_rtc value of the attempt; the literal 1 when all
      four attempts disagree. */
  function ReadWide(attempts: seq<WideAttempt>): (r: DWord)
    requires IsWideTrace(attempts)
    ensures var k := First(WideAgreement(attempts), 0);
            if k < Attempts
            then r / U16 == attempts[k].hbHigh == attempts[k].hbCheck
                 && r % U16 == ReadTimer(attempts[k].tcnt)
            else r == 1
  {
    var k := First(WideAgreement(attempts), 0);
    if k < Attempts then
      var hi, lo := attempts[k].hbHigh, ReadTimer(attempts[k].tcnt);
      DivUnique(hi * U16 + lo, U16, hi, lo);
      hi * U16 + lo
    else 1
  }

  /** get_full_rtc: the aliasing writes into ret are done on its 4-byte image. */
  method GetFullRtc(attempts: seq<WideAttempt>) returns (r: DWord)
    requires IsWideTrace(attempts)
    ensures r == ReadWide(attempts)
  {
    var i := 0;
    while i < Attempts
      invariant 0 <= i <= Attempts
      invariant forall j :: 0 <= j < i ==> attempts[j].hbHigh != attempts[j].hbCheck
    {
      var a := attempts[i];
      var ret := ImageOf(a.hbLow, 4);    // the first high_bites sample fills all of ret
      ret := WithHalf(ret, 1, a.hbHigh);    // upper half-word set to the second sample
      var tmp := GetRtc(a.tcnt);
      var tmpImage := ImageOf(tmp, 2);
      WordImage(tmp);
      ret := ret[0 := LowByte(tmp)];    // byte 0 of ret from the low byte of tmp
      ret := ret[1 := tmpImage[1]];    // byte 1 of ret from byte 1 of tmp
      assert HalfAt(ret, 0) == tmp && HalfAt(ret, 1) == a.hbHigh;
      if HalfAt(ret, 1) == a.hbCheck {    // upper half compared with a third sample
        ValueOfHalves(ret);
        r := ValueOf(ret);
        return;
      }
      i := i + 1;
    }
    r := 1;    // rtc.c:105; the atomic fallback after it is never reached
  }

  /** The hardware and interrupt side of one get_full_rtc attempt, as tick
      counts since the timer started: when hbHigh was read, when each TCNT1 read
      of the nested get_rtc happened, and when hbCheck was read. */
  datatype WideTimeline = WideTimeline(atHigh: nat, ticks: seq<nat>, atCheck: nat)

  /** high_bites as the overflow interrupt keeps it: the number of counter wraps
      up to instant at, modulo 2^16. */
  ghost predicate OverflowCount(hb: Word, at: nat)
  {
    hb == (at / U16) % U16
  }

  /** The observations of attempt a are those of a free-running counter whose
      overflow interrupt runs at each wrap, over the instants of timeline t, in
      program order and within less than CallTicks ticks. */
  ghost predicate Witnessed(a: WideAttempt, t: WideTimeline)
  {
    && IsTimerTrace(a.tcnt)
    && Samples(a.tcnt, t.ticks)
    && NonDecreasing(t.ticks)
    && OverflowCount(a.hbHigh, t.atHigh)
    && OverflowCount(a.hbCheck, t.atCheck)
    && t.atHigh <= t.ticks[0]
    && t.ticks[TimerReads - 1] <= t.atCheck
    && t.atCheck - t.atHigh < CallTicks
  }

  /** Every attempt of one get_full_rtc call is witnessed by its timeline, and
      each attempt ends before the next one starts. */
  ghost predicate Observed(attempts: seq<WideAttempt>, timelines: seq<WideTimeline>)
  {
    && |attempts| == |timelines| == Attempts
    && (forall i {:trigger timelines[i]} :: 0 <= i < Attempts ==>
          |timelines[i].ticks| == TimerReads && Witnessed(attempts[i], timelines[i]))
    && (forall i :: 0 <= i < Attempts - 1 ==> timelines[i].atCheck <= timelines[i + 1].atHigh)
  }

  /** The ticks from the first high_bites read of a call to its last one. */
  ghost function CallSpan(timelines: seq<WideTimeline>): int
    requires |timelines| == Attempts
  {
    timelines[Attempts - 1].atCheck - timelines[0].atHigh
  }

  /** Later attempts of a call happen later. */
  lemma {:induction false} Chronological(attempts: seq<WideAttempt>, timelines: seq<WideTimeline>, i: nat, j: nat)
    requires Observed(attempts, timelines) && i <= j < Attempts
    ensures timelines[i].atHigh <= timelines[j].atHigh
    ensures timelines[i].atCheck <= timelines[j].atCheck
    ensures timelines[i].atHigh <= timelines[i].atCheck
    decreases j - i
  {
    var t := timelines[i];
    assert Witnessed(attempts[i], t);
    assert t.atHigh <= t.ticks[0] <= t.ticks[TimerReads - 1] <= t.atCheck;
    if i < j {
      Chronological(attempts, timelines, i + 1, j);
    }
  }

  /** An attempt fails only when an overflow falls between its two comparisons. */
  lemma FailedAttemptSpansWrap(a: WideAttempt, t: WideTimeline)
    requires |t.ticks| == TimerReads && Witnessed(a, t) && a.hbHigh != a.hbCheck
    ensures t.atHigh / U16 < t.atCheck / U16
  {
    assert t.atHigh <= t.ticks[0] <= t.ticks[TimerReads - 1] <= t.atCheck;
    DivLe(t.atHigh, t.atCheck, U16);
  }

  /** Four failed attempts need four overflows, one inside each attempt, and
      those are more than 3 * 2^16 ticks apart. */
  lemma ExhaustedCallIsLong(attempts: seq<WideAttempt>, timelines: seq<WideTimeline>)
    requires IsWideTrace(attempts) && Observed(attempts, timelines)
    requires First(WideAgreement(attempts), 0) == Attempts
    ensures CallSpan(timelines) > 3 * U16
  {
    forall i | 0 <= i < Attempts
      ensures timelines[i].atHigh / U16 < timelines[i].atCheck / U16
    {
      assert !WideAgreement(attempts)[i];
      assert Witnessed(attempts[i], timelines[i]);
      FailedAttemptSpansWrap(attempts[i], timelines[i]);
    }
    forall i | 0 <= i < Attempts - 1
      ensures timelines[i].atCheck / U16 <= timelines[i + 1].atHigh / U16
    {
      DivLe(timelines[i].atCheck, timelines[i + 1].atHigh, U16);
    }
    var t0, t1, t2, t3 := timelines[0], timelines[1], timelines[2], timelines[3];
    assert t0.atHigh / U16 < t0.atCheck / U16 <= t1.atHigh / U16 < t1.atCheck / U16;
    assert t1.atCheck / U16 <= t2.atHigh / U16 < t2.atCheck / U16 <= t3.atHigh / U16;
    assert t3.atHigh / U16 < t3.atCheck / U16;
  }

  /** A call that takes at most 3 * 2^16 ticks never returns 1. */
  lemma CallSucceeds(attempts: seq<WideAttempt>, timelines: seq<WideTimeline>)
    requires IsWideTrace(attempts) && Observed(attempts, timelines)
    requires CallSpan(timelines) <= 3 * U16
    ensures First(WideAgreement(attempts), 0) < Attempts
  {
    if First(WideAgreement(attempts), 0) == Attempts {
      ExhaustedCallIsLong(attempts, timelines);
      assert false;
    }
  }

  /** One attempt that sees high_bites move from i to i + 1: the counter
      reads 0xFFFF until the wrap just before the comparison. */
  function StuckAttempt(i: nat): WideAttempt
    requires i < Attempts
  {
    WideAttempt(i, i, seq(TimerReads, _ => U16 - 1), i + 1)
  }

  function StuckTimeline(i: nat): WideTimeline
    requires i < Attempts
  {
    WideTimeline((i + 1) * U16 - 1, seq(TimerReads, _ => (i + 1) * U16 - 1), (i + 1) * U16)
  }

  lemma StuckAttemptWitnessed(i: nat)
    requires i < Attempts
    ensures |StuckTimeline(i).ticks| == TimerReads
    ensures Witnessed(StuckAttempt(i), StuckTimeline(i))
  {
    var a, t := StuckAttempt(i), StuckTimeline(i);
    var last := (i + 1) * U16 - 1;
    DivUnique(last, U16, i, U16 - 1);
    DivUnique(last + 1, U16, i + 1, 0);
    assert forall j :: 0 <= j < TimerReads ==> a.tcnt[j] == U16 - 1 && t.ticks[j] == last;
  }

  /** The bound of CallSucceeds is tight: a call spanning 3 * 2^16 + 1 ticks
      can see an overflow inside each of its four attempts and return 1. */
  lemma LongCallReturnsOne()
    ensures var attempts := [StuckAttempt(0), StuckAttempt(1), StuckAttempt(2), StuckAttempt(3)];
            var timelines := [StuckTimeline(0), StuckTimeline(1), StuckTimeline(2), StuckTimeline(3)];
            && IsWideTrace(attempts) && Observed(attempts, timelines)
            && CallSpan(timelines) == 3 * U16 + 1
            && ReadWide(attempts) == 1
  {
    var attempts := [StuckAttempt(0), StuckAttempt(1), StuckAttempt(2), StuckAttempt(3)];
    var timelines := [StuckTimeline(0), StuckTimeline(1), StuckTimeline(2), StuckTimeline(3)];
    StuckAttemptWitnessed(0);
    StuckAttemptWitnessed(1);
    StuckAttemptWitnessed(2);
    StuckAttemptWitnessed(3);
    assert Observed(attempts, timelines);
    assert First(WideAgreement(attempts), 0) == Attempts;
  }

  /** The 32-bit extended count is the wrap count modulo 2^16 over the 16-bit counter. */
  lemma ExtendedCount(x: nat)
    ensures ((x / U16) % U16) * U16 + x % U16 == x % U32
  {
    var q, r := x / U16, x % U16;
    var qh, ql := q / U16, q % U16;
    assert x == qh * U32 + (ql * U16 + r);
    MulLe(ql, U16 - 1, U16);
    DivUnique(x, U32, qh, ql * U16 + r);
  }

  /** Equal 16-bit wrap counts less than 2^16 ticks apart are the same count. */
  lemma SameOverflowCount(a: nat, t: nat, b: nat)
    requires a <= t <= b && b - a < CallTicks
    requires (a / U16) % U16 == (b / U16) % U16
    ensures t / U16 == a / U16
  {
    DivLe(a, t, U16);
    DivLe(t, b, U16);
    DivLe(b - a + a, a + U16, U16);
    assert (a + U16) / U16 == a / U16 + 1;
    if b / U16 == a / U16 + 1 {
      assert false;
    }
  }

  /** get_full_rtc either returns the literal 1, after four disagreeing
      attempts, or the 32-bit extended count at the instant of the TCNT1 read
      that get_rtc returned: the two halves are never taken across a wrap. */
  lemma ReadWideIsSample(attempts: seq<WideAttempt>, timelines: seq<WideTimeline>)
    requires IsWideTrace(attempts) && Observed(attempts, timelines)
    ensures var k := First(WideAgreement(attempts), 0);
            if k < Attempts
            then ReadWide(attempts) == timelines[k].ticks[ReadIndex(attempts[k].tcnt)] % U32
            else ReadWide(attempts) == 1
  {
    var k := First(WideAgreement(attempts), 0);
    if k < Attempts {
      var a, t := attempts[k], timelines[k];
      assert Witnessed(a, t);
      var j := ReadIndex(a.tcnt);
      ReadTimerIsSample(a.tcnt, t.ticks);
      assert t.atHigh <= t.ticks[0] <= t.ticks[j] <= t.ticks[TimerReads - 1] <= t.atCheck;
      SameOverflowCount(t.atHigh, t.ticks[j], t.atCheck);
      ExtendedCount(t.ticks[j]);
    }
  }

  /** Two get_full_rtc calls, each taking at most 3 * 2^16 ticks, the second
      started after the first returned and both within one 2^32-tick period of
      the extended counter, return non-decreasing values. */
  lemma SuccessiveReadsNonDecreasing(
    first: seq<WideAttempt>, firstTimes: seq<WideTimeline>,
    second: seq<WideAttempt>, secondTimes: seq<WideTimeline>)
    requires IsWideTrace(first) && Observed(first, firstTimes) && CallSpan(firstTimes) <= 3 * U16
    requires IsWideTrace(second) && Observed(second, secondTimes) && CallSpan(secondTimes) <= 3 * U16
    requires firstTimes[Attempts - 1].atCheck <= secondTimes[0].atHigh
    requires firstTimes[0].atHigh / U32 == secondTimes[Attempts - 1].atCheck / U32
    ensures ReadWide(first) <= ReadWide(second)
  {
    CallSucceeds(first, firstTimes);
    CallSucceeds(second, secondTimes);
    ReadWideIsSample(first, firstTimes);
    ReadWideIsSample(second, secondTimes);
    var k1, k2 := First(WideAgreement(first), 0), First(WideAgreement(second), 0);
    var t1, t2 := firstTimes[k1], secondTimes[k2];
    Chronological(first, firstTimes, 0, k1);
    Chronological(first, firstTimes, k1, Attempts - 1);
    Chronological(second, secondTimes, 0, k2);
    Chronological(second, secondTimes, k2, Attempts - 1);
    assert Witnessed(first[k1], t1) && Witnessed(second[k2], t2);
    var x1 := t1.ticks[ReadIndex(first[k1].tcnt)];
    var x2 := t2.ticks[ReadIndex(second[k2].tcnt)];
    assert firstTimes[0].atHigh <= x1 <= firstTimes[Attempts - 1].atCheck;
    assert secondTimes[0].atHigh <= x2 <= secondTimes[Attempts - 1].atCheck;
    DivLe(firstTimes[0].atHigh, x1, U32);
    DivLe(x1, x2, U32);
    DivLe(x2, secondTimes[Attempts - 1].atCheck, U32);
    assert x1 / U32 == x2 / U32;
  }

  /** get_rtc_ms in the 32-bit build. */
  method GetRtcMs(cfg: Config, attempts: seq<WideAttempt>) returns (ms: DWord)
    requires cfg.fCpu > 0 && IsWideTrace(attempts)
    ensures ms == TicksToMs(cfg, ReadWide(attempts))
  {
    var ticks := GetFullRtc(attempts);
    ms := TicksToMs(cfg, ticks);
  }

  /** get_rtc_us in the 32-bit build computes ticks2us(get_full_rtc()) and
      discards it: the C function has no return statement, so its result is
      undefined and this method returns nothing. */
  method GetRtcUs(cfg: Config, attempts: seq<WideAttempt>)
    requires cfg.fCpu >= 1000 && IsWideTrace(attempts)
  {
    var ticks := GetFullRtc(attempts);
    var discarded := TicksToUs(cfg, ticks);
  }
}
