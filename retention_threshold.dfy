/** `DiagnosisKeyService.daysToSeconds`: the retention threshold, "now" minus a
    number of days, in the store's unit of hours since the epoch (UTC). The
    clock is a parameter, `nowEpochSeconds`, in place of `Instant.now()`. */
module RetentionThreshold {
  import opened DiagnosisKeys

  /** `LocalDateTime.minusDays` in UTC moves by exactly this many seconds per day. */
  const SECONDS_PER_DAY: int := 86400
  /** The divisor that turns epoch seconds into the store's hour unit. */
  const SECONDS_PER_HOUR: int := 3600

  const NEGATIVE_DAYS_MESSAGE: string := "Number of days to retain must be greater or equal to 0."

  /** `q` is Java's quotient of `a` by `b > 0`: the largest `|q|` with
      `|b * q| <= |a|`, carrying the sign of `a` (the remainder takes the
      sign of the dividend). */
  ghost predicate IsTruncatedQuotient(a: int, b: int, q: int)
    requires b > 0
  {
    if a >= 0 then 0 <= a - b * q < b else -b < a - b * q <= 0
  }

  /** Java `long` division, which rounds toward zero (Dafny's `/` rounds down). */
  function JavaDiv(a: int, b: int): (q: int)
    requires b > 0
    ensures IsTruncatedQuotient(a, b, q)
  {
    if a >= 0 then a / b else -((-a) / b)
  }

  lemma MulStep(b: int, x: int, y: int)
    requires b > 0 && x < y
    ensures b * x + b <= b * y
  {
    var d := y - x - 1;
    assert b * y == b * x + b + b * d;
    assert 0 <= b * d;
  }

  /** The truncated quotient is unique, so `JavaDiv` is the only function
      meeting its contract. */
  lemma TruncatedQuotientUnique(a: int, b: int, q1: int, q2: int)
    requires b > 0
    requires IsTruncatedQuotient(a, b, q1) && IsTruncatedQuotient(a, b, q2)
    ensures q1 == q2
  {
    if q1 < q2 {
      MulStep(b, q1, q2);
    } else if q2 < q1 {
      MulStep(b, q2, q1);
    }
  }

  /** Java division by a positive divisor never reverses the order of its dividends. */
  lemma JavaDivMonotone(a1: int, a2: int, b: int)
    requires b > 0 && a1 <= a2
    ensures JavaDiv(a1, b) <= JavaDiv(a2, b)
  {
    var q1, q2 := JavaDiv(a1, b), JavaDiv(a2, b);
    if q2 < q1 {
      MulStep(b, q2, q1);
    }
  }

  /** Adding whole multiples of `b` moves the quotient by exactly that many, as
      long as the dividend keeps its sign. */
  lemma JavaDivShift(a: int, b: int, n: nat)
    requires b > 0
    requires (a >= 0) == (a + b * n >= 0)
    ensures JavaDiv(a + b * n, b) == JavaDiv(a, b) + n
  {
    var q := JavaDiv(a, b);
    assert b * (q + n) == b * q + b * n;
    TruncatedQuotientUnique(a + b * n, b, JavaDiv(a + b * n, b), q + n);
  }

  /** The instant `daysToRetain` days before `nowEpochSeconds`, in epoch seconds. */
  function InstantDaysBefore(nowEpochSeconds: int, daysToRetain: int): int
  {
    nowEpochSeconds - daysToRetain * SECONDS_PER_DAY
  }

  /** Rejects a negative day count; otherwise the hour (since the epoch,
      truncated toward zero) of the instant `daysToRetain` days before now. */
  function DaysToSeconds(daysToRetain: Int32, nowEpochSeconds: int): (r: Result<int>)
    ensures r.Failure? <==> daysToRetain < 0
    ensures r.Failure? ==> r.error == IllegalArgument(NEGATIVE_DAYS_MESSAGE)
    ensures r.Success? ==>
      IsTruncatedQuotient(InstantDaysBefore(nowEpochSeconds, daysToRetain), SECONDS_PER_HOUR, r.value)
  {
    if daysToRetain < 0 then Failure(IllegalArgument(NEGATIVE_DAYS_MESSAGE))
    else Success(JavaDiv(InstantDaysBefore(nowEpochSeconds, daysToRetain), SECONDS_PER_HOUR))
  }

  /** More days to retain never gives a later threshold. */
  lemma DaysToSecondsAntitone(d1: Int32, d2: Int32, nowEpochSeconds: int)
    requires 0 <= d1 <= d2
    ensures DaysToSeconds(d2, nowEpochSeconds).value <= DaysToSeconds(d1, nowEpochSeconds).value
  {
    assert d1 * SECONDS_PER_DAY <= d2 * SECONDS_PER_DAY;
    JavaDivMonotone(InstantDaysBefore(nowEpochSeconds, d2), InstantDaysBefore(nowEpochSeconds, d1), SECONDS_PER_HOUR);
  }

  /** Away from the epoch, one more day to retain moves the threshold back by
      exactly 24 hours. */
  lemma DaysToSecondsDayStep(d: Int32, nowEpochSeconds: int)
    requires 0 <= d < INT_MAX
    requires (InstantDaysBefore(nowEpochSeconds, d) >= 0) == (InstantDaysBefore(nowEpochSeconds, d + 1) >= 0)
    ensures DaysToSeconds(d, nowEpochSeconds).value == DaysToSeconds(d + 1, nowEpochSeconds).value + 24
  {
    var later := InstantDaysBefore(nowEpochSeconds, d + 1);
    assert InstantDaysBefore(nowEpochSeconds, d) == later + SECONDS_PER_HOUR * 24;
    JavaDivShift(later, SECONDS_PER_HOUR, 24);
  }

  /** `Integer.MAX_VALUE` days is accepted; from a 2020 clock it reaches before
      the epoch, where Java's truncation and Dafny's floor division differ by one. */
  lemma DaysToSecondsAtIntMax()
    ensures DaysToSeconds(INT_MAX, 1600000000) == Success(-51539163083)
    ensures InstantDaysBefore(1600000000, INT_MAX) / SECONDS_PER_HOUR == -51539163084
  {
  }
}
