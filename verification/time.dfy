/** Instants on the program's local timeline and whole-hour differences
    between them. A `LocalDateTime` is modelled as the number of nanoseconds
    since a fixed local epoch; a local timeline has no zone offsets, so a
    day is always 24 hours. */
module Time {

  /** A local date-time, in nanoseconds since a fixed epoch. */
  type Instant = int

  const NanosPerHour: int := 3_600_000_000_000
  const NanosPerDay: int := 86_400_000_000_000

  /** `k` hours, in nanoseconds. */
  function Hours(k: int): int
  {
    k * 3_600_000_000_000
  }

  /** `k` days, in nanoseconds. */
  function Days(k: int): int
  {
    k * 86_400_000_000_000
  }

  /** `isBefore`: strictly earlier on the timeline. */
  predicate IsBefore(a: Instant, b: Instant)
  {
    a < b
  }

  /** `isAfter`: strictly later on the timeline. */
  predicate IsAfter(a: Instant, b: Instant)
  {
    a > b
  }

  /** Whole hours from `arrival` to `departure`, truncated toward zero, as
      the hour unit's `between` computes them: positive when `departure`
      is later, negative when it is earlier. */
  function TimeOnGround(arrival: Instant, departure: Instant): (r: int)
    ensures departure >= arrival ==> r >= 0 && Hours(r) <= departure - arrival < Hours(r + 1)
    ensures departure < arrival ==> r <= 0 && Hours(r - 1) < departure - arrival <= Hours(r)
  {
    var d := departure - arrival;
    if d >= 0 then d / NanosPerHour else -((-d) / NanosPerHour)
  }

  /** The bounds stated by `TimeOnGround` pin its value down: it is `k`
      exactly when `departure - arrival` lies in `k`'s truncation interval. */
  lemma TimeOnGroundExact(arrival: Instant, departure: Instant, k: int)
    ensures TimeOnGround(arrival, departure) == k <==>
      if departure >= arrival then k >= 0 && Hours(k) <= departure - arrival < Hours(k + 1)
      else k <= 0 && Hours(k - 1) < departure - arrival <= Hours(k)
  {
  }

  /** A difference of exactly `k` whole hours yields `k`. */
  lemma TimeOnGroundWholeHours(arrival: Instant, k: int)
    ensures TimeOnGround(arrival, arrival + Hours(k)) == k
  {
    TimeOnGroundExact(arrival, arrival + Hours(k), k);
  }

  /** Between two whole-hour offsets from the same instant lies their
      difference in hours. */
  lemma TimeOnGroundBetweenOffsets(base: Instant, i: int, j: int)
    ensures TimeOnGround(base + Hours(i), base + Hours(j)) == j - i
  {
    TimeOnGroundExact(base + Hours(i), base + Hours(j), j - i);
  }

  /** No time on the ground gives zero hours. */
  lemma TimeOnGroundSame(t: Instant)
    ensures TimeOnGround(t, t) == 0
  {
    TimeOnGroundWholeHours(t, 0);
  }

  /** Swapping the two instants negates the result. */
  lemma TimeOnGroundAntisymmetric(a: Instant, b: Instant)
    ensures TimeOnGround(a, b) == -TimeOnGround(b, a)
  {
    var k := TimeOnGround(b, a);
    if a == b {
      TimeOnGroundSame(a);
    } else {
      TimeOnGroundExact(a, b, -k);
    }
  }

  /** The sign of the result: negative exactly when the departure is at
      least one hour before the arrival, positive exactly when it is at
      least one hour after it, and zero within an hour either way. */
  lemma TimeOnGroundSign(arrival: Instant, departure: Instant)
    ensures TimeOnGround(arrival, departure) < 0 <==> departure <= arrival - NanosPerHour
    ensures TimeOnGround(arrival, departure) > 0 <==> departure >= arrival + NanosPerHour
    ensures TimeOnGround(arrival, departure) == 0 <==>
      arrival - NanosPerHour < departure < arrival + NanosPerHour
  {
  }
}
