/** Time as the library computes it. The clock is an input: the epoch time
    in milliseconds and `getTimezoneOffset()` in minutes, read together. */
module Clock {

  datatype Clock = Clock(epochMs: int, tzOffsetMinutes: int)

  /** `convertToGMT0(date)`: the epoch time shifted by the timezone offset.
      The epoch time is already UTC, so the result is UTC only when the
      offset is 0; since every reading is shifted the same way, only
      differences between readings matter. */
  function ConvertToGMT0(c: Clock): (ms: int)
    ensures ms - c.epochMs == c.tzOffsetMinutes * 60000
    ensures c.tzOffsetMinutes == 0 ==> ms == c.epochMs
    ensures c.tzOffsetMinutes < 0 ==> ms < c.epochMs
  {
    c.epochMs + c.tzOffsetMinutes * 60 * 1000
  }

  /** Two readings taken under the same offset are as far apart as their
      epoch times, so deadlines and delays do not depend on the offset. */
  lemma ElapsedIgnoresOffset(a: int, b: int, tz: int)
    ensures ConvertToGMT0(Clock(a, tz)) - ConvertToGMT0(Clock(b, tz)) == a - b
  {
  }

  /** A change of offset between two readings (a daylight-saving switch)
      moves every later reading by the change, in milliseconds. */
  lemma OffsetChangeShifts(t: int, tz1: int, tz2: int)
    ensures ConvertToGMT0(Clock(t, tz2)) - ConvertToGMT0(Clock(t, tz1)) == (tz2 - tz1) * 60000
  {
  }

  /** The length of an expiry in milliseconds: `amount` is seconds unless
      the millisecond variant is used. */
  function DurationMs(amount: int, isMs: bool): int
  {
    if isMs then amount else amount * 1000
  }

  /** `expiredAt` in `addExpire`: the converted clock plus the duration. */
  function ExpiredAt(c: Clock, amount: int, isMs: bool): (at: int)
    ensures at - ConvertToGMT0(c) == DurationMs(amount, isMs)
    ensures amount > 0 ==> at > ConvertToGMT0(c)
  {
    ConvertToGMT0(c) + DurationMs(amount, isMs)
  }

  /** The lifetime, in milliseconds, that the TTL marker gets as written:
      `setex(marker, seconds, 1)` is passed the caller's amount, which the
      store reads as seconds, also in the millisecond variants. */
  function MarkerTtlAsWritten(amount: int, isMs: bool): (ms: int)
    ensures ms == DurationMs(amount, false)
  {
    amount * 1000
  }

  /** The lifetime the marker is evidently meant to get: the duration of the
      expiry itself (`psetex` in the millisecond variants). */
  function MarkerTtl(amount: int, isMs: bool): (ms: int)
    ensures !isMs ==> ms == MarkerTtlAsWritten(amount, isMs)
    ensures isMs ==> ms * 1000 == MarkerTtlAsWritten(amount, isMs)
  {
    DurationMs(amount, isMs)
  }

  /** The corrected marker lives exactly until the deadline in the bucket. */
  lemma MarkerTtlMatchesDeadline(c: Clock, amount: int, isMs: bool)
    ensures ConvertToGMT0(c) + MarkerTtl(amount, isMs) == ExpiredAt(c, amount, isMs)
  {
  }

  /** As written, a millisecond expiry gets a marker 1000 times too long:
      `hpexpire(k, f, 1)` expires the field after 1 ms, yet `hpttl` reports
      from a marker that lives 1000 ms. */
  lemma MarkerTtlAsWrittenOverstates(c: Clock, amount: int)
    requires amount > 0
    ensures MarkerTtlAsWritten(amount, true) == 1000 * (ExpiredAt(c, amount, true) - ConvertToGMT0(c))
    ensures ConvertToGMT0(c) + MarkerTtlAsWritten(amount, true) != ExpiredAt(c, amount, true)
  {
  }
}
