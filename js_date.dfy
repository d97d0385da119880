/**
 * The parts of Date that the cookie writers use. The HTTP-date text of Date.prototype.toUTCString
 * is a parameter `utc` of the writers: only which time value is formatted is modelled here.
 */
module JsDate {
  import opened JsBase

  /** Milliseconds in a day: the factor 1000 * 60 * 60 * 24 of both writers. */
  const MsPerDay: int := 86_400_000

  /** The largest magnitude of a valid time value, in milliseconds from the epoch. */
  const MaxTimeValue: int := 8_640_000_000_000_000

  /** TimeClip: a time value beyond the range of Date is NaN, an invalid date. */
  function TimeClip(t: int): Option<int> {
    if -MaxTimeValue <= t <= MaxTimeValue then Some(t) else None
  }

  /** `new Date(t).toUTCString()`, where `utc` formats a valid time value as an HTTP-date. */
  function UtcText(t: int, utc: int -> string): string {
    match TimeClip(t)
    case Some(v) => utc(v)
    case None => "Invalid Date"
  }

  /** The time value `new Date(new Date().getTime() + days * 1000 * 60 * 60 * 24)` is built from. */
  function DaysFromNow(now: int, days: int): (t: int)
    ensures days > 0 ==> t > now
    ensures days < 0 ==> t < now
    ensures days == -1 ==> t == now - MsPerDay
  {
    now + days * MsPerDay
  }
}
