/** Certificates as the analyzer reads them, and instants on the time line. */
module Certificates {

  /** A java.time.Instant, counted in nanoseconds since the epoch. */
  type Instant = int

  const NanosPerSecond: int := 1_000_000_000
  const SecondsPerMinute: int := 60
  const SecondsPerHour: int := 3_600
  const SecondsPerDay: int := 86_400

  /** `Instant.plus(days, ChronoUnit.DAYS)`: a day is exactly 86 400 seconds. */
  function PlusDays(t: Instant, days: int): Instant
  {
    t + days * SecondsPerDay * NanosPerSecond
  }

  /**
   * An X509Certificate reduced to what the analyzer reads from it: the
   * subject distinguished name (as `getSubjectX500Principal().getName()`
   * renders it) and the end of the validity period (the notAfter field of
   * section 4.1.2.5 of RFC 5280).
   */
  datatype Certificate = Certificate(subject: string, notAfter: Instant)
}
