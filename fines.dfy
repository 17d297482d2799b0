/** The late-return fine: whole days elapsed since the issue date, a 14-day
    grace period, then a fixed amount per day. */
module Fines {
  import opened Records

  const FINE_PER_DAY := 5
  const GRACE_DAYS := 14
  const MICROS_PER_DAY := 86_400_000_000

  /** `(today - issue_date).days`: whole days, rounded down (toward minus
      infinity, as a pandas Timedelta counts its days). */
  function ElapsedDays(issued: Timestamp, today: Timestamp): (days: int)
    ensures days * MICROS_PER_DAY <= today - issued < (days + 1) * MICROS_PER_DAY
    ensures issued <= today ==> days >= 0
  {
    (today - issued) / MICROS_PER_DAY
  }

  /** `max(0, (days - 14) * FINE_PER_DAY)` */
  function Fine(days: int): (fine: nat)
    ensures fine == 0 <==> days <= GRACE_DAYS
    ensures days > GRACE_DAYS ==> fine == (days - GRACE_DAYS) * FINE_PER_DAY
  {
    var owed := (days - GRACE_DAYS) * FINE_PER_DAY;
    if owed > 0 then owed else 0
  }

  /** Past the grace period each further day adds FINE_PER_DAY. */
  lemma FineGrowsPerDay(days: int)
    requires days >= GRACE_DAYS
    ensures Fine(days + 1) == Fine(days) + FINE_PER_DAY
  {
  }

  /** A later return never costs less. */
  lemma FineMonotone(d1: int, d2: int)
    requires d1 <= d2
    ensures Fine(d1) <= Fine(d2)
  {
  }

  /** Fifteen days less one microsecond is still 14 whole days, hence no
      fine, and so are fifteen days less 0.3 seconds; 20 days cost 30 and 5
      days cost nothing. */
  lemma FineExamples(issued: Timestamp)
    ensures Fine(ElapsedDays(issued, issued + 15 * MICROS_PER_DAY - 1)) == 0
    ensures Fine(ElapsedDays(issued + 600_000, issued + 15 * MICROS_PER_DAY + 300_000)) == 0
    ensures Fine(ElapsedDays(issued, issued + 15 * MICROS_PER_DAY)) == FINE_PER_DAY
    ensures Fine(ElapsedDays(issued, issued + 20 * MICROS_PER_DAY)) == 30
    ensures Fine(ElapsedDays(issued, issued + 5 * MICROS_PER_DAY)) == 0
  {
  }
}
