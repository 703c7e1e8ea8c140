/**
 * The timeout check of `verifySlackSignature` (api/translation.go:150-155). Time is
 * counted in nanoseconds since the Unix epoch; the clock reading `nowNs` is a
 * parameter. `time.Unix(ts, 0)` is the instant `ts * Second`, and `time.Since`
 * gives the elapsed `time.Duration` (an int64 of nanoseconds), saturated at the
 * int64 bounds as Go's `Time.Sub` does.
 */
module Freshness {
  import opened Int64

  const Second: int := 1_000_000_000
  const Minute: int := 60 * Second
  /** `5*time.Minute`, the largest accepted age, in either direction. */
  const MaxAge: int := 5 * Minute

  /** `time.Since(time.Unix(ts, 0))` read at `nowNs`. */
  function Since(nowNs: int, ts: int64): (d: int64)
    ensures MinInt64 <= nowNs - ts * Second <= MaxInt64 ==> d == nowNs - ts * Second
    ensures nowNs - ts * Second <= MinInt64 <==> d == MinInt64
    ensures nowNs - ts * Second >= MaxInt64 <==> d == MaxInt64
  {
    Saturate(nowNs - ts * Second)
  }

  /** The timeout test: the `abs64` of the elapsed Duration exceeds five minutes. */
  predicate TimedOut(nowNs: int, ts: int64): (r: bool)
    ensures r ==> Distance(nowNs, ts * Second) > MaxAge
  {
    Abs64(Since(nowNs, ts)) > MaxAge
  }

  /** Away from the saturated edge, the check is "more than five minutes apart". */
  lemma TimedOutIff(nowNs: int, ts: int64)
    requires MinInt64 < nowNs - ts * Second <= MaxInt64
    ensures TimedOut(nowNs, ts) <==> Distance(nowNs, ts * Second) > MaxAge
  {
  }

  /** A difference of exactly five minutes, either way, is not a timeout. */
  lemma ExactlyFiveMinutes(ts: int64)
    ensures !TimedOut(ts * Second + MaxAge, ts)
    ensures !TimedOut(ts * Second - MaxAge, ts)
  {
    TimedOutIff(ts * Second + MaxAge, ts);
    TimedOutIff(ts * Second - MaxAge, ts);
  }

  /** 299 seconds later (or earlier) passes, 301 seconds later (or earlier) times out. */
  lemma AroundTheBound(ts: int64)
    ensures !TimedOut(ts * Second + 299 * Second, ts) && TimedOut(ts * Second + 301 * Second, ts)
    ensures !TimedOut(ts * Second - 299 * Second, ts) && TimedOut(ts * Second - 301 * Second, ts)
  {
    TimedOutIff(ts * Second + 299 * Second, ts);
    TimedOutIff(ts * Second + 301 * Second, ts);
    TimedOutIff(ts * Second - 299 * Second, ts);
    TimedOutIff(ts * Second - 301 * Second, ts);
  }

  /** Swapping past for future gives the same decision, while the difference fits an int64. */
  lemma PastFutureSymmetric(ts: int64, d: int)
    requires -MaxInt64 <= d <= MaxInt64
    ensures TimedOut(ts * Second + d, ts) == TimedOut(ts * Second - d, ts)
  {
    TimedOutIff(ts * Second + d, ts);
    TimedOutIff(ts * Second - d, ts);
  }

  /**
   * As written: once the timestamp lies so far in the future that `time.Since`
   * saturates at MinInt64, `abs64` stays negative and the check never times out.
   */
  lemma FarFutureNeverTimesOut(nowNs: int, ts: int64)
    requires nowNs - ts * Second <= MinInt64
    ensures !TimedOut(nowNs, ts)
  {
  }

  /** The reference instant 1531420618 (12 July 2018) in nanoseconds. */
  const ReferenceNow: int := 1531420618 * Second

  /** A timestamp about 600 years ahead of the reference instant passes the check. */
  lemma FarFutureExample()
    ensures !TimedOut(ReferenceNow, 20_000_000_000)
    ensures Distance(ReferenceNow, 20_000_000_000 * Second) > MaxAge
  {
    FarFutureNeverTimesOut(ReferenceNow, 20_000_000_000);
  }

  /**
   * The evidently intended check: the elapsed time lies outside [-5 min, 5 min].
   * It times out exactly when the two instants are more than five minutes apart.
   */
  predicate TimedOutCorrected(nowNs: int, ts: int64): (r: bool)
    ensures r <==> Distance(nowNs, ts * Second) > MaxAge
  {
    var d := Since(nowNs, ts);
    d > MaxAge || d < -MaxAge
  }

  /** Which freshness test a decision applies: the source's, or the corrected one. */
  datatype FreshnessTest = AsWritten | Corrected

  predicate TimedOutUnder(test: FreshnessTest, nowNs: int, ts: int64)
  {
    match test
    case AsWritten => TimedOut(nowNs, ts)
    case Corrected => TimedOutCorrected(nowNs, ts)
  }

  /** The two checks differ only where `time.Since` reaches MinInt64. */
  lemma CorrectedAgrees(nowNs: int, ts: int64)
    requires Since(nowNs, ts) != MinInt64
    ensures TimedOutCorrected(nowNs, ts) == TimedOut(nowNs, ts)
  {
  }
}
