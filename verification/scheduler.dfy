/**
 The scheduler's pause between cycles: what is left of the scrape interval
 after the cycle's own duration, never negative.
 */
module Scheduler {
  import opened Config

  /** `max(0.0, interval - elapsed)`: a cycle plus its pause spans the whole
      interval, and a cycle that overran the interval is followed by no pause
      (no catch-up, no overlap). */
  function SleepDuration(intervalSeconds: int, elapsedSeconds: real): (r: real)
    requires ValidScrapeInterval(intervalSeconds)
    ensures r >= 0.0
    ensures r == 0.0 <==> elapsedSeconds >= intervalSeconds as real
    ensures r > 0.0 ==> elapsedSeconds + r == intervalSeconds as real
    ensures elapsedSeconds >= 0.0 ==> r <= intervalSeconds as real
  {
    var remaining := intervalSeconds as real - elapsedSeconds;
    if remaining > 0.0 then remaining else 0.0
  }
}
