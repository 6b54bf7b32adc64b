/** Readings of the monotone clock. */
module Clock {
  /** `Instant::duration_since` and `Instant::elapsed`, which saturate at zero. */
  function Elapsed(now: nat, last: nat): nat { if now >= last then now - last else 0 }
}
