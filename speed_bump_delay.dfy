/**
 * The spin delay (src/speed_bump_delay.c). The monotonic clock is a
 * sequence of readings: the i-th call of ktime_get_ns returns clock[i].
 */
module Delay {
  import opened SpeedBump

  /** A monotonic clock never goes backwards. */
  predicate Monotonic(clock: seq<u64>) {
    forall i, j :: 0 <= i <= j < |clock| ==> clock[i] <= clock[j]
  }

  /** The clock eventually gets `delayNs` past its first reading. */
  predicate Reaches(clock: seq<u64>, delayNs: u64) {
    exists j :: 1 <= j < |clock| && clock[j] - clock[0] >= delayNs
  }

  /** u64 subtraction, wrapping around as C does. */
  function Sub64(a: u64, b: u64): (r: u64)
    ensures b <= a ==> r == a - b
  {
    (a - b) % U64_MODULUS
  }

  /**
   * speed_bump_spin_delay_ns. `samples` is the number of clock readings it
   * takes and `relaxes` the number of cpu_relax calls. A zero delay reads
   * nothing; otherwise the do-while loop relaxes, samples and stops at the
   * first sample at least `delayNs` past the start sample.
   */
  method SpinDelayNs(delayNs: u64, clock: seq<u64>) returns (samples: nat, relaxes: nat)
    requires Monotonic(clock)
    requires delayNs != 0 ==> Reaches(clock, delayNs)
    ensures delayNs == 0 ==> samples == 0 && relaxes == 0
    ensures delayNs != 0 ==> 2 <= samples <= |clock| && relaxes == samples - 1
    ensures delayNs != 0 ==> clock[samples - 1] - clock[0] >= delayNs
    ensures delayNs != 0 ==> forall j :: 1 <= j < samples - 1 ==> clock[j] - clock[0] < delayNs
  {
    if delayNs == 0 {
      return 0, 0;
    }
    var startNs := clock[0];
    samples, relaxes := 1, 0;
    var elapsedNs := 0;
    while true
      invariant 1 <= samples < |clock| && relaxes == samples - 1
      invariant forall j :: 1 <= j < samples ==> clock[j] - startNs < delayNs
      invariant exists j :: samples <= j < |clock| && clock[j] - startNs >= delayNs
      decreases |clock| - samples
    {
      relaxes := relaxes + 1;
      elapsedNs := Sub64(clock[samples], startNs);
      samples := samples + 1;
      if elapsedNs >= delayNs {
        return;
      }
    }
  }
}
