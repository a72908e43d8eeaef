/** The arithmetic of time_str (PI.h:47-52) on a whole number of seconds. */
module TimeFormat {

  /** Minutes and remaining seconds of a duration: minutes = n / 60 and
      seconds = n - 60 * minutes, so that the seconds stay below a minute and
      the two add back up to n. */
  function MinutesSeconds(n: nat): (ms: (nat, nat))
    ensures ms.1 < 60
    ensures 60 * ms.0 + ms.1 == n
  {
    var minutes := n / 60;
    (minutes, n - minutes * 60)
  }

  /** The split is the only one with seconds below 60. */
  lemma MinutesSecondsUnique(n: nat, minutes: nat, seconds: nat)
    requires seconds < 60 && 60 * minutes + seconds == n
    ensures MinutesSeconds(n) == (minutes, seconds)
  {
  }
}
