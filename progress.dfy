/**
 * The upload percentage shown while a request is in flight: the bytes sent
 * times 100 over the bytes in total, rounded to the nearest integer (halves
 * upward), with a missing total standing in as 1.
 */
module Progress {
  import opened Wrappers

  /** The divisor: the reported total, or 1 when the transfer reports none. */
  function Divisor(total: Option<nat>): (d: nat)
    ensures total.Some? ==> d == total.value
    ensures total.None? ==> d == 1
  {
    total.GetOr(1)
  }

  /**
   * `Math.round(loaded * 100 / (total ?? 1))` on exact values. A present
   * total of 0 is not replaced by 1, so it is excluded here.
   */
  function Percent(loaded: nat, total: Option<nat>): (p: nat)
    requires total.None? || total.value > 0
    ensures 2 * p * Divisor(total) <= 200 * loaded + Divisor(total) < 2 * (p + 1) * Divisor(total)
  {
    var d := Divisor(total);
    RoundedQuotient(200 * loaded + d, 2 * d)
  }

  /** The quotient of n by m, rounded down, with its defining bounds. */
  function RoundedQuotient(n: nat, m: nat): (q: nat)
    requires m > 0
    ensures q * m <= n < (q + 1) * m
  {
    var q := n / m;
    assert n == q * m + n % m;
    q
  }

  /** Any value that meets the rounding bounds is the percentage: they fix it. */
  lemma PercentUnique(loaded: nat, total: Option<nat>, p: nat)
    requires total.None? || total.value > 0
    requires 2 * p * Divisor(total) <= 200 * loaded + Divisor(total) < 2 * (p + 1) * Divisor(total)
    ensures Percent(loaded, total) == p
  {
    var d := Divisor(total);
    var q := Percent(loaded, total);
    MulMonotone(q + 1, p, 2 * d);
    MulMonotone(p + 1, q, 2 * d);
  }

  lemma MulMonotone(a: nat, b: nat, c: nat)
    ensures a <= b ==> a * c <= b * c
  {
  }

  /** 50 of 200 bytes sent reads 25. */
  lemma PercentQuarter()
    ensures Percent(50, Some(200)) == 25
  {
    PercentUnique(50, Some(200), 25);
  }

  /** With no reported total, 10 bytes sent read 1000: the default 1 is not clamped. */
  lemma PercentWithoutTotal()
    ensures Percent(10, None) == 1000
  {
    PercentUnique(10, None, 1000);
  }

  /** With no reported total, the percentage is 100 times the bytes sent. */
  lemma PercentWithoutTotalIsHundredfold(loaded: nat)
    ensures Percent(loaded, None) == 100 * loaded
  {
    PercentUnique(loaded, None, 100 * loaded);
  }

  /** Nothing sent reads 0, everything sent reads 100. */
  lemma PercentEnds(total: nat)
    requires total > 0
    ensures Percent(0, Some(total)) == 0
    ensures Percent(total, Some(total)) == 100
  {
    PercentUnique(0, Some(total), 0);
    PercentUnique(total, Some(total), 100);
  }

  /** While no more than the total has been sent, the percentage stays within 0..100. */
  lemma PercentAtMostHundred(loaded: nat, total: nat)
    requires 0 < total && loaded <= total
    ensures Percent(loaded, Some(total)) <= 100
  {
    var p := Percent(loaded, Some(total));
    MulMonotone(101, p, 2 * total);
  }

  /** Sending more never lowers the percentage. */
  lemma PercentMonotone(loaded: nat, loaded': nat, total: Option<nat>)
    requires total.None? || total.value > 0
    requires loaded <= loaded'
    ensures Percent(loaded, total) <= Percent(loaded', total)
  {
    var d := Divisor(total);
    var p, p' := Percent(loaded, total), Percent(loaded', total);
    MulMonotone(p' + 1, p, 2 * d);
  }
}
