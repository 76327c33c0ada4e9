/** 64-bit signed arithmetic and the durations the cleaner compares. */
module Int64 {

  const MIN := -0x8000_0000_0000_0000
  const MAX := 0x7FFF_FFFF_FFFF_FFFF
  const MODULUS := 0x1_0000_0000_0000_0000

  /** One minute, in the nanoseconds that durations count. */
  const MINUTE := 60_000_000_000

  /** The largest minute count whose duration still fits. */
  const LAST_EXACT_MINUTES := 153_722_867

  predicate Fits(x: int) {
    MIN <= x <= MAX
  }

  /** Two's-complement wrap-around of an unbounded result. */
  function Wrap(x: int): (r: int)
    ensures Fits(r)
    ensures Fits(x) ==> r == x
  {
    (x - MIN) % MODULUS + MIN
  }

  /** Wrapping keeps the residue of a number, and with it decides its sign. */
  lemma WrapKeepsResidue(x: int)
    ensures (Wrap(x) - x) % 0x1_0000_0000_0000_0000 == 0
    ensures Wrap(x) > 0 <==> 0 < x % 0x1_0000_0000_0000_0000 < 0x8000_0000_0000_0000
  {
    var q, r := x / MODULUS, x % MODULUS;
    var up := if r < -MIN then 0 else 1;
    assert x - MIN == (q + up) * MODULUS + (r - MIN - up * MODULUS);
    assert (x - MIN) % MODULUS == r - MIN - up * MODULUS;
    assert Wrap(x) - x == -(q + up) * MODULUS;
  }

  /** A minute count as a duration: the product is taken in 64 bits. */
  function Ttl(minutes: int): (r: int)
    ensures Fits(r)
  {
    Wrap(minutes * MINUTE)
  }

  /** The time elapsed between two instants; it saturates instead of wrapping. */
  function Elapsed(now: int, sent: int): (r: int)
    ensures Fits(r)
  {
    if now - sent > MAX then MAX else if now - sent < MIN then MIN else now - sent
  }

  predicate Aged(now: int, sent: int, ttl: int) {
    Elapsed(now, sent) >= ttl
  }

  /** Saturation never changes the outcome of the age test. */
  lemma AgedIsTrueAge(now: int, sent: int, ttl: int)
    requires Fits(ttl) && 0 < ttl
    ensures Aged(now, sent, ttl) <==> now - sent >= ttl
  {}

  /** A stored minute count means that many minutes exactly up to the bound, and never past it. */
  lemma TtlExactIff(minutes: nat)
    ensures Ttl(minutes) == minutes * 60_000_000_000 <==> minutes <= 153_722_867
  {
    if minutes <= LAST_EXACT_MINUTES {
      assert Fits(minutes * MINUTE);
    } else {
      assert minutes * MINUTE > MAX;
    }
  }

  /**
   * Up to the bound the two positivity tests spread over the cleaner (on the minutes and on the
   * duration) agree; the very next count is positive in minutes and negative as a duration.
   */
  lemma PositivityTestsAgree(minutes: nat)
    ensures minutes <= 153_722_867 ==> (minutes > 0 <==> Ttl(minutes) > 0)
    ensures Ttl(153_722_868) < 0
  {
    TtlExactIff(minutes);
    var over := (LAST_EXACT_MINUTES + 1) * MINUTE;
    assert over - MIN == MODULUS + (over - MODULUS - MIN);
    assert (over - MIN) % MODULUS == over - MODULUS - MIN;
  }

  /** Far past the bound the product wraps round to a few microseconds, so a huge count deletes at once. */
  lemma HugeMinutesWrapToMicroseconds()
    ensures Ttl(3_749_353_613_647_811) == 2048
  {
    var product := 3_749_353_613_647_811 * MINUTE;
    var turns := (product - 2048) / MODULUS;
    assert product - MIN == turns * MODULUS + (2048 - MIN);
  }
}
