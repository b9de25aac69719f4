/** One virtual timeline behind three time sources that a debugged program may compare. */
module SyntheticClocks {
  import opened Machine
  import opened AddressSpan
  import opened LongDouble

  const UNITS: nat := 10_000_000
  /** The most that can be scaled by ten million in 64 bits. */
  const UNITS_LIMIT: nat := 1_844_674_407_370
  /** The highest frequency at which the system time is exact. */
  const EXACT_FREQUENCY: nat := 1_844_674_591_838
  const WORD: nat := 0x1_0000_0000

  datatype Config = Config(qpcStart: u64, qpcFrequency: u64, qpcQuantum: u64, systemTimeStart: u64,
                           tscStart: u64, tscQuantum: u64, rdtscpAux: u32)

  datatype Rdtsc = Rdtsc(eax: u32, edx: u32, ecx: u32)

  ghost predicate Usable(c: Config) {
    c.qpcFrequency != 0 && c.qpcQuantum != 0 && c.tscQuantum != 0
  }

  function Quot(a: nat, f: nat): nat
    requires 0 < f
  {
    a / f
  }

  function Rest(a: nat, f: nat): nat
    requires 0 < f
  {
    a % f
  }

  // ---------------------------------------------------------------------------
  // What each source shows after so many elapsed ticks.

  ghost function QpcAt(c: Config, elapsed: nat): nat {
    Min(U64_MAX, c.qpcStart + elapsed)
  }

  /** Elapsed time in units of 100 ns, as a mathematical quotient. */
  ghost function ExactUnits(c: Config, elapsed: nat): nat
    requires Usable(c)
  {
    Quot(elapsed * UNITS, c.qpcFrequency)
  }

  /** The part of a second is scaled in 64 bits. */
  function ScaledRemainder(remainder: nat): nat {
    if remainder > UNITS_LIMIT then U64_MAX else remainder * UNITS
  }

  /** What the split computation gives. */
  ghost function UnitsAt(c: Config, elapsed: nat): nat
    requires Usable(c)
  {
    var f := c.qpcFrequency;
    Min(U64_MAX, Quot(elapsed, f) * UNITS + Quot(ScaledRemainder(Rest(elapsed, f)), f))
  }

  ghost function SystemTimeAt(c: Config, elapsed: nat): nat
    requires Usable(c)
  {
    Min(U64_MAX, c.systemTimeStart + UnitsAt(c, elapsed))
  }

  /** The product fits 64 bits. */
  predicate IntegerPath(c: Config, elapsed: nat) {
    elapsed * c.tscQuantum <= U64_MAX
  }

  /** Elapsed ticks times the quantum of the TSC, before the product is rounded. */
  function Product(c: Config, f: Format, elapsed: nat): (product: real)
    ensures 0.0 <= product
  {
    NoNegative(f, elapsed as real);
    NoNegative(f, c.tscQuantum as real);
    Times(Round(f, elapsed as real), Round(f, c.tscQuantum as real))
  }

  function Times(x: real, y: real): (product: real)
    requires 0.0 <= x && 0.0 <= y
    ensures product == x * y && 0.0 <= product
  {
    x * y
  }

  /** What floating point makes of the scaled elapsed time. */
  function Scaled(c: Config, f: Format, elapsed: nat): (scaled: real)
    requires 0 < c.qpcQuantum
    ensures 0.0 <= scaled
  {
    RoundAtLeastOne(f, c.qpcQuantum as real);
    NoNegative(f, Product(c, f, elapsed));
    NoNegative(f, Round(f, Product(c, f, elapsed)) / Round(f, c.qpcQuantum as real));
    Round(f, Round(f, Product(c, f, elapsed)) / Round(f, c.qpcQuantum as real))
  }

  lemma NoNegative(f: Format, x: real)
    requires 0.0 <= x
    ensures 0.0 <= Round(f, x)
  {
    RoundOfInteger(f, 0);
    RoundKeepsOrder(f, 0.0, x);
  }

  /** The floating-point value, cut to a word. */
  function Fallback(c: Config, f: Format, elapsed: nat): u64
    requires 0 < c.qpcQuantum
  {
    var scaled := Scaled(c, f, elapsed);
    RoundOfLargestWord(f);
    if scaled >= Round(f, U64_MAX as real) then U64_MAX else scaled.Floor
  }

  /** Exact while the product fits, and floating point beyond. */
  ghost function TscDelta(c: Config, f: Format, elapsed: nat): nat
    requires Usable(c)
  {
    if IntegerPath(c, elapsed) then Quot(elapsed * c.tscQuantum, c.qpcQuantum) else Fallback(c, f, elapsed)
  }

  ghost function TscAt(c: Config, f: Format, elapsed: nat): nat
    requires Usable(c)
  {
    Min(U64_MAX, c.tscStart + TscDelta(c, f, elapsed))
  }

  // ---------------------------------------------------------------------------
  // Arithmetic.

  lemma ProductOrder(p: nat, q: nat, f: nat)
    requires p <= q
    ensures p * f <= q * f
  {
  }

  lemma QuotBounds(a: nat, f: nat)
    requires 0 < f
    ensures Quot(a, f) * f <= a < Quot(a, f) * f + f
    ensures a == Quot(a, f) * f + Rest(a, f) && Rest(a, f) < f
  {
  }

  lemma OrderFromProducts(p: nat, q: nat, f: nat)
    requires 0 < f && p * f < q * f + f
    ensures p <= q
  {
    if q + 1 <= p {
      ProductOrder(q + 1, p, f);
      assert false;
    }
  }

  /** A quotient is settled by its bounds. */
  lemma QuotIs(a: nat, f: nat, q: nat)
    requires 0 < f && q * f <= a < q * f + f
    ensures Quot(a, f) == q
  {
    hide Quot;
    QuotBounds(a, f);
    OrderFromProducts(Quot(a, f), q, f);
    OrderFromProducts(q, Quot(a, f), f);
  }

  lemma QuotMonotone(a: nat, b: nat, f: nat)
    requires 0 < f && a <= b
    ensures Quot(a, f) <= Quot(b, f) <= b
  {
    hide Quot;
    QuotBounds(a, f);
    QuotBounds(b, f);
    OrderFromProducts(Quot(a, f), Quot(b, f), f);
    ProductOrder(1, f, Quot(b, f));
  }

  lemma QuotAdds(n: nat, b: nat, f: nat)
    requires 0 < f
    ensures Quot(n * f + b, f) == n + Quot(b, f)
  {
    hide Quot;
    QuotBounds(b, f);
    assert (n + Quot(b, f)) * f == n * f + Quot(b, f) * f;
    QuotIs(n * f + b, f, n + Quot(b, f));
  }

  lemma Swap(w: nat, f: nat, r: nat)
    ensures (w * f + r) * UNITS == (w * UNITS) * f + r * UNITS
  {
  }

  /** Splitting off whole seconds loses nothing as long as the rest is scaled without saturating. */
  lemma SplitIsExact(c: Config, elapsed: nat)
    requires Usable(c)
    ensures var f := c.qpcFrequency;
            && Quot(Rest(elapsed, f) * UNITS, f) < UNITS
            && ExactUnits(c, elapsed) == Quot(elapsed, f) * UNITS + Quot(Rest(elapsed, f) * UNITS, f)
  {
    hide Quot, Rest;
    var f := c.qpcFrequency;
    var w, r := Quot(elapsed, f), Rest(elapsed, f);
    QuotBounds(elapsed, f);
    Swap(w, f, r);
    QuotAdds(w * UNITS, r * UNITS, f);
    QuotBounds(r * UNITS, f);
    if Quot(r * UNITS, f) >= UNITS {
      ProductOrder(UNITS, Quot(r * UNITS, f), f);
      assert false;
    }
  }

  /** At any moment the clock may lag but never lead, and it is exact while the remainder's guard holds. */
  lemma UnitsAgainstExact(c: Config, elapsed: nat)
    requires Usable(c)
    ensures UnitsAt(c, elapsed) <= ExactUnits(c, elapsed)
    ensures Rest(elapsed, c.qpcFrequency) <= UNITS_LIMIT ==> UnitsAt(c, elapsed) == Min(U64_MAX, ExactUnits(c, elapsed))
  {
    hide Quot, Rest;
    SplitIsExact(c, elapsed);
    var f, r := c.qpcFrequency, Rest(elapsed, c.qpcFrequency);
    QuotBounds(elapsed, f);
    QuotMonotone(ScaledRemainder(r), r * UNITS, f);
  }

  /** Up to the limit even a saturated remainder gives the last unit of its second. */
  lemma ExactBelowLimit(c: Config, elapsed: nat)
    requires Usable(c) && c.qpcFrequency <= EXACT_FREQUENCY
    ensures UnitsAt(c, elapsed) == Min(U64_MAX, ExactUnits(c, elapsed))
  {
    hide Quot, Rest;
    SplitIsExact(c, elapsed);
    var f, r := c.qpcFrequency, Rest(elapsed, c.qpcFrequency);
    if r > UNITS_LIMIT {
      QuotMonotone(U64_MAX, r * UNITS, f);
      QuotBounds(U64_MAX, f);
      OrderFromProducts(UNITS - 1, Quot(U64_MAX, f), f);
    }
  }

  /** Above it the last tick of the first second is shown too early. */
  lemma LagsAboveLimit(c: Config)
    requires Usable(c) && EXACT_FREQUENCY < c.qpcFrequency
    ensures UnitsAt(c, c.qpcFrequency - 1) < ExactUnits(c, c.qpcFrequency - 1) == UNITS - 1
  {
    hide Quot, Rest;
    var f := c.qpcFrequency;
    QuotIs(f - 1, f, 0);
    QuotBounds(f - 1, f);
    QuotBounds(U64_MAX, f);
    OrderFromProducts(Quot(U64_MAX, f), UNITS - 2, f);
    QuotIs((f - 1) * UNITS, f, UNITS - 1);
  }

  /** The split computation is the exact quotient at every moment exactly up to this frequency. */
  lemma SystemTimeExactIff(c: Config)
    requires Usable(c)
    ensures (forall elapsed: nat :: elapsed <= U64_MAX ==> UnitsAt(c, elapsed) == Min(U64_MAX, ExactUnits(c, elapsed)))
            <==> c.qpcFrequency <= EXACT_FREQUENCY
  {
    hide UnitsAt, ExactUnits;
    if c.qpcFrequency <= EXACT_FREQUENCY {
      forall elapsed: nat | elapsed <= U64_MAX
        ensures UnitsAt(c, elapsed) == Min(U64_MAX, ExactUnits(c, elapsed))
      {
        ExactBelowLimit(c, elapsed);
      }
    } else {
      LagsAboveLimit(c);
    }
  }

  /** Far above it the clock lags by almost a second: one unit instead of ten million less one. */
  lemma SaturatedRemainderLags()
    ensures exists c: Config, elapsed: u64 :: Usable(c) && UnitsAt(c, elapsed) == 1 && ExactUnits(c, elapsed) == 9_999_999
  {
    hide Quot, Rest;
    var c := Config(0, U64_MAX, 1, 0, 0, 1, 0);
    var elapsed: u64 := U64_MAX - 1;
    QuotIs(elapsed * UNITS, U64_MAX, 9_999_999);
    QuotIs(U64_MAX, U64_MAX, 1);
    QuotIs(elapsed, U64_MAX, 0);
    QuotBounds(elapsed, U64_MAX);
    assert UnitsAt(c, elapsed) == 1;
  }

  // ---------------------------------------------------------------------------
  // No source runs backwards.

  lemma UnitsMonotone(c: Config, before: nat, after: nat)
    requires Usable(c) && before <= after
    ensures UnitsAt(c, before) <= UnitsAt(c, after)
  {
    hide Quot, Rest;
    var f := c.qpcFrequency;
    var r, s := Rest(before, f), Rest(after, f);
    QuotMonotone(before, after, f);
    SplitIsExact(c, before);
    QuotMonotone(ScaledRemainder(r), r * UNITS, f);
    if Quot(before, f) == Quot(after, f) {
      QuotBounds(before, f);
      QuotBounds(after, f);
      QuotMonotone(ScaledRemainder(r), ScaledRemainder(s), f);
    }
  }

  /** QPC and the system time follow the timeline, through saturation too; QPC moves until it saturates. */
  lemma SourcesMonotone(c: Config, before: nat, after: nat)
    requires Usable(c) && before <= after
    ensures QpcAt(c, before) <= QpcAt(c, after)
    ensures before < after ==> QpcAt(c, before) < QpcAt(c, after) || QpcAt(c, before) == U64_MAX
    ensures SystemTimeAt(c, before) <= SystemTimeAt(c, after)
  {
    hide UnitsAt;
    UnitsMonotone(c, before, after);
  }

  lemma RealProductOrder(x: real, y: real, z: real)
    requires x <= y && 0.0 <= z
    ensures x * z <= y * z
  {
  }

  lemma RealQuotientOrder(x: real, y: real, z: real)
    requires x <= y && 0.0 < z
    ensures x / z <= y / z
  {
  }

  /** The roundings, the product and the quotient keep the order of elapsed times. */
  lemma ScaledMonotone(c: Config, f: Format, before: nat, after: nat)
    requires before <= after && 0 < c.qpcQuantum
    ensures Scaled(c, f, before) <= Scaled(c, f, after)
  {
    hide Round;
    NoNegative(f, c.tscQuantum as real);
    RoundKeepsOrder(f, before as real, after as real);
    RealProductOrder(Round(f, before as real), Round(f, after as real), Round(f, c.tscQuantum as real));
    var x, y, z := Product(c, f, before), Product(c, f, after), Round(f, c.qpcQuantum as real);
    NoNegative(f, x);
    RoundKeepsOrder(f, x, y);
    RoundAtLeastOne(f, c.qpcQuantum as real);
    RealQuotientOrder(Round(f, x), Round(f, y), z);
    NoNegative(f, Round(f, x) / z);
    RoundKeepsOrder(f, Round(f, x) / z, Round(f, y) / z);
  }

  lemma FallbackMonotone(c: Config, f: Format, before: nat, after: nat)
    requires before <= after && 0 < c.qpcQuantum
    ensures Fallback(c, f, before) <= Fallback(c, f, after)
  {
    hide Round, Scaled;
    ScaledMonotone(c, f, before, after);
    RoundOfLargestWord(f);
  }

  /** The last moment whose product fits a word. */
  ghost function LastIntegerMoment(c: Config): nat
    requires Usable(c)
  {
    Quot(U64_MAX, c.tscQuantum)
  }

  lemma IntegerPathIs(c: Config, elapsed: nat)
    requires Usable(c)
    ensures IntegerPath(c, elapsed) <==> elapsed <= LastIntegerMoment(c)
  {
    hide Quot;
    var last := LastIntegerMoment(c);
    QuotBounds(U64_MAX, c.tscQuantum);
    if elapsed <= last {
      ProductOrder(elapsed, last, c.tscQuantum);
    } else {
      ProductOrder(last + 1, elapsed, c.tscQuantum);
    }
  }

  /** On either side of that moment the TSC follows the timeline. */
  lemma TscMonotoneOnSide(c: Config, f: Format, before: nat, after: nat)
    requires Usable(c) && before <= after && (IntegerPath(c, after) || !IntegerPath(c, before))
    ensures TscAt(c, f, before) <= TscAt(c, f, after)
  {
    hide Quot, Fallback;
    ProductOrder(before, after, c.tscQuantum);
    if IntegerPath(c, after) {
      QuotMonotone(before * c.tscQuantum, after * c.tscQuantum, c.qpcQuantum);
    } else {
      FallbackMonotone(c, f, before, after);
    }
  }

  /** One comparison of two values: the step from the last exact moment to the first rounded one is no step back. */
  ghost predicate StepsForward(c: Config, f: Format)
    requires Usable(c)
  {
    var last := LastIntegerMoment(c);
    last < U64_MAX ==> TscAt(c, f, last) <= TscAt(c, f, last + 1)
  }

  lemma TscMonotone(c: Config, f: Format, before: nat, after: nat)
    requires Usable(c) && before <= after <= U64_MAX && StepsForward(c, f)
    ensures TscAt(c, f, before) <= TscAt(c, f, after)
  {
    hide TscAt, IntegerPath, LastIntegerMoment;
    var last := LastIntegerMoment(c);
    IntegerPathIs(c, before);
    IntegerPathIs(c, after);
    if before <= last < after {
      IntegerPathIs(c, last);
      IntegerPathIs(c, last + 1);
      TscMonotoneOnSide(c, f, before, last);
      TscMonotoneOnSide(c, f, last + 1, after);
    } else {
      TscMonotoneOnSide(c, f, before, after);
    }
  }

  /** The TSC never runs backwards exactly when that one step does not. */
  lemma TscInOrderIff(c: Config, f: Format)
    requires Usable(c)
    ensures (forall before: nat, after: nat :: before <= after <= U64_MAX ==> TscAt(c, f, before) <= TscAt(c, f, after))
            <==> StepsForward(c, f)
  {
    hide TscAt;
    if StepsForward(c, f) {
      forall before: nat, after: nat | before <= after <= U64_MAX
        ensures TscAt(c, f, before) <= TscAt(c, f, after)
      {
        TscMonotone(c, f, before, after);
      }
    }
  }

  // ---------------------------------------------------------------------------
  // The clock.

  /** The product test by division is the product test. */
  lemma QuotientGuard(quantum: nat, elapsed: nat)
    requires 0 < elapsed
    ensures quantum <= Quot(U64_MAX, elapsed) <==> elapsed * quantum <= U64_MAX
  {
    hide Quot;
    QuotBounds(U64_MAX, elapsed);
    var q := Quot(U64_MAX, elapsed);
    if quantum <= q {
      ProductOrder(quantum, q, elapsed);
    } else {
      ProductOrder(q + 1, quantum, elapsed);
    }
  }

  /** Elapsed time in units, before the configured start is added: at most the exact quotient, and that up to the limit. */
  lemma SystemTimeIs(c: Config, elapsed: u64)
    requires Usable(c)
    ensures SystemTimeAt(c, elapsed) <= Min(0xFFFF_FFFF_FFFF_FFFF, c.systemTimeStart + elapsed * 10_000_000 / c.qpcFrequency)
    ensures SystemTimeAt(c, elapsed) >= Min(0xFFFF_FFFF_FFFF_FFFF, c.systemTimeStart + elapsed / c.qpcFrequency * 10_000_000)
    ensures c.qpcFrequency <= 1_844_674_591_838 ==>
              SystemTimeAt(c, elapsed) == Min(0xFFFF_FFFF_FFFF_FFFF, c.systemTimeStart + elapsed * 10_000_000 / c.qpcFrequency)
  {
    hide UnitsAt;
    UnitsAgainstExact(c, elapsed);
    WholeSeconds(c, elapsed);
    if c.qpcFrequency <= 1_844_674_591_838 {
      ExactBelowLimit(c, elapsed);
    }
  }

  lemma WholeSeconds(c: Config, elapsed: nat)
    requires Usable(c)
    ensures Min(U64_MAX, elapsed / c.qpcFrequency * 10_000_000) <= UnitsAt(c, elapsed)
  {
    var f := c.qpcFrequency;
    assert Quot(elapsed, f) == elapsed / f;
    hide Quot, Rest;
    QuotBounds(elapsed, f);
    QuotBounds(ScaledRemainder(Rest(elapsed, f)), f);
  }

  /**
    The floating-point quotient, each of its operands and each result rounded to the format; cut to a word when
    it reaches the rounded largest word.
   */
  ghost function Rounded(f: Format, elapsed: u64, tscQuantum: u64, qpcQuantum: u64): (units: nat)
    requires 0 < qpcQuantum
    ensures units <= 0xFFFF_FFFF_FFFF_FFFF
  {
    NoNegative(f, elapsed as real);
    NoNegative(f, tscQuantum as real);
    var product := Times(Round(f, elapsed as real), Round(f, tscQuantum as real));
    NoNegative(f, product);
    RoundAtLeastOne(f, qpcQuantum as real);
    var quotient := Round(f, product) / Round(f, qpcQuantum as real);
    NoNegative(f, quotient);
    RoundOfLargestWord(f);
    if Round(f, quotient) >= Round(f, 0xFFFF_FFFF_FFFF_FFFF as real) then 0xFFFF_FFFF_FFFF_FFFF else Round(f, quotient).Floor
  }

  lemma TscIs(c: Config, f: Format, elapsed: u64)
    requires Usable(c)
    ensures elapsed * c.tscQuantum <= 0xFFFF_FFFF_FFFF_FFFF ==>
              TscAt(c, f, elapsed) == Min(0xFFFF_FFFF_FFFF_FFFF, c.tscStart + elapsed * c.tscQuantum / c.qpcQuantum)
    ensures 0xFFFF_FFFF_FFFF_FFFF < elapsed * c.tscQuantum ==>
              TscAt(c, f, elapsed) == Min(0xFFFF_FFFF_FFFF_FFFF, c.tscStart + Rounded(f, elapsed, c.tscQuantum, c.qpcQuantum))
  {
    hide Round;
    if 0xFFFF_FFFF_FFFF_FFFF < elapsed * c.tscQuantum {
      RoundedIs(c, f, elapsed);
    }
  }

  lemma RoundedIs(c: Config, f: Format, elapsed: u64)
    requires Usable(c)
    ensures Rounded(f, elapsed, c.tscQuantum, c.qpcQuantum) == Fallback(c, f, elapsed)
  {
    hide Round;
    NoNegative(f, elapsed as real);
    NoNegative(f, c.tscQuantum as real);
    assert Product(c, f, elapsed) == Times(Round(f, elapsed as real), Round(f, c.tscQuantum as real));
  }

  class SyntheticClock {
    const longDouble: Format
    var config: Config
    var elapsed: u64

    ghost predicate Valid()
      reads this
    {
      Usable(config)
    }

    constructor (c: Config, longDouble: Format)
      ensures Valid() && elapsed == 0 && this.longDouble == longDouble
      ensures Usable(c) ==> config == c
      ensures config == c.(qpcFrequency := config.qpcFrequency, qpcQuantum := config.qpcQuantum, tscQuantum := config.tscQuantum)
      ensures c.qpcFrequency == 0 ==> config.qpcFrequency == 10_000_000
      ensures c.qpcFrequency != 0 ==> config.qpcFrequency == c.qpcFrequency
      ensures config.qpcQuantum == Max(1, c.qpcQuantum) && config.tscQuantum == Max(1, c.tscQuantum)
    {
      this.longDouble := longDouble;
      config := c.(qpcFrequency := if c.qpcFrequency == 0 then 10_000_000 else c.qpcFrequency,
                   qpcQuantum := if c.qpcQuantum == 0 then 1 else c.qpcQuantum,
                   tscQuantum := if c.tscQuantum == 0 then 1 else c.tscQuantum);
      elapsed := 0;
    }

    method AdvanceRunningQpcTicks(ticks: u64)
      requires Valid()
      modifies this`elapsed
      ensures Valid() && elapsed == Min(U64_MAX, old(elapsed) + ticks)
    {
      elapsed := SaturatingAdd(elapsed, ticks);
    }

    /** Every query costs one quantum. */
    method AdvanceQueryQuantum()
      requires Valid()
      modifies this`elapsed
      ensures Valid() && elapsed == Min(U64_MAX, old(elapsed) + config.qpcQuantum)
      ensures old(elapsed) < elapsed || old(elapsed) == U64_MAX
    {
      elapsed := SaturatingAdd(elapsed, config.qpcQuantum);
    }

    method NextQpc() returns (value: u64)
      requires Valid()
      modifies this`elapsed
      ensures Valid() && elapsed == Min(U64_MAX, old(elapsed) + config.qpcQuantum)
      ensures value == QpcAt(config, old(elapsed))
      ensures value == Min(0xFFFF_FFFF_FFFF_FFFF, config.qpcStart + old(elapsed))
    {
      value := SaturatingAdd(config.qpcStart, elapsed);
      AdvanceQueryQuantum();
    }

    method NextSystemTime() returns (value: u64)
      requires Valid()
      modifies this`elapsed
      ensures Valid() && elapsed == Min(U64_MAX, old(elapsed) + config.qpcQuantum)
      ensures value == SystemTimeAt(config, old(elapsed))
      ensures value <= Min(0xFFFF_FFFF_FFFF_FFFF, config.systemTimeStart + old(elapsed) * 10_000_000 / config.qpcFrequency)
      ensures value >= Min(0xFFFF_FFFF_FFFF_FFFF, config.systemTimeStart + old(elapsed) / config.qpcFrequency * 10_000_000)
      ensures config.qpcFrequency <= 1_844_674_591_838 ==>
                value == Min(0xFFFF_FFFF_FFFF_FFFF, config.systemTimeStart + old(elapsed) * 10_000_000 / config.qpcFrequency)
    {
      hide Quot, Rest;
      SystemTimeIs(config, elapsed);
      var f := config.qpcFrequency;
      var whole, remainder := Quot(elapsed, f), Rest(elapsed, f);
      QuotMonotone(elapsed, elapsed, f);
      QuotBounds(elapsed, f);
      var wholePart := if whole > UNITS_LIMIT then U64_MAX else whole * UNITS;
      var scaled := ScaledRemainder(remainder);
      QuotMonotone(scaled, scaled, f);
      var delta := SaturatingAdd(wholePart, Quot(scaled, f));
      value := SaturatingAdd(config.systemTimeStart, delta);
      AdvanceQueryQuantum();
    }

    /** The integer path while the product fits a word, floating point beyond. */
    method NextTsc(rdtscp: bool) returns (out: Rdtsc)
      requires Valid()
      modifies this`elapsed
      ensures Valid() && elapsed == Min(U64_MAX, old(elapsed) + config.qpcQuantum)
      ensures out.edx * WORD + out.eax == TscAt(config, longDouble, old(elapsed))
      ensures old(elapsed) * config.tscQuantum <= 0xFFFF_FFFF_FFFF_FFFF ==>
                out.edx * 0x1_0000_0000 + out.eax ==
                Min(0xFFFF_FFFF_FFFF_FFFF, config.tscStart + old(elapsed) * config.tscQuantum / config.qpcQuantum)
      ensures 0xFFFF_FFFF_FFFF_FFFF < old(elapsed) * config.tscQuantum ==>
                out.edx * 0x1_0000_0000 + out.eax ==
                Min(0xFFFF_FFFF_FFFF_FFFF, config.tscStart + Rounded(longDouble, old(elapsed), config.tscQuantum, config.qpcQuantum))
      ensures out.ecx == if rdtscp then config.rdtscpAux else 0
    {
      hide Quot, Rest, Scaled, Round, Rounded;
      TscIs(config, longDouble, elapsed);
      var delta: u64 := 0;
      QuotIs(0, config.qpcQuantum, 0);
      if elapsed != 0 {
        QuotientGuard(config.tscQuantum, elapsed);
        if config.tscQuantum <= Quot(U64_MAX, elapsed) {
          QuotMonotone(elapsed * config.tscQuantum, elapsed * config.tscQuantum, config.qpcQuantum);
          delta := Quot(elapsed * config.tscQuantum, config.qpcQuantum);
        } else {
          var scaled := Scaled(config, longDouble, elapsed);
          RoundOfLargestWord(longDouble);
          delta := if scaled >= Round(longDouble, U64_MAX as real) then U64_MAX else scaled.Floor;
        }
      }
      var value := SaturatingAdd(config.tscStart, delta);
      AdvanceQueryQuantum();
      WordsOf(value);
      out := Rdtsc(value % WORD, value / WORD, if rdtscp then config.rdtscpAux else 0);
    }
  }

  lemma WordsOf(value: u64)
    ensures (value / WORD) * WORD + value % WORD == value && value / WORD < WORD
  {
  }

  // ---------------------------------------------------------------------------
  // Any interleaving.

  datatype Source = Qpc | SystemTime | Tsc

  datatype Query = Advance(ticks: u64) | Ask(source: Source)

  /** A value, the source that showed it and the elapsed time at which it did. */
  datatype Sample = Sample(source: Source, moment: nat, value: nat)

  ghost function SourceAt(c: Config, f: Format, source: Source, elapsed: nat): nat
    requires Usable(c)
  {
    match source
    case Qpc => QpcAt(c, elapsed)
    case SystemTime => SystemTimeAt(c, elapsed)
    case Tsc => TscAt(c, f, elapsed)
  }

  /** The shared timeline: running time is added, and every query costs one quantum. */
  function ElapsedAfter(c: Config, queries: seq<Query>): (elapsed: nat)
    ensures elapsed <= U64_MAX
  {
    if queries == [] then 0
    else
      var last := queries[|queries| - 1];
      Min(U64_MAX, ElapsedAfter(c, queries[..|queries| - 1]) + (if last.Advance? then last.ticks else c.qpcQuantum))
  }

  /** Each query's answer: its source at the elapsed time of the queries before it. */
  ghost function SamplesOf(c: Config, f: Format, queries: seq<Query>): seq<Sample>
    requires Usable(c)
  {
    if queries == [] then []
    else
      var before, last := queries[..|queries| - 1], queries[|queries| - 1];
      SamplesOf(c, f, before) +
      if last.Advance? then []
      else [Sample(last.source, ElapsedAfter(c, before), SourceAt(c, f, last.source, ElapsedAfter(c, before)))]
  }

  /** The clock answers every query with its source at that moment. */
  method RunQueries(c: Config, f: Format, queries: seq<Query>) returns (samples: seq<Sample>)
    requires Usable(c)
    ensures samples == SamplesOf(c, f, queries)
  {
    hide QpcAt, SystemTimeAt, TscAt;
    var clock := new SyntheticClock(c, f);
    samples := [];
    for i := 0 to |queries|
      invariant clock.Valid() && clock.config == c && clock.longDouble == f && fresh(clock)
      invariant clock.elapsed == ElapsedAfter(c, queries[..i]) && samples == SamplesOf(c, f, queries[..i])
    {
      assert queries[..i + 1][..i] == queries[..i];
      var moment := clock.elapsed;
      match queries[i] {
        case Advance(ticks) =>
          clock.AdvanceRunningQpcTicks(ticks);
        case Ask(source) =>
          var value := Answer(clock, source);
          samples := samples + [Sample(source, moment, value)];
      }
    }
    assert queries[..|queries|] == queries;
  }

  method Answer(clock: SyntheticClock, source: Source) returns (value: nat)
    requires clock.Valid()
    modifies clock`elapsed
    ensures clock.Valid() && clock.elapsed == Min(U64_MAX, old(clock.elapsed) + clock.config.qpcQuantum)
    ensures value == SourceAt(clock.config, clock.longDouble, source, old(clock.elapsed))
  {
    hide QpcAt, SystemTimeAt, TscAt;
    match source
    case Qpc => value := clock.NextQpc();
    case SystemTime => value := clock.NextSystemTime();
    case Tsc =>
      var words := clock.NextTsc(false);
      value := words.edx * WORD + words.eax;
  }

  /** Samples show their sources, at ascending moments, each behind the ones before until time is saturated. */
  ghost predicate OnTimeline(c: Config, f: Format, samples: seq<Sample>, now: nat)
    requires Usable(c)
  {
    && (forall i :: 0 <= i < |samples| ==> samples[i].value == SourceAt(c, f, samples[i].source, samples[i].moment))
    && (forall i :: 0 <= i < |samples| ==> samples[i].moment < now || samples[i].moment == now == U64_MAX)
    && (forall i, j :: 0 <= i < j < |samples| ==>
          samples[i].moment < samples[j].moment || samples[i].moment == samples[j].moment == U64_MAX)
  }

  lemma OneMoreSample(c: Config, f: Format, samples: seq<Sample>, s: Sample, now: nat, later: nat)
    requires Usable(c) && OnTimeline(c, f, samples, now)
    requires s.moment == now && s.value == SourceAt(c, f, s.source, now) && now <= later <= U64_MAX
    requires now < later || later == U64_MAX
    ensures OnTimeline(c, f, samples + [s], later)
  {
    hide SourceAt;
  }

  lemma TimePasses(c: Config, f: Format, samples: seq<Sample>, now: nat, later: nat)
    requires Usable(c) && OnTimeline(c, f, samples, now) && now <= later <= U64_MAX
    ensures OnTimeline(c, f, samples, later)
  {
    hide SourceAt;
  }

  lemma {:induction false} MomentsAscend(c: Config, f: Format, queries: seq<Query>)
    requires Usable(c)
    ensures OnTimeline(c, f, SamplesOf(c, f, queries), ElapsedAfter(c, queries))
  {
    hide SourceAt;
    if queries != [] {
      var before, last := queries[..|queries| - 1], queries[|queries| - 1];
      var samples, now, later := SamplesOf(c, f, before), ElapsedAfter(c, before), ElapsedAfter(c, queries);
      MomentsAscend(c, f, before);
      if last.Advance? {
        TimePasses(c, f, samples, now, later);
        assert samples + [] == samples;
      } else {
        OneMoreSample(c, f, samples, Sample(last.source, now, SourceAt(c, f, last.source, now)), now, later);
      }
    }
  }

  /**
    In every run QPC and the system time never run backwards, and QPC moves until it is saturated. The TSC
    never runs backwards on either side of the last moment that is computed exactly, and nowhere at all when
    the step across that moment goes forward.
   */
  lemma RunInOrder(c: Config, f: Format, queries: seq<Query>, i: nat, j: nat)
    requires Usable(c) && i < j < |SamplesOf(c, f, queries)|
    requires SamplesOf(c, f, queries)[i].source == SamplesOf(c, f, queries)[j].source
    ensures var s, t := SamplesOf(c, f, queries)[i], SamplesOf(c, f, queries)[j];
            && (s.source != Tsc || IntegerPath(c, t.moment) || !IntegerPath(c, s.moment) || StepsForward(c, f) ==>
                  s.value <= t.value)
            && (s.source == Qpc ==> s.value < t.value || s.value == U64_MAX)
  {
    hide SamplesOf, ElapsedAfter, SystemTimeAt, TscAt, IntegerPath, StepsForward;
    MomentsAscend(c, f, queries);
    var s, t := SamplesOf(c, f, queries)[i], SamplesOf(c, f, queries)[j];
    SourcesMonotone(c, s.moment, t.moment);
    if IntegerPath(c, t.moment) || !IntegerPath(c, s.moment) {
      TscMonotoneOnSide(c, f, s.moment, t.moment);
    } else if StepsForward(c, f) {
      TscMonotone(c, f, s.moment, t.moment);
    }
  }

  // ---------------------------------------------------------------------------
  // Two configurations on a platform whose long double is a double.

  const SHIPPED := Config(10_000_000, 10_000_000, 1_000, 132_000_000_000_000_000, 3_000_000_000, 300_000, 0)
  const ODD := Config(0, 10_000_000, 23, 0, 0, 10, 0)

  /** The shipped clock steps forward at the end of its integer path, so its TSC never runs backwards. */
  lemma ShippedStepsForward()
    ensures StepsForward(SHIPPED, Double)
  {
    hide Round;
    var e := 61489146912365;
    QuotIs(U64_MAX, SHIPPED.tscQuantum, e);
    QuotIs(e * SHIPPED.tscQuantum, SHIPPED.qpcQuantum, 18446744073709500);
    RoundOfInteger(Double, e + 1);
    RoundOfInteger(Double, SHIPPED.tscQuantum);
    RoundOfInteger(Double, SHIPPED.qpcQuantum);
    var y := 4503599627370556.640625;
    UpEleven(y);
    UpEleven(4503599627370557.0);
    RoundIs(Double, 18446744073709800000.0, y, 12);
    UpTwo(4611686018427450.368);
    UpTwo(4611686018427450.0);
    RoundIs(Double, 18446744073709801.472, 4611686018427450.368, 2);
    RoundOfLargestWord(Double);
    assert Product(SHIPPED, Double, e + 1) == 18446744073709800000.0;
    assert Scaled(SHIPPED, Double, e + 1) == 18446744073709800.0;
  }

  lemma UpTwo(y: real)
    ensures Up(y, 2) == 4.0 * y
  {
    assert Up(y, 1) == 2.0 * y;
  }

  /** A run on which the TSC does go backwards: the last exact value, then a rounded one. */
  lemma OddRunsBackwards()
    ensures var samples := SamplesOf(ODD, Double, [Advance(1844674407370955161), Ask(Tsc), Ask(Tsc)]);
            |samples| == 2 && samples[0].value == 802032351030850070 && samples[1].value == 802032351030850048
  {
    hide Round;
    var e := 1844674407370955161;
    var queries := [Advance(e), Ask(Tsc), Ask(Tsc)];
    assert queries[..2] == [Advance(e), Ask(Tsc)] && queries[..2][..1] == [Advance(e)] && [Advance(e)][..0] == [];
    assert ElapsedAfter(ODD, []) == 0;
    assert ElapsedAfter(ODD, [Advance(e)]) == e;
    assert [Advance(e), Ask(Tsc)][..1] == [Advance(e)];
    assert ElapsedAfter(ODD, [Advance(e), Ask(Tsc)]) == e + 23;
    assert SamplesOf(ODD, Double, [Advance(e)]) == [];
    assert SamplesOf(ODD, Double, queries[..2]) == [Sample(Tsc, e, TscAt(ODD, Double, e))];
    assert SamplesOf(ODD, Double, queries) ==
           SamplesOf(ODD, Double, queries[..2]) + [Sample(Tsc, e + 23, TscAt(ODD, Double, e + 23))];
    QuotIs(e * 10, 23, 802032351030850070);
    OddRounds(e + 23);
  }

  lemma OddRounds(e: nat)
    requires e == 1844674407370955184
    ensures TscAt(ODD, Double, e) == 802032351030850048
  {
    hide Round;
    UpEight(7205759403792793.6875);
    UpEight(7205759403792794.0);
    RoundIs(Double, e as real, 7205759403792793.6875, 8);
    RoundOfInteger(Double, 10);
    RoundOfInteger(Double, 23);
    UpEleven(4503599627370496.25);
    UpEleven(4503599627370496.0);
    RoundIs(Double, 18446744073709552640.0, 4503599627370496.25, 12);
    var y := 18446744073709551616.0 / 23.0;
    UpEight(y / 128.0);
    UpEight(6265877742428516.0);
    RoundIs(Double, y, y / 128.0, 7);
    RoundOfLargestWord(Double);
    assert Product(ODD, Double, e) == 18446744073709552640.0;
    assert Scaled(ODD, Double, e) == 802032351030850048.0;
  }
}
