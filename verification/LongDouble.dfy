/** Rounding of the floating-point type a platform calls long double. */
module LongDouble {
  import opened Machine

  /** 53 significant bits where it is a double, 64 where it is the extended format. */
  datatype Format = Double | Extended
  {
    /** Significands of normalised values lie in `[Half(), 2 * Half())`. */
    function Half(): (half: nat)
      ensures 0 < half
    {
      if Double? then 0x10_0000_0000_0000 else 0x8000_0000_0000_0000
    }
  }

  /** The nearest integer; of two equally near ones, the even one. */
  function NearestEven(y: real): (n: int)
    ensures -0.5 <= n as real - y <= 0.5
    ensures n as real - y == 0.5 || n as real - y == -0.5 ==> n % 2 == 0
  {
    var n := y.Floor;
    var fraction := y - n as real;
    if fraction < 0.5 || (fraction == 0.5 && n % 2 == 0) then n else n + 1
  }

  /** Halves a value until its significand fits, rounds that, and doubles it back. */
  function Scale(y: real, half: nat): real
    requires 0.0 <= y && 0 < half
    decreases y.Floor
  {
    if y >= 2.0 * half as real then 2.0 * Scale(y / 2.0, half) else NearestEven(y) as real
  }

  function Up(y: real, k: nat): real {
    if k == 0 then y else 2.0 * Up(y, k - 1)
  }

  function Down(y: real, k: nat): real {
    if k == 0 then y else Down(y, k - 1) / 2.0
  }

  /** Round to nearest, ties to even; the scaling by 2^128 makes every value from 2^-65 on large enough. */
  function Round(f: Format, x: real): real
    requires 0.0 <= x
  {
    UpKeepsOrder(0.0, x, 128);
    UpZero(128);
    Down(Scale(Up(x, 128), f.Half()), 128)
  }

  lemma {:induction false} UpZero(k: nat)
    ensures Up(0.0, k) == 0.0
  {
    if k > 0 {
      UpZero(k - 1);
    }
  }

  lemma {:induction false} UpKeepsOrder(x: real, y: real, k: nat)
    requires x <= y
    ensures Up(x, k) <= Up(y, k)
  {
    if k > 0 {
      UpKeepsOrder(x, y, k - 1);
    }
  }

  lemma {:induction false} DownKeepsOrder(x: real, y: real, k: nat)
    requires x <= y
    ensures Down(x, k) <= Down(y, k)
  {
    if k > 0 {
      DownKeepsOrder(x, y, k - 1);
    }
  }

  lemma {:induction false} DownOfDouble(y: real, k: nat)
    ensures Down(2.0 * y, k) == 2.0 * Down(y, k)
  {
    if k > 0 {
      DownOfDouble(y, k - 1);
    }
  }

  lemma {:induction false} DownUndoesUp(y: real, k: nat)
    ensures Down(Up(y, k), k) == y
  {
    if k > 0 {
      DownUndoesUp(y, k - 1);
      DownOfDouble(Up(y, k - 1), k - 1);
    }
  }

  // ---------------------------------------------------------------------------
  // Order.

  lemma NearestKeepsOrder(x: real, y: real)
    requires x <= y
    ensures NearestEven(x) <= NearestEven(y)
  {
  }

  lemma NearestOfInteger(n: int)
    ensures NearestEven(n as real) == n
  {
  }

  lemma {:induction false} ScaleAtLeastHalf(y: real, half: nat)
    requires 0 < half && half as real <= y
    ensures half as real <= Scale(y, half)
    decreases y.Floor
  {
    if y >= 2.0 * half as real {
      ScaleAtLeastHalf(y / 2.0, half);
    } else {
      NearestKeepsOrder(half as real, y);
      NearestOfInteger(half);
    }
  }

  lemma {:induction false} ScaleKeepsOrder(x: real, y: real, half: nat)
    requires 0.0 <= x <= y && 0 < half
    ensures Scale(x, half) <= Scale(y, half)
    decreases y.Floor
  {
    if x >= 2.0 * half as real {
      ScaleKeepsOrder(x / 2.0, y / 2.0, half);
    } else if y >= 2.0 * half as real {
      ScaleAtLeastHalf(y / 2.0, half);
      NearestKeepsOrder(x, (2 * half) as real);
      NearestOfInteger(2 * half);
    } else {
      NearestKeepsOrder(x, y);
    }
  }

  /** Rounding never swaps two values. */
  lemma RoundKeepsOrder(f: Format, x: real, y: real)
    requires 0.0 <= x <= y
    ensures Round(f, x) <= Round(f, y)
  {
    UpZero(128);
    UpKeepsOrder(0.0, x, 128);
    UpKeepsOrder(x, y, 128);
    ScaleKeepsOrder(Up(x, 128), Up(y, 128), f.Half());
    DownKeepsOrder(Scale(Up(x, 128), f.Half()), Scale(Up(y, 128), f.Half()), 128);
  }

  // ---------------------------------------------------------------------------
  // Values.

  lemma {:induction false} UpGrows(y: real, k: nat)
    requires 0.0 <= y
    ensures y <= Up(y, k)
  {
    if k > 0 {
      UpGrows(y, k - 1);
    }
  }

  /** Scaling commutes with doubling once the significand is full. */
  lemma {:induction false} ScaleOfUp(y: real, k: nat, half: nat)
    requires 0 < half && half as real <= y
    ensures 0.0 <= Up(y, k) && Scale(Up(y, k), half) == Up(Scale(y, half), k)
  {
    UpGrows(y, k);
    if k > 0 {
      UpGrows(y, k - 1);
      ScaleOfUp(y, k - 1, half);
    }
  }

  /** A value with a full significand `y` rounds by rounding `y`. */
  lemma RoundIs(f: Format, x: real, y: real, k: nat)
    requires f.Half() as real <= y < 2.0 * f.Half() as real && x == Up(y, k)
    ensures 0.0 <= x && Round(f, x) == Up(NearestEven(y) as real, k)
  {
    UpGrows(y, k);
    ScaleOfUp(y, k, f.Half());
    ScaleOfUp(x, 128, f.Half());
    DownUndoesUp(Scale(x, f.Half()), 128);
  }

  lemma {:induction false} UpInteger(n: nat, k: nat) returns (m: nat)
    ensures Up(n as real, k) == m as real
  {
    if k == 0 {
      m := n;
    } else {
      var h := UpInteger(n, k - 1);
      m := 2 * h;
    }
  }

  lemma {:induction false} ScaleOfInteger(n: nat, k: nat, half: nat)
    requires 0 < half && n < 2 * half
    ensures 0.0 <= Up(n as real, k) && Scale(Up(n as real, k), half) == Up(n as real, k)
  {
    UpGrows(n as real, k);
    if Up(n as real, k) >= 2.0 * half as real {
      ScaleOfInteger(n, k - 1, half);
    } else {
      var m := UpInteger(n, k);
      NearestOfInteger(m);
    }
  }

  /** Integers whose bits fit the significand are exact. */
  lemma RoundOfInteger(f: Format, n: nat)
    requires n < 2 * f.Half()
    ensures Round(f, n as real) == n as real
  {
    ScaleOfInteger(n, 128, f.Half());
    DownUndoesUp(n as real, 128);
  }

  lemma RoundAtLeastOne(f: Format, x: real)
    requires 1.0 <= x
    ensures 1.0 <= Round(f, x)
  {
    RoundOfInteger(f, 1);
    RoundKeepsOrder(f, 1.0, x);
  }

  /** The largest word rounds to itself or to 2^64. */
  lemma RoundOfLargestWord(f: Format)
    ensures Round(f, U64_MAX as real) == (if f.Double? then U64_LIMIT else U64_MAX) as real
  {
    if f.Double? {
      var y := 9007199254740991.99951171875;
      UpEleven(y);
      UpEleven(9007199254740992.0);
      RoundIs(f, U64_MAX as real, y, 11);
    } else {
      RoundIs(f, U64_MAX as real, U64_MAX as real, 0);
      NearestOfInteger(U64_MAX);
    }
  }

  lemma UpEight(y: real)
    ensures Up(y, 7) == 128.0 * y && Up(y, 8) == 256.0 * y
  {
    assert Up(y, 1) == 2.0 * y;
    assert Up(y, 2) == 4.0 * y;
    assert Up(y, 3) == 8.0 * y;
    assert Up(y, 4) == 16.0 * y;
    assert Up(y, 5) == 32.0 * y;
    assert Up(y, 6) == 64.0 * y;
  }

  lemma UpEleven(y: real)
    ensures Up(y, 11) == 2048.0 * y && Up(y, 12) == 4096.0 * y
  {
    UpEight(y);
    assert Up(y, 9) == 512.0 * y;
    assert Up(y, 10) == 1024.0 * y;
  }

  // ---------------------------------------------------------------------------
  // What rounding means.

  lemma {:induction false} ScaledSignificand(y: real, half: nat) returns (m: nat, k: nat)
    requires 0.0 <= y && 0 < half
    ensures m <= 2 * half && Scale(y, half) == Up(m as real, k)
    decreases y.Floor
  {
    if y >= 2.0 * half as real {
      m, k := ScaledSignificand(y / 2.0, half);
      k := k + 1;
    } else {
      m, k := NearestEven(y), 0;
    }
  }

  /** The error `e` is at most one part in `n` of `y`. */
  ghost predicate Within(e: real, n: real, y: real) {
    -y <= e * n && e * n <= y
  }

  lemma WithinTwice(e: real, n: real, y: real)
    ensures Within(e, n, y) <==> Within(2.0 * e, n, 2.0 * y)
  {
    assert (2.0 * e) * n == 2.0 * (e * n);
  }

  lemma WithinHalf(e: real, half: nat, y: real)
    requires -0.5 <= e <= 0.5 && half as real <= y
    ensures Within(e, (2 * half) as real, y)
  {
    HalfOf(e, (2 * half) as real);
  }

  lemma HalfOf(e: real, n: real)
    requires -0.5 <= e <= 0.5 && 0.0 <= n
    ensures -(n / 2.0) <= e * n && e * n <= n / 2.0
  {
    NotNegative(0.5 - e, n);
    NotNegative(0.5 + e, n);
    assert (0.5 - e) * n == n / 2.0 - e * n;
    assert (0.5 + e) * n == n / 2.0 + e * n;
  }

  lemma NotNegative(x: real, y: real)
    requires 0.0 <= x && 0.0 <= y
    ensures 0.0 <= x * y
  {
  }

  /** The error is at most half a unit of the last place. */
  lemma {:induction false} ScaleError(y: real, half: nat)
    requires 0.0 <= y && 0 < half
    ensures half as real <= y ==> Within(Scale(y, half) - y, (2 * half) as real, y)
    decreases y.Floor
  {
    hide Within;
    if y >= 2.0 * half as real {
      ScaleError(y / 2.0, half);
      WithinTwice(Scale(y / 2.0, half) - y / 2.0, (2 * half) as real, y / 2.0);
      assert Scale(y, half) - y == 2.0 * (Scale(y / 2.0, half) - y / 2.0);
    } else if half as real <= y {
      WithinHalf(NearestEven(y) as real - y, half, y);
    }
  }

  lemma {:induction false} DownKeepsShare(a: real, b: real, y: real, n: real, k: nat)
    requires Within(a - b, n, y)
    ensures Within(Down(a, k) - Down(b, k), n, Down(y, k))
  {
    hide Within;
    if k > 0 {
      DownKeepsShare(a, b, y, n, k - 1);
      var e := Down(a, k) - Down(b, k);
      assert Down(a, k - 1) - Down(b, k - 1) == 2.0 * e;
      WithinTwice(e, n, Down(y, k));
    }
  }

  /**
    What is rounded to is a significand of 53 or 64 bits times a power of two, and differs from the value by at
    most one part in 2^53 or 2^64 of it.
   */
  lemma RoundError(f: Format, x: real) returns (significand: nat, up: nat)
    requires 1.0 <= x
    ensures significand <= (if f == Double then 0x20_0000_0000_0000 else 0x1_0000_0000_0000_0000)
    ensures Round(f, x) == Down(Up(significand as real, up), 128)
    ensures Within(Round(f, x) - x, (if f == Double then 0x20_0000_0000_0000 else 0x1_0000_0000_0000_0000) as real, x)
  {
    hide Scale, Within;
    UpKeepsOrder(1.0, x, 128);
    UpKeepsOrder(0.0, x, 128);
    UpZero(128);
    OneUp();
    significand, up := ScaledSignificand(Up(x, 128), f.Half());
    ScaleError(Up(x, 128), f.Half());
    DownUndoesUp(x, 128);
    var n := (2 * f.Half()) as real;
    DownKeepsShare(Scale(Up(x, 128), f.Half()), Up(x, 128), Up(x, 128), n, 128);
  }

  lemma {:induction false} UpSplits(y: real, j: nat, k: nat)
    ensures Up(Up(y, j), k) == Up(y, j + k)
  {
    if k > 0 {
      UpSplits(y, j, k - 1);
    }
  }

  lemma UpByBytes(y: real, j: nat)
    ensures Up(y, j + 8) == 256.0 * Up(y, j)
  {
    UpSplits(y, j, 8);
    UpEight(Up(y, j));
  }

  lemma OneUp()
    ensures 9223372036854775808.0 <= Up(1.0, 128)
  {
    UpByBytes(1.0, 0);
    UpByBytes(1.0, 8);
    UpByBytes(1.0, 16);
    UpByBytes(1.0, 24);
    UpByBytes(1.0, 32);
    UpByBytes(1.0, 40);
    UpByBytes(1.0, 48);
    UpByBytes(1.0, 56);
    UpSplits(1.0, 64, 64);
    UpGrows(Up(1.0, 64), 64);
  }
}
