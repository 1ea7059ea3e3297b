/**
 The exponential backoff table. Durations are integers, the multiplier and the
 products are exact reals.
 */
module Backoff {
  import opened Prelude

  const INFINITE := -1

  datatype Config = Config(initial: int, max: int, multiplier: real, maxRetries: int)

  predicate Valid(c: Config) {
    c.maxRetries >= INFINITE && c.initial > 0 && c.max >= c.initial && c.multiplier > 1.0
  }

  function Pow(m: real, k: nat): real {
    if k == 0 then 1.0 else m * Pow(m, k - 1)
  }

  /** The uncapped backoff of an attempt. */
  function Raw(c: Config, k: nat): real {
    c.initial as real * Pow(c.multiplier, k)
  }

  function Capped(c: Config, k: nat): real {
    if Raw(c, k) <= c.max as real then Raw(c, k) else c.max as real
  }

  /** Conversion to an integer duration, which rounds towards zero. */
  function Truncate(x: real): int {
    if x >= 0.0 then x.Floor else -((-x).Floor)
  }

  predicate Exceeds(c: Config, k: nat) {
    Raw(c, k) > c.max as real
  }

  /** Whether the loop that fills the table stops: retries are bounded, or some backoff exceeds the cap. */
  ghost predicate Stops(c: Config) {
    c.maxRetries != INFINITE || exists k: nat :: Exceeds(c, k)
  }

  // ----- growth -----

  /** Bernoulli's inequality. */
  lemma {:induction false} Bernoulli(d: real, k: nat)
    requires d >= 0.0
    ensures Pow(1.0 + d, k) >= 1.0 + k as real * d
  {
    if k > 0 {
      Bernoulli(d, k - 1);
      var p, j := Pow(1.0 + d, k - 1), (k - 1) as real;
      ProductAtLeast(1.0 + d, p, 1.0 + j * d);
      assert (1.0 + d) * (1.0 + j * d) == 1.0 + (j + 1.0) * d + j * d * d;
      assert j * d * d >= 0.0 by { NonNegative(j, d); NonNegative(j * d, d); }
    }
  }

  lemma ProductAtLeast(a: real, x: real, y: real)
    requires a >= 0.0 && x >= y
    ensures a * x >= a * y
  {
    assert a * (x - y) >= 0.0;
  }

  lemma ProductAtMost(a: real, x: real, y: real, bound: real)
    requires a <= 0.0 && x >= y && bound == a * y
    ensures a * x <= bound
  {
    assert a * (x - y) <= 0.0;
  }

  lemma NonNegative(a: real, b: real)
    requires a >= 0.0 && b >= 0.0
    ensures a * b >= 0.0
  {
  }

  /** A base above one eventually takes a positive start beyond any bound. */
  lemma EventuallyExceeds(initial: real, m: real, bound: real) returns (k: nat)
    requires initial > 0.0 && m > 1.0
    ensures initial * Pow(m, k) > bound
  {
    var d := m - 1.0;
    assert initial * d > 0.0;
    var q := if bound <= 0.0 then 0.0 else bound / (initial * d);
    k := q.Floor + 1;
    Bernoulli(d, k);
    assert q * (initial * d) >= bound;
    assert k as real > q;
    assert (k as real - q) * (initial * d) > 0.0;
    assert k as real * (initial * d) > bound;
    ProductAtLeast(initial, Pow(m, k), 1.0 + k as real * d);
    assert initial * (1.0 + k as real * d) == initial + k as real * (initial * d);
  }

  lemma {:induction false} PowAtLeastOne(m: real, k: nat)
    requires m >= 1.0
    ensures Pow(m, k) >= 1.0
  {
    if k > 0 {
      PowAtLeastOne(m, k - 1);
      ProductAtLeast(m, Pow(m, k - 1), 1.0);
    }
  }

  lemma {:induction false} RawGrows(c: Config, j: nat, k: nat)
    requires Valid(c) && j <= k
    ensures Raw(c, j) <= Raw(c, k)
    decreases k
  {
    if j < k {
      RawGrows(c, j, k - 1);
      var p := Pow(c.multiplier, k - 1);
      PowAtLeastOne(c.multiplier, k - 1);
      assert c.multiplier * p >= p by { ProductAtLeast(p, c.multiplier, 1.0); }
      ProductAtLeast(c.initial as real, c.multiplier * p, p);
    }
  }

  lemma ScaleWithin(a: real, b: real)
    requires -1.0 <= a <= 1.0 && 0.0 <= b
    ensures -b <= a * b <= b
  {
    assert (1.0 - a) * b >= 0.0 && (1.0 + a) * b >= 0.0;
  }

  lemma ProductSmall(a: real, b: real, product: real)
    requires -1.0 <= a <= 1.0 && -1.0 <= b <= 1.0 && product == a * b
    ensures -1.0 <= product <= 1.0
  {
    if b >= 0.0 {
      ScaleWithin(a, b);
    } else {
      ScaleWithin(a, -b);
      assert product == -(a * -b);
    }
  }

  lemma {:induction false} PowSmall(m: real, k: nat)
    requires -1.0 <= m <= 1.0
    ensures -1.0 <= Pow(m, k) <= 1.0
  {
    if k > 0 {
      PowSmall(m, k - 1);
      ProductSmall(m, Pow(m, k - 1), Pow(m, k));
    }
  }

  lemma {:induction false} PowOfSquare(m: real, k: nat)
    ensures Pow(m, 2 * k) == Pow(m * m, k)
  {
    if k > 0 {
      PowOfSquare(m, k - 1);
      assert Pow(m, 2 * k) == m * Pow(m, 2 * k - 1);
      assert Pow(m, 2 * k - 1) == m * Pow(m, 2 * k - 2);
    }
  }

  /** Whether some backoff exceeds the cap, by the signs and sizes alone. */
  predicate PassesCap(c: Config) {
    || c.initial > c.max
    || (c.initial > 0 && (c.multiplier > 1.0 || c.multiplier < -1.0))
    || (c.initial < 0 && (|| c.multiplier < -1.0
                          || (-1.0 <= c.multiplier <= 0.0 && c.initial as real * c.multiplier > c.max as real)
                          || (0.0 < c.multiplier < 1.0 && c.max < 0)))
  }

  /** For every configuration, valid or not, the table loop stops exactly when retries are bounded or the cap is passed. */
  lemma StopsExactly(c: Config)
    ensures Stops(c) <==> c.maxRetries != INFINITE || PassesCap(c)
  {
    if c.initial > c.max {
      assert Raw(c, 0) == c.initial as real;
      assert Exceeds(c, 0);
    } else if PassesCap(c) {
      var k := SomeExceeds(c);
    } else {
      forall k: nat ensures !Exceeds(c, k) { NoneExceeds(c, k); }
    }
  }

  lemma SomeExceeds(c: Config) returns (k: nat)
    requires c.initial <= c.max && PassesCap(c)
    ensures Exceeds(c, k)
  {
    if c.multiplier > 1.0 {
      k := EventuallyExceeds(c.initial as real, c.multiplier, c.max as real);
    } else if c.multiplier < -1.0 && c.initial > 0 {
      k := NegativeExceeds(c);
    } else if c.multiplier < -1.0 {
      k := OddPowerExceeds(c);
    } else if c.multiplier <= 0.0 {
      k := 1;
      assert Pow(c.multiplier, 1) == c.multiplier * Pow(c.multiplier, 0);
    } else {
      k := ShrinksPastCap(c);
    }
  }

  lemma NoneExceeds(c: Config, k: nat)
    requires c.initial <= c.max && !PassesCap(c)
    ensures !Exceeds(c, k)
  {
    var initial, m, p := c.initial as real, c.multiplier, Pow(c.multiplier, k);
    if c.initial > 0 {
      NeverExceeds(c, k);
    } else if c.initial < 0 {
      if m >= 1.0 {
        PowAtLeastOne(m, k);
        ProductAtMost(initial, p, 1.0, initial);
      } else if m > 0.0 {
        PowIsPositive(m, k);
        ProductAtMost(initial, p, 0.0, 0.0);
      } else if k > 0 {
        FirstPowerIsLargest(initial, m, k);
      }
    }
  }

  /** From a negative start, odd powers of a multiplier below minus one grow. */
  lemma OddPowerExceeds(c: Config) returns (k: nat)
    requires c.initial < 0 && c.multiplier < -1.0
    ensures Exceeds(c, k)
  {
    var initial, m := c.initial as real, c.multiplier;
    assert (-m - 1.0) * (1.0 - m) == m * m - 1.0;
    assert (-m - 1.0) * (1.0 - m) > 0.0;
    ProductAtLeast(-initial, -m, 1.0);
    assert initial * m == (-initial) * (-m);
    var half := EventuallyExceeds(initial * m, m * m, c.max as real);
    PowOfSquare(m, half);
    k := 2 * half + 1;
    assert Pow(m, k) == m * Pow(m, 2 * half);
    assert initial * (m * Pow(m, 2 * half)) == (initial * m) * Pow(m, 2 * half);
  }

  lemma {:induction false} PowIsPositive(m: real, k: nat)
    requires m > 0.0
    ensures Pow(m, k) > 0.0
  {
    if k > 0 { PowIsPositive(m, k - 1); }
  }

  lemma {:induction false} PowOfInverse(m: real, k: nat)
    requires m > 0.0
    ensures Pow(m, k) * Pow(1.0 / m, k) == 1.0
  {
    if k > 0 {
      PowOfInverse(m, k - 1);
      var q, a, b := 1.0 / m, Pow(m, k - 1), Pow(1.0 / m, k - 1);
      assert m * q == 1.0;
      assert (m * a) * (q * b) == (m * q) * (a * b);
    }
  }

  /** A negative start shrinks towards zero, past any negative cap. */
  lemma ShrinksPastCap(c: Config) returns (k: nat)
    requires c.initial < 0 && 0.0 < c.multiplier < 1.0 && c.max < 0
    ensures Exceeds(c, k)
  {
    var initial, m, cap := -(c.initial as real), c.multiplier, -(c.max as real);
    var q := 1.0 / m;
    assert q * m == 1.0;
    assert q > 1.0;
    k := EventuallyExceeds(cap, q, initial);
    var p := Pow(m, k);
    PowIsPositive(m, k);
    PowOfInverse(m, k);
    assert (cap * Pow(q, k) - initial) * p > 0.0;
    assert (cap * Pow(q, k)) * p == cap * (p * Pow(q, k));
    assert cap > initial * p;
  }

  /** From a negative start with a multiplier between minus one and zero, no power gives more than the first. */
  lemma FirstPowerIsLargest(initial: real, m: real, k: nat)
    requires initial < 0.0 && -1.0 <= m <= 0.0 && k > 0
    ensures initial * Pow(m, k) <= initial * m
  {
    var p := Pow(m, k - 1);
    PowSmall(m, k - 1);
    assert initial * m == (-initial) * (-m);
    NonNegative(-initial, -m);
    ProductAtLeast(initial * m, 1.0, p);
    assert initial * (m * p) == (initial * m) * p;
  }

  /** Even powers of a multiplier below minus one grow as well. */
  lemma NegativeExceeds(c: Config) returns (k: nat)
    requires c.initial > 0 && c.multiplier < -1.0
    ensures Exceeds(c, k)
  {
    var m := c.multiplier;
    assert (-m - 1.0) * (1.0 - m) > 0.0;
    assert (-m - 1.0) * (1.0 - m) == m * m - 1.0;
    var half := EventuallyExceeds(c.initial as real, m * m, c.max as real);
    PowOfSquare(m, half);
    k := 2 * half;
  }

  lemma NeverExceeds(c: Config, k: nat)
    requires 0 < c.initial <= c.max && -1.0 <= c.multiplier <= 1.0
    ensures !Exceeds(c, k)
  {
    PowSmall(c.multiplier, k);
    ProductAtLeast(c.initial as real, 1.0, Pow(c.multiplier, k));
  }

  // ----- the table -----

  /** A table of the capped backoffs up to the first that exceeds the cap, or up to the number of retries. */
  ghost predicate IsTable(c: Config, delays: seq<int>) {
    && (forall k :: 0 <= k < |delays| ==> delays[k] == Truncate(Capped(c, k)))
    && (forall k :: 0 <= k < |delays| - 1 ==> !Exceeds(c, k))
    && (c.maxRetries != INFINITE ==> |delays| <= Max(c.maxRetries, 0))
    && (c.maxRetries == INFINITE || |delays| < c.maxRetries ==> delays != [] && Exceeds(c, |delays| - 1))
  }

  method BuildTable(c: Config) returns (delays: seq<int>)
    requires Stops(c)
    ensures IsTable(c, delays)
  {
    ghost var end: nat := if c.maxRetries != INFINITE then Max(c.maxRetries, 0) else var k: nat :| Exceeds(c, k); k + 1;
    delays := [];
    var attempt := 0;
    while c.maxRetries == INFINITE || attempt < c.maxRetries
      invariant attempt == |delays| && attempt <= end
      invariant forall k :: 0 <= k < attempt ==> delays[k] == Truncate(Capped(c, k)) && !Exceeds(c, k)
      decreases end - attempt
    {
      var backoff := Raw(c, attempt);
      var delay := Truncate(if backoff <= c.max as real then backoff else c.max as real);
      delays := delays + [delay];
      if backoff > c.max as real { break; }
      attempt := attempt + 1;
    }
  }

  /** The handler's delay for an attempt: attempts past the table repeat its last delay. */
  function Delay(delays: seq<int>, attempt: nat): int {
    if delays == [] then 0 else delays[Min(attempt, |delays| - 1)]
  }

  lemma CappedIsNonNegative(c: Config, k: nat)
    requires Valid(c)
    ensures Raw(c, k) >= c.initial as real && Capped(c, k) >= c.initial as real
  {
    PowAtLeastOne(c.multiplier, k);
    ProductAtLeast(c.initial as real, Pow(c.multiplier, k), 1.0);
  }

  lemma DelayIsCapped(c: Config, delays: seq<int>, k: nat)
    requires Valid(c) && IsTable(c, delays) && (c.maxRetries == INFINITE || k < c.maxRetries)
    ensures Delay(delays, k) == Capped(c, k).Floor
  {
    CappedIsNonNegative(c, k);
    if k >= |delays| {
      var last := |delays| - 1;
      CappedIsNonNegative(c, last);
      RawGrows(c, last, k);
      assert Exceeds(c, last) && Exceeds(c, k);
    }
  }

  lemma FloorOfCapped(c: Config, k: nat, raw: real)
    requires raw == c.initial as real * Pow(c.multiplier, k)
    ensures Capped(c, k).Floor == if raw <= c.max as real then raw.Floor else c.max
  {
    assert Raw(c, k) == raw;
  }

  /** For every valid configuration the delay of an attempt is the floor of the exponential, up to the maximal one. */
  lemma DelayIsClosedForm(c: Config, delays: seq<int>, k: nat)
    requires Valid(c) && IsTable(c, delays) && (c.maxRetries == INFINITE || k < c.maxRetries)
    ensures var raw := c.initial as real * Pow(c.multiplier, k);
            Delay(delays, k) == if raw <= c.max as real then raw.Floor else c.max
  {
    DelayIsCapped(c, delays, k);
    FloorOfCapped(c, k, c.initial as real * Pow(c.multiplier, k));
  }

  /** Delays never shrink from one attempt to the next, and stay between the initial and the maximal one. */
  lemma DelaysDoNotShrink(c: Config, delays: seq<int>, j: nat, k: nat)
    requires Valid(c) && IsTable(c, delays) && j <= k && (c.maxRetries == INFINITE || k < c.maxRetries)
    ensures c.initial <= Delay(delays, j) <= Delay(delays, k) <= c.max
  {
    DelayIsCapped(c, delays, j);
    DelayIsCapped(c, delays, k);
    RawGrows(c, j, k);
    CappedIsNonNegative(c, j);
  }

  /** A valid configuration always gets its table, with infinite retries too. */
  lemma ValidStops(c: Config)
    requires Valid(c)
    ensures Stops(c)
  {
    StopsExactly(c);
  }

  // ----- retrying -----

  /** What one run of the payload does; after a plain failure the context may turn out to be cancelled. */
  datatype Try<T> = Succeeds(value: T) | Aborts | Fails(cancelled: bool) {
    predicate Retries() {
      Fails? && !cancelled
    }
  }

  datatype Verdict<T> = Result(value: T) | Aborted | Cancelled | Exhausted | Invalid

  predicate HandlerValid(delays: seq<int>, maxRetries: int) {
    if delays == [] then maxRetries == 0
    else maxRetries >= INFINITE && forall k :: 0 <= k < |delays| ==> delays[k] > 0
  }

  function MustExecute(maxRetries: int, attempt: nat): bool {
    maxRetries == INFINITE || attempt <= maxRetries
  }

  function Conclude<T>(last: Try<T>): Verdict<T> {
    match last
    case Succeeds(value) => Result(value)
    case Aborts => Aborted
    case Fails(cancelled) => if cancelled then Cancelled else Exhausted
  }

  /**
   Runs the payload until it does anything but plainly fail, or once more than
   the number of retries. The verdict is that of the last run, and every plain
   failure, the last one included, is followed by the delay of its attempt.
   */
  method Execute<T>(delays: seq<int>, maxRetries: int, tries: nat -> Try<T>)
    returns (r: Verdict<T>, runs: nat, slept: seq<int>)
    requires maxRetries != INFINITE || exists k: nat :: !tries(k).Retries()
    ensures r.Invalid? <==> !HandlerValid(delays, maxRetries)
    ensures r.Invalid? ==> runs == 0 && slept == []
    ensures !r.Invalid? ==> runs >= 1 && r == Conclude(tries(runs - 1)) && forall k: nat :: k < runs - 1 ==> tries(k).Retries()
    ensures r.Invalid? <==> if delays == [] then maxRetries != 0
                            else maxRetries < -1 || exists k :: 0 <= k < |delays| && delays[k] <= 0
    ensures r.Result? ==> tries(runs - 1) == Succeeds(r.value)
    ensures !r.Invalid? ==> (r.Aborted? <==> tries(runs - 1).Aborts?) && (r.Cancelled? <==> tries(runs - 1) == Fails(true))
    ensures r.Exhausted? ==> runs == maxRetries + 1
    ensures maxRetries != INFINITE ==> runs <= Max(maxRetries + 1, 0)
    ensures !r.Invalid? ==> |slept| == if r.Exhausted? then runs else runs - 1
    ensures forall k :: 0 <= k < |slept| ==> slept[k] == Delay(delays, k)
  {
    runs, slept := 0, [];
    if !HandlerValid(delays, maxRetries) { return Invalid, runs, slept; }
    ghost var end: nat := if maxRetries != INFINITE then maxRetries + 1 else var k: nat :| !tries(k).Retries(); k + 1;
    while MustExecute(maxRetries, runs)
      invariant runs <= end && |slept| == runs
      invariant forall k: nat :: k < runs ==> tries(k).Retries() && slept[k] == Delay(delays, k)
      decreases end - runs
    {
      var attempt := tries(runs);
      var delay := Delay(delays, runs);
      runs := runs + 1;
      if attempt.Succeeds? { return Result(attempt.value), runs, slept; }
      if attempt.Aborts? { return Aborted, runs, slept; }
      if attempt.cancelled { return Cancelled, runs, slept; }
      slept := slept + [delay];
    }
    return Exhausted, runs, slept;
  }
}
