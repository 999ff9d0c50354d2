/** Factoring pq by Pollard's rho with the tortoise-and-hare cycle search. */
module Factoring {
  import opened NumberTheory

  function Abs(x: int): nat {
    if x < 0 then -x else x
  }

  // ----------------------------------------------------------------------- gcd

  ghost predicate SameCommonDivisors(a: int, b: int, c: int, d: int) {
    forall m | m > 0 :: Divides(m, a) && Divides(m, b) <==> Divides(m, c) && Divides(m, d)
  }

  /** `r` is the greatest common divisor: its divisors are the common divisors. */
  ghost predicate IsGcd(r: int, a: int, b: int) {
    r >= 0 && forall m | m > 0 :: Divides(m, r) <==> Divides(m, a) && Divides(m, b)
  }

  lemma NegationKeepsDivisors(a: int)
    ensures forall m | m > 0 :: Divides(m, Abs(a)) <==> Divides(m, a)
  {
    forall m | m > 0
      ensures Divides(m, Abs(a)) <==> Divides(m, a)
    {
      if Divides(m, a) { DividesLinear(m, a, a, -1, 0); }
      if Divides(m, -a) { DividesLinear(m, -a, -a, -1, 0); }
    }
  }

  lemma EuclidStep(a: int, b: int)
    requires b > 0
    ensures SameCommonDivisors(a, b, b, a % b)
  {
    forall m | m > 0
      ensures Divides(m, a) && Divides(m, b) <==> Divides(m, b) && Divides(m, a % b)
    {
      if Divides(m, b) { RemainderKeepsDivisors(m, a, b); }
    }
  }

  lemma RemainderKeepsDivisors(m: int, a: int, b: int)
    requires b > 0 && m > 0 && Divides(m, b)
    ensures Divides(m, a) <==> Divides(m, a % b)
  {
    hide Divides;
    var q, r := a / b, a % b;
    assert a == r + q * b && r == a + -q * b;
    if Divides(m, a) { DividesLinear(m, a, b, 1, -q); }
    if Divides(m, r) { DividesLinear(m, r, b, 1, q); }
  }

  method Gcd(a0: int, b0: int) returns (r: int)
    ensures IsGcd(r, a0, b0)
  {
    var a, b := Abs(a0), Abs(b0);
    NegationKeepsDivisors(a0);
    NegationKeepsDivisors(b0);
    while b > 0
      invariant a >= 0 && b >= 0
      invariant SameCommonDivisors(a, b, a0, b0)
    {
      EuclidStep(a, b);
      var t := b;
      b := a % b;
      a := t;
    }
    return a;
  }

  /** Being the greatest common divisor pins the value down. */
  lemma GcdIsUnique(r: int, s: int, a: int, b: int)
    requires IsGcd(r, a, b) && IsGcd(s, a, b)
    ensures r == s
  {
    GcdIsLargest(r, s, a, b);
    GcdIsLargest(s, r, a, b);
    if r == 0 && s > 0 {
      DividesMultiple(s + 1, 0);
      DividesLe(s + 1, s);
    }
    if s == 0 && r > 0 {
      DividesMultiple(r + 1, 0);
      DividesLe(r + 1, r);
    }
  }

  lemma GcdIsLargest(r: int, s: int, a: int, b: int)
    requires IsGcd(r, a, b) && IsGcd(s, a, b)
    ensures r > 0 && s > 0 ==> s <= r
  {
    if r > 0 && s > 0 {
      DividesMultiple(s, 1);
      DividesLe(s, r);
    }
  }

  // ----------------------------------------------------- the iterated sequence

  function Next(x: int, c: int, n: int): (y: int)
    requires n > 0
    ensures 0 <= y < n
  {
    (x * x + c) % n
  }

  /** x_0, x_1 = x_0^2 + c, x_2 = x_1^2 + c, ... modulo n. */
  function Iterate(x0: int, c: int, n: int, i: nat): (x: int)
    requires 0 <= x0 < n
    ensures 0 <= x < n
  {
    if i == 0 then x0 else Next(Iterate(x0, c, n, i - 1), c, n)
  }

  lemma {:induction false} PeriodCarriesOn(x0: int, c: int, n: int, mu: nat, lam: nat, i: nat)
    requires 0 <= x0 < n && mu <= i
    requires Iterate(x0, c, n, mu) == Iterate(x0, c, n, mu + lam)
    ensures Iterate(x0, c, n, i) == Iterate(x0, c, n, i + lam)
    decreases i
  {
    if mu < i {
      PeriodCarriesOn(x0, c, n, mu, lam, i - 1);
    }
  }

  lemma {:induction false} PeriodRepeats(x0: int, c: int, n: int, mu: nat, lam: nat, i: nat, k: nat)
    requires 0 <= x0 < n && mu <= i
    requires Iterate(x0, c, n, mu) == Iterate(x0, c, n, mu + lam)
    ensures k * lam >= 0 && Iterate(x0, c, n, i) == Iterate(x0, c, n, i + k * lam)
    decreases k
  {
    if k > 0 {
      PeriodRepeats(x0, c, n, mu, lam, i, k - 1);
      assert k * lam == (k - 1) * lam + lam;
      PeriodCarriesOn(x0, c, n, mu, lam, i + (k - 1) * lam);
    }
  }

  lemma SomeValueRepeats(x0: int, c: int, n: int) returns (mu: nat, nu: nat)
    requires 0 <= x0 < n
    ensures mu < nu <= n && Iterate(x0, c, n, mu) == Iterate(x0, c, n, nu)
  {
    var s := seq(n + 1, i requires 0 <= i => Iterate(x0, c, n, i) + 1);
    assert Within(s, n);
    if Distinct(s) { Pigeonhole(s, n); }
    var i, j :| 0 <= i < j < |s| && s[i] == s[j];
    mu, nu := i, j;
  }

  /** The tortoise and the hare are at the same value after at most n steps. */
  lemma TortoiseMeetsHare(x0: int, c: int, n: int) returns (i: nat)
    requires 0 <= x0 < n
    ensures 1 <= i <= n && Iterate(x0, c, n, i) == Iterate(x0, c, n, 2 * i)
  {
    var mu, nu := SomeValueRepeats(x0, c, n);
    var lam := nu - mu;
    var least := if mu == 0 then 1 else mu;
    var k := (least + lam - 1) / lam;
    i := k * lam;
    FirstMultiple(least, lam);
    PeriodRepeats(x0, c, n, mu, lam, i, k);
  }

  lemma FirstMultiple(least: nat, lam: nat)
    requires lam > 0
    ensures var k := (least + lam - 1) / lam; least <= k * lam < least + lam
  {
    var t := least + lam - 1;
    assert t == (t / lam) * lam + t % lam;
  }

  // --------------------------------------------------------------- Pollard rho

  /** How far tortoise and hare are apart after `i` steps. */
  function Apart(x0: int, c: int, n: int, i: nat): int
    requires 0 <= x0 < n
  {
    Iterate(x0, c, n, i) - Iterate(x0, c, n, 2 * i)
  }

  /** `d` is the first gcd that is not 1, reached after `steps` steps. */
  ghost predicate FirstGcd(n: int, x0: int, c: int, steps: nat, d: int)
    requires 0 <= x0 < n
  {
    && 1 <= steps <= n
    && d != 1 && IsGcd(d, Apart(x0, c, n, steps), n)
    && forall j :: 1 <= j < steps ==> IsGcd(1, Apart(x0, c, n, j), n)
  }

  /** Runs the inner loop: the first step whose gcd is not 1. */
  method TortoiseAndHare(n: int, x0: int, c: int) returns (d: int, ghost steps: nat)
    requires n >= 2 && 0 <= x0 < n
    ensures FirstGcd(n, x0, c, steps, d)
    ensures 1 < d <= n && Divides(d, n)
  {
    hide Next;
    ghost var meet := TortoiseMeetsHare(x0, c, n);
    var x, y := x0, x0;
    steps, d := 0, 1;
    while d == 1
      invariant 0 <= steps <= meet
      invariant x == Iterate(x0, c, n, steps) && y == Iterate(x0, c, n, 2 * steps)
      invariant steps > 0 ==> IsGcd(d, x - y, n)
      invariant d != 1 ==> steps > 0
      invariant steps == meet ==> d != 1
      invariant forall j :: 1 <= j < steps ==> IsGcd(1, Apart(x0, c, n, j), n)
      decreases meet - steps
    {
      x := Next(x, c, n);
      y := Next(y, c, n);
      assert y == Iterate(x0, c, n, 2 * steps + 1);
      y := Next(y, c, n);
      steps := steps + 1;
      assert y == Iterate(x0, c, n, 2 * steps);
      var diff := x - y;
      NegationKeepsDivisors(diff);
      if diff < 0 { diff := -diff; }
      d := Gcd(diff, n);
      if steps == meet {
        GcdWithZero(d, n);
      }
    }
    DividesMultiple(n, 1);
    if d != n { GcdDividesBoth(d, x - y, n); }
  }

  lemma GcdWithZero(d: int, n: int)
    requires n >= 2 && IsGcd(d, 0, n)
    ensures d == n
  {
    DividesMultiple(n, 1);
    assert Divides(n, 0);
    forall m | m > 0
      ensures Divides(m, n) <==> Divides(m, 0) && Divides(m, n)
    {
      DividesMultiple(m, 0);
    }
    GcdIsUnique(d, n, 0, n);
  }

  lemma {:induction false} GcdExists(a: nat, b: nat) returns (d: int)
    ensures IsGcd(d, a, b)
    decreases b
  {
    if b == 0 {
      forall m | m > 0
        ensures Divides(m, a) <==> Divides(m, a) && Divides(m, b)
      {
        DividesMultiple(m, 0);
      }
      d := a;
    } else {
      EuclidStep(a, b);
      d := GcdExists(b, a % b);
    }
  }

  /** What the inner loop finds depends on the start and the increment alone. */
  lemma FirstGcdExists(n: int, x0: int, c: int)
    requires n >= 2 && 0 <= x0 < n
    ensures exists steps: nat, d: int :: FirstGcd(n, x0, c, steps, d)
  {
    hide Iterate;
    var meet := TortoiseMeetsHare(x0, c, n);
    var steps, d := 0, 1;
    while d == 1
      invariant 0 <= steps <= meet && (d != 1 ==> steps > 0) && (steps == meet ==> d != 1)
      invariant steps > 0 ==> IsGcd(d, Apart(x0, c, n, steps), n)
      invariant forall j :: 1 <= j < steps ==> IsGcd(1, Apart(x0, c, n, j), n)
      decreases meet - steps
    {
      steps := steps + 1;
      NegationKeepsDivisors(Apart(x0, c, n, steps));
      d := GcdExists(Abs(Apart(x0, c, n, steps)), n);
      if steps == meet {
        GcdWithZero(d, n);
      }
    }
    assert FirstGcd(n, x0, c, steps, d);
  }

  lemma FirstGcdIsUnique(n: int, x0: int, c: int, i: nat, d: int, j: nat, e: int)
    requires 0 <= x0 < n && FirstGcd(n, x0, c, i, d) && FirstGcd(n, x0, c, j, e)
    ensures d == e
  {
    hide IsGcd, Apart;
    if i < j {
      GcdIsUnique(d, 1, Apart(x0, c, n, i), n);
    } else if j < i {
      GcdIsUnique(e, 1, Apart(x0, c, n, j), n);
    } else {
      GcdIsUnique(d, e, Apart(x0, c, n, i), n);
    }
  }

  datatype Factored =
    | Factor(d: int)
    | EmptyRange      // a range of length zero: the division by zero throws
    | DrawsExhausted  // still retrying when the random values run out

  /** `raw` stands for the random bytes; the source retries until the result is in range,
      which it always is. */
  function RandomInRange(min: int, max: int, raw: nat): (r: int)
    requires min < max
    ensures min <= r < max
  {
    min + raw % (max - min)
  }

  /** The random values of one turn of the retry loop: the start and the increment. */
  type Draw = (nat, nat)

  function Start(n: int, draw: Draw): (x0: int)
    requires n > 3
    ensures 2 <= x0 < n - 1
  {
    RandomInRange(2, n - 1, draw.0)
  }

  function Increment(n: int, draw: Draw): (c: int)
    requires n > 3
    ensures 1 <= c < n - 1
  {
    RandomInRange(1, n - 1, draw.1)
  }

  ghost predicate Finds(n: int, draw: Draw, d: int)
    requires n > 3
  {
    exists steps: nat :: FirstGcd(n, Start(n, draw), Increment(n, draw), steps, d)
  }

  lemma EveryDrawFinds(n: int, draw: Draw)
    requires n > 3
    ensures exists d :: Finds(n, draw, d)
  {
    hide FirstGcd, Start, Increment;
    var x0, c := Start(n, draw), Increment(n, draw);
    FirstGcdExists(n, x0, c);
    var steps: nat, d: int :| FirstGcd(n, x0, c, steps, d);
    assert Finds(n, draw, d);
  }

  /** The gcd at which a draw ends. */
  ghost function DrawGcd(n: int, draw: Draw): (d: int)
    requires n > 3
    ensures Finds(n, draw, d)
  {
    EveryDrawFinds(n, draw);
    var d :| Finds(n, draw, d);
    d
  }

  lemma FoundIsDrawGcd(n: int, draw: Draw, d: int)
    requires n > 3 && Finds(n, draw, d)
    ensures d == DrawGcd(n, draw)
  {
    hide FirstGcd;
    var x0, c := Start(n, draw), Increment(n, draw);
    var i: nat :| FirstGcd(n, x0, c, i, d);
    var j: nat :| FirstGcd(n, x0, c, j, DrawGcd(n, draw));
    FirstGcdIsUnique(n, x0, c, i, d, j, DrawGcd(n, draw));
  }

  lemma GcdDividesBoth(d: int, x: int, n: int)
    requires n >= 2 && d != 1 && d != n && IsGcd(d, x, n)
    ensures 1 < d < n && Divides(d, n)
  {
    if d == 0 {
      DividesMultiple(n + 1, 0);
      DividesLe(n + 1, n);
    }
    DividesMultiple(d, 1);
    DividesLe(d, n);
  }

  lemma DrawGcdDivides(n: int, draw: Draw)
    requires n > 3 && DrawGcd(n, draw) != n
    ensures var d := DrawGcd(n, draw); 1 < d < n && Divides(d, n)
  {
    hide IsGcd;
    var x0, c := Start(n, draw), Increment(n, draw);
    var steps: nat :| FirstGcd(n, x0, c, steps, DrawGcd(n, draw));
    GcdDividesBoth(DrawGcd(n, draw), Apart(x0, c, n, steps), n);
  }

  /** The gcd of the first draw that does not end at n itself. */
  ghost function Rho(n: int, draws: seq<Draw>): (r: Factored)
    requires n >= 2
    ensures r.Factor? ==> r.d > 1 && (n > 2 ==> r.d < n) && Divides(r.d, n)
  {
    if n % 2 == 0 then Factor(2)
    else if draws == [] then DrawsExhausted
    else if n == 3 then EmptyRange
    else if DrawGcd(n, draws[0]) == n then Rho(n, draws[1..])
    else
      DrawGcdDivides(n, draws[0]);
      Factor(DrawGcd(n, draws[0]))
  }

  /** The retry loop ends at the first draw whose gcd is not n. */
  method PollardRho(n: int, draws: seq<Draw>) returns (r: Factored)
    requires n >= 2
    ensures r == Rho(n, draws)
    ensures r.Factor? && n > 2 ==> 1 < r.d < n && Divides(r.d, n)
    ensures n % 2 == 0 ==> r == Factor(2)
    ensures Prime(n) && n > 2 ==> !r.Factor?
    ensures r.EmptyRange? <==> n == 3 && draws != []
    ensures n % 2 == 1 && n > 3 ==> (r.DrawsExhausted? <==> forall i :: 0 <= i < |draws| ==> DrawGcd(n, draws[i]) == n)
    ensures n % 2 == 1 && n > 3 && r.Factor? ==> exists i :: FirstProper(n, draws, i, r.d)
  {
    hide FirstGcd;
    RhoMeans(n, draws);
    if Prime(n) && n > 2 { PrimeGivesNone(n, draws); }
    if n % 2 == 0 { return Factor(2); }
    assert draws[0..] == draws;
    for i := 0 to |draws|
      invariant i > 0 ==> n != 3
      invariant Rho(n, draws) == Rho(n, draws[i..])
    {
      if n == 3 { return EmptyRange; }
      var x0, c := Start(n, draws[i]), Increment(n, draws[i]);
      var d, steps := TortoiseAndHare(n, x0, c);
      FoundIsDrawGcd(n, draws[i], d);
      assert draws[i..][0] == draws[i] && draws[i..][1..] == draws[i + 1..];
      if d != n { return Factor(d); }
    }
    return DrawsExhausted;
  }

  lemma {:induction false} RhoMeans(n: int, draws: seq<Draw>)
    requires n >= 2
    ensures Rho(n, draws).EmptyRange? <==> n == 3 && draws != []
    ensures n % 2 == 1 && n > 3 ==>
              (Rho(n, draws).DrawsExhausted? <==> forall i :: 0 <= i < |draws| ==> DrawGcd(n, draws[i]) == n)
    ensures n % 2 == 1 && n > 3 && Rho(n, draws).Factor? ==> exists i :: FirstProper(n, draws, i, Rho(n, draws).d)
    decreases |draws|
  {
    hide Finds;
    if n % 2 == 1 && n > 3 && draws != [] {
      RhoMeans(n, draws[1..]);
      assert forall i :: 0 < i < |draws| ==> draws[i] == draws[1..][i - 1];
      if DrawGcd(n, draws[0]) != n {
        assert FirstProper(n, draws, 0, DrawGcd(n, draws[0]));
      } else if Rho(n, draws).Factor? {
        var i :| FirstProper(n, draws[1..], i, Rho(n, draws).d);
        assert FirstProper(n, draws, i + 1, Rho(n, draws).d);
      }
    }
  }

  /** Draw `i` gives `d`, and all before it end at n itself. */
  ghost predicate FirstProper(n: int, draws: seq<Draw>, i: int, d: int)
    requires n > 3
  {
    0 <= i < |draws| && d == DrawGcd(n, draws[i]) && d != n && forall j :: 0 <= j < i ==> DrawGcd(n, draws[j]) == n
  }

  lemma PrimeGivesNone(n: int, draws: seq<Draw>)
    requires n > 2 && Prime(n)
    ensures !Rho(n, draws).Factor?
  {
    hide Rho;
  }

  datatype Factorization = Pair(p: int, q: int) | TooSmall | RangeError | NoResult

  function Ordered(a: int, b: int): Factorization {
    if a < b then Pair(a, b) else Pair(b, a)
  }

  ghost function Factorized(pq: int, draws: seq<Draw>): Factorization {
    if pq <= 1 then TooSmall else
      match Rho(pq, draws)
      case EmptyRange => RangeError
      case DrawsExhausted => NoResult
      case Factor(factor) => Ordered(factor, pq / factor)
  }

  /** The source calls p and q primes and says p < q; what it returns is a factorization
      into two ordered factors, which may be equal or composite. */
  method FactorizePQ(pq: int, draws: seq<Draw>) returns (r: Factorization)
    ensures r == Factorized(pq, draws)
    ensures r.TooSmall? <==> pq <= 1
    ensures r.Pair? ==> r.p * r.q == pq && 1 <= r.p <= r.q
    ensures r.Pair? && pq >= 4 ==> 1 < r.p <= r.q < pq
    ensures pq == 2 ==> r == Pair(1, 2)
    ensures pq > 2 && pq % 2 == 0 ==> r == Pair(2, pq / 2)
    ensures forall a, b | Prime(a) && Prime(b) && a <= b && a * b == pq :: r.Pair? ==> r == Pair(a, b)
    ensures Prime(pq) && pq > 2 ==> !r.Pair?
    ensures r.RangeError? <==> pq == 3 && draws != []
  {
    hide Rho, Prime;
    if pq <= 1 { return TooSmall; }
    var f := PollardRho(pq, draws);
    match f {
      case EmptyRange => return RangeError;
      case DrawsExhausted => return NoResult;
      case Factor(factor) =>
        OrderedFactors(pq, factor);
        var other := pq / factor;
        var p := if factor < other then factor else other;
        var q := if factor < other then other else factor;
        return Pair(p, q);
    }
  }

  lemma OrderedFactors(pq: int, factor: int)
    requires pq > 1 && 1 < factor && Divides(factor, pq) && (pq > 2 ==> factor < pq)
    ensures var r := Ordered(factor, pq / factor);
            && r.Pair? && r.p * r.q == pq && 1 <= r.p <= r.q
            && (pq >= 4 ==> 1 < r.p <= r.q < pq)
            && (pq == 2 ==> r == Pair(1, 2))
            && (pq > 2 && factor == 2 ==> r == Pair(2, pq / 2))
            && forall a, b | Prime(a) && Prime(b) && a <= b && a * b == pq :: r == Pair(a, b)
  {
    hide Prime;
    OtherFactor(pq, factor);
    if pq == 2 { DividesLe(factor, 2); }
    if factor == 2 && pq > 2 { HalfAtLeastTwo(pq); }
    forall a, b | Prime(a) && Prime(b) && a <= b && a * b == pq
      ensures Ordered(factor, pq / factor) == Pair(a, b)
    {
      SemiprimeFactor(a, b, factor);
    }
  }

  lemma HalfAtLeastTwo(n: int)
    requires n > 2 && Divides(2, n)
    ensures n / 2 >= 2
  {}

  lemma SemiprimeFactor(a: int, b: int, d: int)
    requires Prime(a) && Prime(b) && a <= b && 1 < d && Divides(d, a * b) && (a * b > 2 ==> d < a * b)
    ensures (d == a && a * b / d == b) || (d == b && a * b / d == a)
  {
    MulLe(2, b, a);
    SemiprimeDivisor(a, b, d);
    DivModUnique(a * b, b, 0, a);
    DivModUnique(a * b, a, 0, b);
  }

  lemma MulLe(x: int, y: int, k: int)
    requires x <= y && k >= 0
    ensures k * x <= k * y && x * k <= y * k
  {}

  lemma OtherFactor(n: int, d: int)
    requires n >= 2 && 1 < d && Divides(d, n)
    ensures d * (n / d) == n && 1 <= n / d < n
    ensures d < n ==> 1 < n / d
  {
    var e := n / d;
    assert n == d * e;
    if e <= 0 {
      MulLe(e, 0, d);
    } else {
      MulLe(2, d, e);
    }
    assert e == 1 ==> d * e == d;
  }

  /** The proper divisors of a product of two primes are those primes. */
  lemma SemiprimeDivisor(a: int, b: int, d: int)
    requires Prime(a) && Prime(b) && 1 < d < a * b && Divides(d, a * b)
    ensures d == a || d == b
  {
    var e := a * b / d;
    assert d * e == a * b;
    DividesMultiple(a, b);
    Euclid(a, d, e);
    if Divides(a, d) {
      var k := d / a;
      Cancel(a, k, e, b);
      CofactorOfPrime(b, k, e);
      assert k == b ==> d == a * b;
      assert k == 1 ==> d == a;
    } else {
      var k := e / a;
      assert d * (a * k) == a * (d * k);
      Cancel(a, d, k, b);
      CofactorOfPrime(b, d, k);
    }
  }

  lemma Cancel(a: int, k: int, e: int, b: int)
    requires a > 0 && ((a * k) * e == a * b || a * (k * e) == a * b)
    ensures k * e == b
  {
    assert (a * k) * e == a * (k * e);
    var diff := k * e - b;
    assert a * diff == 0;
    if diff > 0 { MulLe(1, diff, a); }
    if diff < 0 { MulLe(diff, -1, a); }
  }

  lemma CofactorOfPrime(b: int, k: int, e: int)
    requires Prime(b) && k * e == b && k > 0
    ensures k == 1 || k == b
  {
    DividesMultiple(k, e);
    PrimeDivisors(b, k);
  }

  // ------------------------------------------------------- which numbers factor

  /** From a start x0 with x0^2 + c = p + x0 modulo n = p * m, the first distance is
      -p * (p + 2 * x0), so its gcd with n is proper unless m divides p + 2 * x0. */
  lemma FirstStep(n: int, p: int, m: int, x0: int, c: int)
    requires n == p * m && p > 1 && m > 1 && 0 <= x0 < n && 0 <= p + x0 < n
    requires (x0 * x0 + c) % n == p + x0
    ensures Iterate(x0, c, n, 1) == p + x0
    ensures Divides(n, Apart(x0, c, n, 1) + p * (p + 2 * x0))
  {
    var x1, x2 := Iterate(x0, c, n, 1), Iterate(x0, c, n, 2);
    assert Iterate(x0, c, n, 0) == x0;
    assert x1 == p + x0 && x2 == (x1 * x1 + c) % n;
    assert x1 * x1 + c == (x0 * x0 + c) + p * (p + 2 * x0);
    DivModUnique(x1, 0, x1, n);
    DivModUnique(x2, 0, x2, n);
    SameRemainder(x0 * x0 + c, x1, n);
    SameRemainder(x1 * x1 + c, x2, n);
    var u, v := (x0 * x0 + c) - x1, (x1 * x1 + c) - x2;
    DividesLinear(n, u, v, -1, 1);
    assert -1 * u + 1 * v == x1 - x2 + p * (p + 2 * x0);
  }

  /** So its gcd with n is found at once, and is not n. */
  lemma FirstStepFactors(n: int, p: int, m: int, x0: int, c: int, draw: Draw)
    requires n > 3 && n == p * m && p > 1 && m > 1 && 0 <= p + x0 < n
    requires Start(n, draw) == x0 && Increment(n, draw) == c
    requires (x0 * x0 + c) % n == p + x0 && !Divides(m, p + 2 * x0)
    ensures DrawGcd(n, draw) != n
  {
    hide Iterate, Start, Increment;
    FirstStep(n, p, m, x0, c);
    var apart, k := Apart(x0, c, n, 1), p + 2 * x0;
    NegationKeepsDivisors(apart);
    var d := GcdExists(Abs(apart), n);
    DividesMultiple(p, m);
    DividesTransitive(p, n, apart + p * k);
    DividesMultiple(p, k);
    DividesLinear(p, apart + p * k, p * k, 1, -1);
    assert 1 * (apart + p * k) + -1 * (p * k) == apart;
    if d == 1 { DividesLe(p, 1); }
    if d == n {
      DividesMultiple(n, 1);
      DividesLinear(n, apart + p * k, apart, 1, -1);
      assert 1 * (apart + p * k) + -1 * apart == p * k;
      CancelDivisor(p, m, k);
    }
    assert FirstGcd(n, x0, c, 1, d);
    FoundIsDrawGcd(n, draw, d);
  }

  lemma CancelDivisor(p: int, m: int, k: int)
    requires p > 0 && m > 0 && p * m > 0 && Divides(p * m, p * k)
    ensures Divides(m, k)
  {
    var t := p * k / (p * m);
    assert p * k == t * (p * m) == p * (t * m);
    assert p * (k - t * m) == 0;
    assert k == t * m;
    DividesMultiple(m, t);
  }

  /** The draw with this start and increment. */
  function DrawOf(x0: int, c: int): Draw
    requires x0 >= 2 && c >= 1
  {
    (x0 - 2, c - 1)
  }

  lemma DrawOfGives(n: int, x0: int, c: int)
    requires n > 3 && 2 <= x0 < n - 1 && 1 <= c < n - 1
    ensures Start(n, DrawOf(x0, c)) == x0 && Increment(n, DrawOf(x0, c)) == c
  {
    DivModUnique(x0 - 2, 0, x0 - 2, n - 3);
    DivModUnique(c - 1, 0, c - 1, n - 2);
  }

  /** An odd composite number has a draw that factors it: with its least prime factor p, the
      start 2 and the increment p - 2, or, when the cofactor is p + 4, the start 3 and p - 6. */
  lemma OddCompositeHasADraw(n: int) returns (draw: Draw)
    requires n > 3 && n % 2 == 1 && !Prime(n)
    ensures DrawGcd(n, draw) != n
  {
    var p := SmallestFactor(n);
    var m := n / p;
    assert n == p * m;
    OddFactor(n, p, m);
    if m != p + 4 {
      draw := DrawOf(2, p - 2);
      NineOrMore(n, p, m);
      DrawOfGives(n, 2, p - 2);
      DivModUnique(2 * 2 + (p - 2), 0, p + 2, n);
      CofactorMisses(p, m);
      FirstStepFactors(n, p, m, 2, p - 2, draw);
    } else {
      draw := CousinFactors(n, p);
    }
  }

  lemma OddFactor(n: int, p: int, m: int)
    requires n == p * m && n % 2 == 1 && p >= 2 && p < n && p * p <= n
    ensures p % 2 == 1 && p >= 3 && m >= p
  {
    OddProduct(p, m);
    SmallCofactor(p, m);
  }

  lemma OddProduct(p: int, m: int)
    ensures (p * m) % 2 == 1 ==> p % 2 == 1
  {
    if p % 2 == 0 { DivModUnique(p * m, p / 2 * m, 0, 2); }
  }

  lemma SmallCofactor(p: int, m: int)
    requires p > 0
    ensures m < p ==> p * m < p * p
  {
    if m < p {
      MulLe(m, p - 1, p);
      assert p * (p - 1) == p * p - p;
    }
  }

  lemma NineOrMore(n: int, p: int, m: int)
    requires n == p * m && p >= 3 && m >= p
    ensures n >= 3 * p
  {
    MulLe(3, m, p);
  }

  lemma NotADivisor(k: int, m: int)
    requires 0 < m < k < 2 * m || 0 < k < m
    ensures !Divides(m, k)
  {
    if k > m { DivModUnique(k, 1, k - m, m); } else { DivModUnique(k, 0, k, m); }
  }

  lemma CofactorMisses(p: int, m: int)
    requires 3 <= p <= m && p % 2 == 1 && m != p + 4
    ensures !Divides(m, p + 4)
  {
    if m > 3 { NotADivisor(p + 4, m); }
  }

  lemma CousinFactors(n: int, p: int) returns (draw: Draw)
    requires p >= 3 && p % 2 == 1 && n == p * (p + 4)
    requires forall q :: 2 <= q < p ==> !Divides(q, n)
    ensures n > 3 && DrawGcd(n, draw) != n
  {
    NotADivisor(p + 6, p + 4);
    if p == 3 {
      draw := DrawOf(3, 18);
      DrawOfGives(21, 3, 18);
      FirstStepFactors(21, 3, 7, 3, 18, draw);
    } else {
      assert !Divides(3, n);
      assert p == 5 ==> n == 45;
      MulLe(7, p, p + 4);
      draw := DrawOf(3, p - 6);
      DrawOfGives(n, 3, p - 6);
      DivModUnique(3 * 3 + (p - 6), 0, p + 3, n);
      FirstStepFactors(n, p, p + 4, 3, p - 6, draw);
    }
  }

  /** Whatever was drawn before or after, such a draw ends the retries. */
  lemma {:induction false} DrawEndsTheRetries(n: int, draws: seq<Draw>, draw: Draw)
    requires n > 3 && draw in draws && DrawGcd(n, draw) != n
    ensures Rho(n, draws).Factor?
    decreases |draws|
  {
    if draw != draws[0] { DrawEndsTheRetries(n, draws[1..], draw); }
  }

  /** The retries end wherever this draw turns up. */
  ghost predicate Suffices(pq: int, draw: Draw) {
    forall draws :: draw in draws ==> Factorized(pq, draws).Pair?
  }

  /** Whatever is drawn, an odd prime is never factored; every other number above 1 is, by
      every sequence of draws that contains one certain draw. */
  lemma AllButOddPrimesFactor(pq: int)
    requires pq > 1
    ensures (exists draws :: Factorized(pq, draws).Pair?) <==> !(Prime(pq) && pq % 2 == 1)
    ensures (exists draw :: Suffices(pq, draw)) <==> !(Prime(pq) && pq % 2 == 1)
  {
    hide FirstGcd, Finds, Prime;
    if Prime(pq) && pq % 2 == 1 {
      forall draws ensures !Factorized(pq, draws).Pair? { PrimeGivesNone(pq, draws); }
      forall draw ensures !Suffices(pq, draw) {
        assert draw in [draw] && !Factorized(pq, [draw]).Pair?;
      }
    } else if pq % 2 == 0 {
      assert Factorized(pq, []).Pair?;
      assert Suffices(pq, (0, 0));
    } else {
      OddAboveThree(pq);
      var draw := OddCompositeHasADraw(pq);
      forall draws | draw in draws ensures Factorized(pq, draws).Pair? { DrawEndsTheRetries(pq, draws, draw); }
      assert Suffices(pq, draw);
      assert draw in [draw] && Factorized(pq, [draw]).Pair?;
    }
  }

  lemma OddAboveThree(n: int)
    requires n > 1 && n % 2 == 1 && !Prime(n)
    ensures n > 3
  {
    if n == 3 { assert Prime(3); }
  }
}
