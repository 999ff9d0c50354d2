/** Why isGoodPrime asks for a residue: for each generator it names, the residue condition
    says exactly that the generator is a square modulo the safe prime, and so generates the
    subgroup of prime order. By Gauss's lemma, counting the multiples in the upper half. */
module QuadraticResidues {
  import opened DiffieHellman
  import opened NumberTheory

  // -------------------------------------------------------------- Gauss's lemma

  /** The absolutely least residue of x, without its sign. */
  function Fold(x: int, p: int): int {
    if 2 * x > p then p - x else x
  }

  function Folded(a: int, k: nat, p: int): (s: seq<int>)
    requires p > 0
    ensures |s| == k
  {
    seq(k, i requires 0 <= i < k => Fold((a * (i + 1)) % p, p))
  }

  /** How many of a*1, ..., a*k have a residue in the upper half. */
  function FlipCount(a: int, k: nat, p: int): nat
    requires p > 0
  {
    if k == 0 then 0 else FlipCount(a, k - 1, p) + if 2 * ((a * k) % p) > p then 1 else 0
  }

  function Sign(n: nat): int {
    if n % 2 == 0 then 1 else -1
  }

  lemma {:induction false} FoldedProduct(a: int, k: nat, p: int)
    requires p > 0
    ensures (Sign(FlipCount(a, k, p)) * Product(Folded(a, k, p))) % p == (Pow(a, k) * Factorial(k)) % p
  {
    hide Pow, Factorial, Product, Sign;
    if k == 0 {
      NoFactors(a, p);
    } else {
      var s, x := Folded(a, k - 1, p), (a * k) % p;
      var f := Fold(x, p);
      var e := if 2 * x > p then -f else f;
      assert Folded(a, k, p) == s + [f];
      ProductSnoc(s, f);
      FoldedProduct(a, k - 1, p);
      var sign, u := Sign(FlipCount(a, k - 1, p)), Product(s);
      var v := Pow(a, k - 1) * Factorial(k - 1);
      SignedResidue(a * k, p);
      MulCongruent(sign * u, v, e, a * k, p);
      Regroup(sign, u, f);
      PowTimesFactorial(a, k);
      SignFlips(FlipCount(a, k - 1, p));
    }
  }

  lemma NoFactors(a: int, p: int)
    requires p > 0
    ensures Sign(FlipCount(a, 0, p)) * Product(Folded(a, 0, p)) == 1 == Pow(a, 0) * Factorial(0)
  {}

  lemma PowTimesFactorial(a: int, k: nat)
    requires k > 0
    ensures Pow(a, k) * Factorial(k) == (Pow(a, k - 1) * Factorial(k - 1)) * (a * k)
  {
    Swap4(Pow(a, k - 1), Factorial(k - 1), a, k);
  }

  lemma SignFlips(n: nat)
    ensures Sign(n + 1) == -Sign(n)
  {}

  lemma SignedResidue(n: int, p: int)
    requires p > 0
    ensures var x := n % p; (if 2 * x > p then -Fold(x, p) else Fold(x, p)) % p == n % p
  {
    RemainderTwice(n, p);
    AddMultiple(n % p, -1, p);
  }

  lemma Regroup(sign: int, u: int, f: int)
    ensures (sign * u) * f == sign * (u * f) && (sign * u) * (-f) == (-sign) * (u * f)
  {}

  lemma FoldedAt(a: int, k: nat, p: int, i: nat)
    requires p > 0 && i < k
    ensures Folded(a, k, p)[i] == Fold((a * (i + 1)) % p, p)
  {}

  lemma FoldsDiffer(a: int, p: int, i: int, j: int)
    requires Prime(p) && !Divides(p, a) && 0 < i < j && i + j < p
    ensures Fold((a * i) % p, p) != Fold((a * j) % p, p)
  {
    var x, y := (a * i) % p, (a * j) % p;
    MultiplesDiffer(a, p, i, j);
    MultipleNonZero(a, p, i + j);
    if x + y == p {
      assert a * (i + j) == a * i + a * j;
      assert a * i + a * j == (a * i / p + a * j / p + 1) * p + 0;
      DivModUnique(a * (i + j), a * i / p + a * j / p + 1, 0, p);
    }
  }

  /** The folded residues of a, 2a, ..., ha are 1, ..., h in some order. */
  lemma FoldedIsPermutation(a: int, p: int)
    requires Prime(p) && p % 2 == 1 && !Divides(p, a)
    ensures Distinct(Folded(a, (p - 1) / 2, p)) && Within(Folded(a, (p - 1) / 2, p), (p - 1) / 2)
  {
    var h := (p - 1) / 2;
    hide Folded, Divides;
    hide Prime;
    var s := Folded(a, h, p);
    forall i | 0 <= i < |s| ensures 1 <= s[i] <= h {
      FoldedAt(a, h, p, i);
      MultipleNonZero(a, p, i + 1);
    }
    forall i, j | 0 <= i < j < |s| ensures s[i] != s[j] {
      FoldedAt(a, h, p, i);
      FoldedAt(a, h, p, j);
      FoldsDiffer(a, p, i + 1, j + 1);
    }
  }

  /** Gauss's lemma with Euler's criterion: a^((p-1)/2) is 1 or -1 as the count is even or
      odd. */
  lemma Gauss(a: int, p: int)
    requires Prime(p) && p % 2 == 1 && !Divides(p, a)
    ensures Pow(a, (p - 1) / 2) % p == if FlipCount(a, (p - 1) / 2, p) % 2 == 0 then 1 else p - 1
  {
    hide Pow, FlipCount, Folded, Product, Factorial, Fold, Divides;
    OddHalf(p);
    hide Prime;
    var h := (p - 1) / 2;
    FoldedIsPermutation(a, p);
    PermutationProduct(Folded(a, h, p), h);
    FoldedProduct(a, h, p);
    PrimeDoesNotDivideFactorial(p, h);
    CancelRight(p, Pow(a, h), Sign(FlipCount(a, h, p)), Factorial(h));
    SignRemainder(FlipCount(a, h, p), p);
  }

  lemma OddHalf(p: int)
    requires Prime(p) && p % 2 == 1
    ensures p >= 3 && 0 < (p - 1) / 2 < p
  {}

  lemma CancelRight(p: int, w: int, v: int, f: int)
    requires Prime(p) && !Divides(p, f) && (w * f) % p == (v * f) % p
    ensures w % p == v % p
  {
    assert p > 0;
    hide Prime, Divides;
    SameRemainder(w * f, v * f, p);
    assert (w - v) * f == w * f - v * f;
    Euclid(p, w - v, f);
    SameRemainder(w, v, p);
  }

  lemma SignRemainder(n: nat, p: int)
    requires p > 2
    ensures Sign(n) % p == if n % 2 == 0 then 1 else p - 1
  {
    DivModUnique(-1, -1, p - 1, p);
    DivModUnique(1, 0, 1, p);
  }

  // ------------------------------------------------------------------ counting

  /** The multiples a*i lie between v and v + 1 half primes for i behind the v-th threshold up
      to the next. */
  function Threshold(a: int, p: int, v: nat): (t: nat)
    requires a > 0 && p > 0
  {
    Monotone(0, v, p);
    Floor(v * p, 2 * a)
  }

  function Floor(n: int, d: int): (q: nat)
    requires n >= 0 && d > 0
  {
    n / d
  }

  lemma ThresholdMeans(a: int, p: int, v: nat, i: int)
    requires a > 0 && p > 0
    ensures i <= Threshold(a, p, v) <==> 2 * a * i <= v * p
  {
    var t, n := Threshold(a, p, v), v * p;
    assert n == t * (2 * a) + n % (2 * a);
    if i <= t { Monotone(i, t, 2 * a); } else { Monotone(t + 1, i, 2 * a); }
    assert (t + 1) * (2 * a) == t * (2 * a) + 2 * a;
    assert 2 * a * i == i * (2 * a);
  }

  lemma Monotone(x: int, y: int, k: int)
    requires x <= y && k >= 0
    ensures x * k <= y * k
  {}

  lemma FlipAt(a: int, p: int, v: nat, i: int)
    requires Prime(p) && p % 2 == 1 && a > 0 && !Divides(p, a) && 0 < i < p
    requires Threshold(a, p, v) < i <= Threshold(a, p, v + 1)
    ensures 2 * ((a * i) % p) > p <==> v % 2 == 1
  {
    hide Threshold, Prime, Divides;
    var n, w := a * i, v / 2;
    ThresholdMeans(a, p, v, i);
    ThresholdMeans(a, p, v + 1, i);
    MultipleNonZero(a, p, i);
    HalfPrimes(v, p);
    assert 2 * a * i == 2 * n;
    if v % 2 == 1 {
      NotAtMultiple(n, w + 1, p);
      UpperHalf(n, w, p);
    } else {
      LowerHalf(n, w, p);
    }
  }

  lemma HalfPrimes(v: nat, p: int)
    ensures v * p == 2 * (v / 2 * p) + v % 2 * p && (v + 1) * p == v * p + p && (v / 2 + 1) * p == v / 2 * p + p
  {
    assert v == 2 * (v / 2) + v % 2;
    Expanded(v / 2, v % 2, p);
  }

  lemma NotAtMultiple(n: int, w: int, p: int)
    requires p > 0 && n % p != 0
    ensures n != w * p
  {
    if n == w * p { DivModUnique(w * p, w, 0, p); }
  }

  lemma UpperHalf(n: int, w: int, p: int)
    requires p > 0 && 2 * (w * p) + p < 2 * n < 2 * (w * p) + 2 * p
    ensures 2 * (n % p) > p
  {
    DivModUnique(n, w, n - w * p, p);
  }

  lemma LowerHalf(n: int, w: int, p: int)
    requires p > 0 && 2 * (w * p) <= 2 * n <= 2 * (w * p) + p
    ensures 2 * (n % p) <= p
  {
    DivModUnique(n, w, n - w * p, p);
  }

  lemma Expanded(w: int, b: int, p: int)
    ensures (2 * w + b) * p == 2 * (w * p) + b * p
  {}

  lemma {:induction false} CountSegment(a: int, p: int, v: nat, k: nat)
    requires Prime(p) && p % 2 == 1 && a > 0 && !Divides(p, a)
    requires Threshold(a, p, v) <= k <= Threshold(a, p, v + 1) && k < p
    ensures FlipCount(a, k, p) == FlipCount(a, Threshold(a, p, v), p) + if v % 2 == 1 then k - Threshold(a, p, v) else 0
    decreases k
  {
    hide Threshold, Prime, Divides;
    if Threshold(a, p, v) < k {
      CountSegment(a, p, v, k - 1);
      FlipAt(a, p, v, k);
    }
  }

  /** The integers in the upper halves, up to the v-th threshold. */
  function OddGaps(a: int, p: int, v: nat): int
    requires a > 0 && p > 0
  {
    if v == 0 then 0 else
      OddGaps(a, p, v - 1) + if v % 2 == 0 then Threshold(a, p, v) - Threshold(a, p, v - 1) else 0
  }

  lemma ThresholdsGrow(a: int, p: int, v: nat)
    requires a > 0 && p > 0
    ensures Threshold(a, p, v) <= Threshold(a, p, v + 1)
  {
    ThresholdMeans(a, p, v, Threshold(a, p, v));
    ThresholdMeans(a, p, v + 1, Threshold(a, p, v));
    assert (v + 1) * p == v * p + p;
  }

  lemma {:induction false} CountTo(a: int, p: int, v: nat)
    requires Prime(p) && p % 2 == 1 && a > 0 && !Divides(p, a) && Threshold(a, p, v) < p
    ensures FlipCount(a, Threshold(a, p, v), p) == OddGaps(a, p, v)
    decreases v
  {
    hide Threshold, Prime, Divides, FlipCount;
    if v == 0 {
      FirstThreshold(a, p);
      NoFlips(a, p);
    } else {
      ThresholdsGrow(a, p, v - 1);
      CountTo(a, p, v - 1);
      CountSegment(a, p, v - 1, Threshold(a, p, v));
    }
  }

  lemma NoFlips(a: int, p: int)
    requires p > 0
    ensures FlipCount(a, 0, p) == 0
  {}

  lemma FirstThreshold(a: int, p: int)
    requires a > 0 && p > 0
    ensures Threshold(a, p, 0) == 0
  {
    DivModUnique(0, 0, 0, 2 * a);
  }

  /** The last threshold is half the prime. */
  lemma LastThreshold(a: int, p: int)
    requires a > 0 && p > 0 && p % 2 == 1
    ensures Threshold(a, p, a) == (p - 1) / 2
  {
    var h := (p - 1) / 2;
    assert a * p == h * (2 * a) + a by {
      assert p == 2 * h + 1;
      Expanded(h, 1, a);
      assert a * (2 * h + 1) == (2 * h + 1) * a && h * (2 * a) == 2 * (h * a);
    }
    DivModUnique(a * p, h, a, 2 * a);
  }

  /** Modulo p = 4at + r the thresholds, up to even numbers, are those of r. */
  lemma ThresholdOf(a: int, t: int, r: int, v: nat)
    requires a > 0 && r > 0 && 4 * a * t + r > 0 && t >= 0
    ensures Threshold(a, 4 * a * t + r, v) == 2 * (v * t) + Threshold(a, r, v)
  {
    var q, m := Threshold(a, r, v), v * r;
    assert v * (4 * a * t + r) == 2 * (v * t) * (2 * a) + v * r by {
      assert v * (4 * a * t) == 2 * (v * t) * (2 * a);
    }
    assert v * r == q * (2 * a) + (v * r) % (2 * a);
    assert (2 * (v * t) + q) * (2 * a) == 2 * (v * t) * (2 * a) + q * (2 * a);
    DivModUnique(v * (4 * a * t + r), 2 * (v * t) + q, (v * r) % (2 * a), 2 * a);
  }

  lemma {:induction false} OddGapsParity(a: int, t: int, r: int, v: nat)
    requires a > 0 && r > 0 && 4 * a * t + r > 0 && t >= 0
    ensures OddGaps(a, 4 * a * t + r, v) % 2 == OddGaps(a, r, v) % 2
    decreases v
  {
    hide Threshold;
    if v > 0 {
      OddGapsParity(a, t, r, v - 1);
      ThresholdOf(a, t, r, v);
      ThresholdOf(a, t, r, v - 1);
      EvenShift(OddGaps(a, 4 * a * t + r, v - 1), OddGaps(a, r, v - 1),
                Threshold(a, r, v) - Threshold(a, r, v - 1), v * t, (v - 1) * t);
    }
  }

  lemma EvenShift(g: int, h: int, d: int, x: int, y: int)
    requires g % 2 == h % 2
    ensures (g + (2 * x + d - 2 * y)) % 2 == (h + d) % 2
  {}

  /** Whether a is a square modulo p depends only on p modulo 4a: quadratic reciprocity, in
      Euler's form. */
  lemma Reciprocity(a: int, p: int)
    requires Prime(p) && p % 2 == 1 && a > 0 && !Divides(p, a)
    ensures p % (4 * a) > 0
    ensures Pow(a, (p - 1) / 2) % p == if OddGaps(a, p % (4 * a), a) % 2 == 0 then 1 else p - 1
  {
    hide Pow, OddGaps, Prime, Divides;
    var t, r := p / (4 * a), p % (4 * a);
    assert p == (4 * a) * t + r;
    PrimeAbove(p);
    QuotientBounds(p, 4 * a);
    EvenPart(a, t);
    GaussByThresholds(a, p);
    OddGapsParity(a, t, r, a);
  }

  lemma PrimeAbove(p: int)
    requires Prime(p)
    ensures p > 1
  {}

  lemma QuotientBounds(p: int, m: int)
    requires p >= 0 && m > 0
    ensures p / m >= 0 && 0 <= p % m
  {}

  lemma EvenPart(a: int, t: int)
    ensures (4 * a) * t == 2 * (2 * a * t) && 4 * a * t == (4 * a) * t
  {}

  lemma GaussByThresholds(a: int, p: int)
    requires Prime(p) && p % 2 == 1 && a > 0 && !Divides(p, a)
    ensures Pow(a, (p - 1) / 2) % p == if OddGaps(a, p, a) % 2 == 0 then 1 else p - 1
  {
    hide Pow, FlipCount, OddGaps, Threshold;
    Gauss(a, p);
    LastThreshold(a, p);
    CountTo(a, p, a);
  }

  // ----------------------------------------------------- the generators 2 to 7

  lemma SmallDoesNotDivide(p: int, a: int)
    requires 0 < a < p
    ensures !Divides(p, a)
  {
    DivModUnique(a, 0, a, p);
  }

  lemma GapsOfTwo(r: int)
    requires 0 < r < 8 && r % 2 == 1
    ensures OddGaps(2, r, 2) % 2 == 0 <==> r == 1 || r == 7
  {
    assert OddGaps(2, r, 1) == OddGaps(2, r, 0) == 0;
  }

  lemma GapsOfThree(r: int)
    requires 0 < r < 12 && r % 2 == 1 && r % 3 != 0
    ensures OddGaps(3, r, 3) % 2 == 0 <==> r == 1 || r == 11
  {
    assert OddGaps(3, r, 1) == OddGaps(3, r, 0) == 0;
    assert OddGaps(3, r, 3) == OddGaps(3, r, 2) == Threshold(3, r, 2) - Threshold(3, r, 1);
  }

  lemma GapsOfFive(r: int)
    requires 0 < r < 20 && r % 2 == 1 && r % 5 != 0
    ensures OddGaps(5, r, 5) % 2 == 0 <==> r % 5 == 1 || r % 5 == 4
  {
    FourthsOf(5, r);
    assert OddGaps(5, r, 5) == OddGaps(5, r, 4);
    FiveMembers(r);
    FiveCases(r);
  }

  function FiveSum(r: int): int {
    2 * r / 10 - r / 10 + 4 * r / 10 - 3 * r / 10
  }

  lemma FiveCases(r: int)
    requires r in {1, 3, 7, 9, 11, 13, 17, 19}
    ensures (r % 5 == 1 || r % 5 == 4) <==> FiveSum(r) % 2 == 0
  {
    hide FiveSum;
    FiveTable();
  }

  lemma FiveTable()
    ensures FiveSum(1) == 0 && FiveSum(3) == 1 && FiveSum(7) == 1 && FiveSum(9) == 2
    ensures FiveSum(11) == 2 && FiveSum(13) == 3 && FiveSum(17) == 3 && FiveSum(19) == 4
  {}

  lemma FiveMembers(r: int)
    requires 0 < r < 20 && r % 2 == 1 && r % 5 != 0
    ensures r in {1, 3, 7, 9, 11, 13, 17, 19}
  {
    assert r == 2 * (r / 2) + 1 && 0 <= r / 2 <= 9;
  }

  lemma FourthsOf(a: int, r: int)
    requires a > 0 && r > 0
    ensures OddGaps(a, r, 4) == 2 * r / (2 * a) - r / (2 * a) + 4 * r / (2 * a) - 3 * r / (2 * a)
  {
    assert OddGaps(a, r, 1) == OddGaps(a, r, 0) == 0;
    assert OddGaps(a, r, 3) == OddGaps(a, r, 2) == Threshold(a, r, 2) - Threshold(a, r, 1);
  }

  lemma GapsOfSeven(r: int)
    requires 0 < r < 28 && r % 4 == 3 && r % 7 != 0
    ensures OddGaps(7, r, 7) % 2 == 0 <==> r % 7 == 3 || r % 7 == 5 || r % 7 == 6
  {
    hide SevenSum;
    SevenMembers(r);
    SevenCases(r);
    GapsAreSevenSum(r);
  }

  lemma GapsAreSevenSum(r: int)
    requires r > 0
    ensures OddGaps(7, r, 7) == SevenSum(r)
  {
    FourthsOf(7, r);
    assert OddGaps(7, r, 5) == OddGaps(7, r, 4);
    assert OddGaps(7, r, 7) == OddGaps(7, r, 6) == OddGaps(7, r, 5) + Threshold(7, r, 6) - Threshold(7, r, 5);
  }

  function SevenSum(r: int): int {
    2 * r / 14 - r / 14 + 4 * r / 14 - 3 * r / 14 + 6 * r / 14 - 5 * r / 14
  }

  lemma SevenCases(r: int)
    requires r in {3, 11, 15, 19, 23, 27}
    ensures (r % 7 == 3 || r % 7 == 5 || r % 7 == 6) <==> SevenSum(r) % 2 == 0
  {
    hide SevenSum;
    SevenTable();
  }

  lemma SevenTable()
    ensures SevenSum(3) == 0 && SevenSum(11) == 3 && SevenSum(15) == 3
    ensures SevenSum(19) == 4 && SevenSum(23) == 5 && SevenSum(27) == 6
  {}

  lemma SevenMembers(r: int)
    requires 0 < r < 28 && r % 4 == 3 && r % 7 != 0
    ensures r in {3, 11, 15, 19, 23, 27}
  {
    assert r == 4 * (r / 4) + 3 && 0 <= r / 4 <= 6;
  }

  /** A safe prime above 7 is 11 modulo 12. */
  lemma SafePrimeModTwelve(p: int)
    requires SafePrime(p) && p > 7
    ensures p % 12 == 11
  {
    var q := (p - 1) / 2;
    PrimeIsNoMultiple(p, 2);
    PrimeIsNoMultiple(p, 3);
    PrimeIsNoMultiple(q, 2);
    PrimeIsNoMultiple(q, 3);
    hide Prime;
    ModTwelve(p, q);
  }

  lemma ModTwelve(p: int, q: int)
    requires p == 2 * q + 1 && p % 3 != 0 && q % 2 != 0 && q % 3 != 0
    ensures p % 12 == 11
  {
    var k, s := q / 6, q % 6;
    assert q == 6 * k + s;
    RemainderInRemainder(q, 3, 2);
    RemainderInRemainder(q, 2, 3);
    OneOrFive(s);
    if s == 1 {
      DivModUnique(p, 4 * k + 1, 0, 3);
    } else {
      DivModUnique(p, k, 11, 12);
    }
  }

  lemma OneOrFive(s: int)
    requires 0 <= s < 6 && s % 2 != 0 && s % 3 != 0
    ensures s == 1 || s == 5
  {}

  lemma PrimeIsNoMultiple(p: int, d: int)
    requires Prime(p) && 2 <= d < p
    ensures p % d != 0
  {
    assert !Divides(d, p);
  }

  /** The residue conditions are exact: modulo a safe prime above 7, each generator from 2 to
      7 fits exactly when its ((p-1)/2)-th power is one. */
  lemma ResidueFitsExactly(p: int, g: int)
    requires SafePrime(p) && p > 7 && 2 <= g <= 7
    ensures ResidueFits(p, g) <==> Pow(g, (p - 1) / 2) % p == 1
  {
    hide Pow, OddGaps;
    SafePrimeModTwelve(p);
    RemainderInRemainder(p, 3, 4);
    RemainderInRemainder(p, 4, 3);
    hide Prime;
    match g {
      case 2 => TwoFits(p);
      case 3 => ThreeFits(p);
      case 4 => FourFits(p);
      case 5 => FiveFits(p);
      case 6 => SixFits(p);
      case 7 => SevenFits(p);
    }
  }

  lemma TwoFits(p: int)
    requires Prime(p) && p > 7 && p % 4 == 3
    ensures Pow(2, (p - 1) / 2) % p == 1 <==> p % 8 == 7
  {
    hide Pow, OddGaps, Prime;
    SmallDoesNotDivide(p, 2);
    Reciprocity(2, p);
    GapsOfTwo(p % 8);
  }

  lemma ThreeFits(p: int)
    requires Prime(p) && p > 7 && p % 12 == 11
    ensures Pow(3, (p - 1) / 2) % p == 1
  {
    hide Pow, OddGaps, Prime;
    SmallDoesNotDivide(p, 3);
    Reciprocity(3, p);
    GapsOfThree(p % 12);
  }

  lemma FourFits(p: int)
    requires SafePrime(p) && p > 7
    ensures Pow(4, (p - 1) / 2) % p == 1
  {
    assert Pow(2, 2) == 2 * Pow(2, 1) == 2 * (2 * Pow(2, 0)) == 4;
    FermatForSquares(p, 2);
  }

  lemma FiveFits(p: int)
    requires Prime(p) && p > 7
    ensures Pow(5, (p - 1) / 2) % p == 1 <==> p % 5 == 1 || p % 5 == 4
  {
    PrimeIsNoMultiple(p, 5);
    PrimeIsNoMultiple(p, 2);
    hide Pow, OddGaps, Prime;
    SmallDoesNotDivide(p, 5);
    Reciprocity(5, p);
    RemainderInRemainder(p, 4, 5);
    RemainderInRemainder(p, 10, 2);
    GapsOfFive(p % 20);
  }

  lemma RemainderInRemainder(p: int, k: int, d: int)
    requires k > 0 && d > 0
    ensures k * d > 0 && p % (k * d) % d == p % d
  {
    assert k * d > 0;
    var q, r := p / (k * d), p % (k * d);
    assert p == r + (q * k) * d;
    AddMultiple(r, q * k, d);
  }

  lemma SixFits(p: int)
    requires Prime(p) && p > 7 && p % 12 == 11
    ensures Pow(6, (p - 1) / 2) % p == 1 <==> p % 24 == 19 || p % 24 == 23
  {
    hide Pow, OddGaps, Prime;
    var h := (p - 1) / 2;
    RemainderInRemainder(p, 2, 12);
    RemainderInRemainder(p, 3, 8);
    RemainderInRemainder(p, 3, 4);
    TwoFits(p);
    ThreeFits(p);
    PowMul(2, 3, h);
    DivModUnique(1, 0, 1, p);
    MulCongruent(Pow(2, h), Pow(2, h), Pow(3, h), 1, p);
    SixCases(p % 24);
  }

  lemma SixCases(r: int)
    requires 0 <= r < 24 && r % 12 == 11
    ensures r % 8 == 7 <==> r == 19 || r == 23
  {}

  lemma SevenFits(p: int)
    requires Prime(p) && p > 7 && p % 4 == 3
    ensures Pow(7, (p - 1) / 2) % p == 1 <==> p % 7 == 3 || p % 7 == 5 || p % 7 == 6
  {
    PrimeIsNoMultiple(p, 7);
    hide Pow, OddGaps, Prime;
    SmallDoesNotDivide(p, 7);
    Reciprocity(7, p);
    RemainderInRemainder(p, 4, 7);
    RemainderInRemainder(p, 7, 4);
    GapsOfSeven(p % 28);
  }

  /** The generator of every parameter set that fits has order exactly (p-1)/2, a prime. */
  lemma GeneratorHasPrimeOrder(p: int, g: int)
    requires SafePrime(p) && p > 7 && ResidueFits(p, g)
    ensures Pow(g, (p - 1) / 2) % p == 1
    ensures forall k: nat :: 0 < k < (p - 1) / 2 ==> Pow(g, k) % p != 1
  {
    ResidueFitsExactly(p, g);
    SafePrimeModTwelve(p);
    forall k: nat | 0 < k < (p - 1) / 2 ensures Pow(g, k) % p != 1 {
      GeneratedSubgroupIsLarge(p, g, k);
    }
  }
}
