/** Modular exponentiation, the Miller-Rabin test and the checks on the server's
    Diffie-Hellman parameters. */
module DiffieHellman {
  import opened NumberTheory

  // -------------------------------------------------------------------- modPow

  /** The remainder of a JavaScript bigint division, which truncates toward zero. */
  function TruncatedRemainder(a: int, m: int): int
    requires m > 0
  {
    if a >= 0 then a % m else -((-a) % m)
  }

  lemma NormalizedRemainder(a: int, m: int)
    requires m > 0
    ensures TruncatedRemainder(TruncatedRemainder(a, m) + m, m) == a % m
  {
    var r := TruncatedRemainder(a, m);
    if a >= 0 {
      DivModUnique(r + m, 1, r, m);
    } else {
      var s := (-a) % m;
      assert a == -((-a) / m) * m - s;
      if s == 0 {
        DivModUnique(m, 1, 0, m);
        DivModUnique(a, -((-a) / m), 0, m);
      } else {
        DivModUnique(m - s, 0, m - s, m);
        DivModUnique(a, -((-a) / m) - 1, m - s, m);
      }
    }
  }

  /** What the loop still has to multiply out. */
  function Residue(result: int, base: int, e: nat, m: int): int
    requires m > 0
  {
    (result * Pow(base, e)) % m
  }

  lemma SquareStep(result: int, base: int, h: nat, m: int)
    requires m > 0
    ensures Residue(result, base, 2 * h, m) == Residue(result, (base * base) % m, h, m)
    ensures Residue(result, base, 2 * h, m) == Residue(result % m, base, 2 * h, m)
  {
    PowPow(base, 2, h);
    assert Pow(base, 2) == base * Pow(base, 1) == base * base;
    PowMod(base * base, h, m);
    var square, reduced := Pow(base, 2 * h), Pow((base * base) % m, h);
    MulMod(square, result, m);
    MulMod(reduced, result, m);
    MulMod(result, square, m);
  }

  /** One round of square-and-multiply keeps result * base^exp modulo m. */
  lemma SquareAndMultiply(result: int, base: int, e: nat, m: int)
    requires m > 0
    ensures Residue(result, base, e, m)
         == Residue(if e % 2 == 1 then (result * base) % m else result, (base * base) % m, e / 2, m)
  {
    var h := e / 2;
    if e % 2 == 1 {
      var square := Pow(base, 2 * h);
      assert result * (base * square) == (result * base) * square;
      SquareStep(result * base, base, h, m);
      SquareStep((result * base) % m, base, h, m);
    } else {
      SquareStep(result, base, h, m);
    }
  }

  lemma WholeResidue(base: int, e: nat, m: int)
    requires m > 1
    ensures Residue(1, base % m, e, m) == Pow(base, e) % m
  {
    hide Pow;
    PowMod(base, e, m);
  }

  lemma NothingLeft(r: int, b: int, m: int)
    requires 0 <= r < m
    ensures Residue(r, b, 0, m) == r
  {
    DivModUnique(r, 0, r, m);
  }

  /** The product of two residues, reduced. */
  function Reduce(x: int, y: int, m: int): (r: int)
    requires m > 0
    ensures 0 <= r < m
  {
    (x * y) % m
  }

  method ModPow(base: int, exp: int, mod: int) returns (result: int)
    requires mod >= 1
    ensures exp >= 0 ==> result == Pow(base, exp) % mod
    ensures exp < 0 ==> result == 1 % mod
  {
    if mod == 1 {
      return 0;
    }
    var b, e := TruncatedRemainder(TruncatedRemainder(base, mod) + mod, mod), exp;
    NormalizedRemainder(base, mod);
    result := 1;
    if exp >= 0 {
      WholeResidue(base, exp, mod);
    }
    while e > 0
      invariant 0 <= result < mod
      invariant if exp < 0 then e == exp && result == 1
                else e >= 0 && Residue(result, b, e, mod) == Pow(base, exp) % mod
    {
      SquareAndMultiply(result, b, e, mod);
      if e % 2 == 1 {
        result := Reduce(result, b, mod);
      }
      e := e / 2;
      b := Reduce(b, b, mod);
    }
    NothingLeft(result, b, mod);
  }

  // -------------------------------------------------------------- Miller-Rabin

  /** m = 2^Twos(m) * OddPart(m) */
  function Twos(m: int): nat
    requires m > 0
  {
    if m % 2 == 0 then 1 + Twos(m / 2) else 0
  }

  function OddPart(m: int): (d: int)
    requires m > 0
    ensures d > 0 && d % 2 == 1
  {
    if m % 2 == 0 then OddPart(m / 2) else m
  }

  lemma Swap(d: int, t: int)
    ensures 2 * (d * t) == d * (2 * t)
  {}

  lemma {:induction false} OddPartTimesTwos(m: int)
    requires m > 0
    ensures m == OddPart(m) * Pow(2, Twos(m))
  {
    if m % 2 == 0 {
      OddPartTimesTwos(m / 2);
      var d, k := OddPart(m / 2), Twos(m / 2);
      assert Pow(2, k + 1) == 2 * Pow(2, k);
      Swap(d, Pow(2, k));
    }
  }

  /** a^(d * 2^i) mod n, the value of `x` after `i` squarings. */
  function Squaring(a: int, d: nat, i: nat, n: int): int
    requires n > 0
  {
    if i == 0 then Pow(a, d) % n else
      var y := Squaring(a, d, i - 1, n);
      (y * y) % n
  }

  lemma {:induction false} SquaringIsPower(a: int, d: nat, i: nat, n: int)
    requires n > 0
    ensures d * Pow(2, i) >= 0
    ensures Squaring(a, d, i, n) == Pow(a, d * Pow(2, i)) % n
  {
    PowPositive(2, i);
    if i > 0 {
      SquaringIsPower(a, d, i - 1, n);
      PowPositive(2, i - 1);
      var e := d * Pow(2, i - 1);
      assert d * Pow(2, i) == e + e;
      PowAdd(a, e, e);
      var w := Pow(a, e);
      MulMod(w, w, n);
    }
  }

  /** Base `a` is no witness against `n`: one of the squarings before the last is -1,
      or the first value is 1. */
  ghost predicate Passes(n: int, a: int)
    requires n > 1
  {
    var d, r := OddPart(n - 1), Twos(n - 1);
    Squaring(a, d, 0, n) == 1 || exists i :: 0 <= i < r && Squaring(a, d, i, n) == n - 1
  }

  const WITNESSES: seq<int> := [2, 3, 5, 7, 11, 13, 17, 19, 23, 29, 31, 37]

  function BasesTried(rounds: nat): (k: nat)
    ensures k <= |WITNESSES|
  {
    if rounds > |WITNESSES| then |WITNESSES| else rounds
  }

  /** No base that `rounds` rounds try is a witness against `n`. */
  ghost predicate ProbablePrime(n: int, rounds: nat) {
    || n == 2
    || n == 3
    || (n > 3 && n % 2 == 1 &&
        forall k :: 0 <= k < BasesTried(rounds) && WITNESSES[k] < n ==> Passes(n, WITNESSES[k]))
  }

  method MillerRabin(n: int, rounds: nat) returns (probablyPrime: bool)
    ensures probablyPrime <==> ProbablePrime(n, rounds)
  {
    if n < 2 { return false; }
    if n == 2 || n == 3 { return true; }
    if n % 2 == 0 { return false; }

    var d, r := n - 1, 0;
    while d % 2 == 0
      invariant d > 0 && OddPart(d) == OddPart(n - 1) && r + Twos(d) == Twos(n - 1)
      decreases d
    {
      d := d / 2;
      r := r + 1;
    }

    var tried := if rounds > |WITNESSES| then |WITNESSES| else rounds;
    for k := 0 to tried
      invariant forall j :: 0 <= j < k && WITNESSES[j] < n ==> Passes(n, WITNESSES[j])
    {
      var a := WITNESSES[k];
      if a >= n { continue; }
      var x := ModPow(a, d, n);
      if x == 1 || x == n - 1 {
        assert Squaring(a, d, 0, n) == x;
        continue;
      }
      var continueOuter := false;
      for i := 0 to r - 1
        invariant x == Squaring(a, d, i, n)
        invariant !continueOuter && forall j :: 0 <= j <= i ==> Squaring(a, d, j, n) != n - 1
      {
        ghost var y := x;
        x := ModPow(x, 2, n);
        assert Pow(y, 2) == y * Pow(y, 1) == y * y;
        if x == n - 1 {
          continueOuter := true;
          assert Squaring(a, d, i + 1, n) == n - 1;
          break;
        }
      }
      if !continueOuter {
        assert !Passes(n, a);
        return false;
      }
    }
    return true;
  }

  lemma {:induction false} SplitIsUnique(m: int, d: nat, r: nat)
    requires m > 0 && d % 2 == 1 && m == d * Pow(2, r)
    ensures OddPart(m) == d && Twos(m) == r
    decreases r
  {
    if r > 0 {
      Swap(d, Pow(2, r - 1));
      var h := d * Pow(2, r - 1);
      assert m == 2 * h && m / 2 == h;
      SplitIsUnique(h, d, r - 1);
    } else {
      assert m == d;
    }
  }

  /** a^e is v modulo n. */
  ghost predicate PowerIs(a: int, e: int, v: int, n: int)
    requires n > 0
  {
    e >= 0 && Pow(a, e) % n == v
  }

  lemma SquaringMeans(a: int, d: nat, i: nat, v: int, n: int)
    requires n > 0
    ensures Squaring(a, d, i, n) == v <==> PowerIs(a, d * Pow(2, i), v, n)
  {
    hide Pow, Squaring;
    SquaringIsPower(a, d, i, n);
  }

  /** With n - 1 split into an odd d and 2^r: a^d is 1, or one of a^d, a^2d, a^4d, ... before
      the last is -1. */
  lemma PassesMeans(n: int, a: int, d: nat, r: nat)
    requires n > 1 && d % 2 == 1 && n - 1 == d * Pow(2, r)
    ensures Passes(n, a) <==> PowerIs(a, d, 1, n) || exists i: nat :: i < r && PowerIs(a, d * Pow(2, i), n - 1, n)
  {
    hide Pow, Squaring, PowerIs, Twos, OddPart;
    SplitIsUnique(n - 1, d, r);
    SquaringMeans(a, d, 0, 1, n);
    FirstPower(d);
    if i: nat :| i < r && PowerIs(a, d * Pow(2, i), n - 1, n) {
      SquaringMeans(a, d, i, n - 1, n);
      assert 0 <= i < r && Squaring(a, d, i, n) == n - 1;
    }
    if i: nat :| i < r && Squaring(a, d, i, n) == n - 1 {
      SquaringMeans(a, d, i, n - 1, n);
      assert i < r && PowerIs(a, d * Pow(2, i), n - 1, n);
    }
  }

  lemma FirstPower(d: nat)
    ensures d * Pow(2, 0) == d
  {}

  /** The bases tried are the first primes, up to 37 and below n. */
  lemma ProbablePrimeMeans(n: int, rounds: nat)
    requires n > 3
    ensures var tried := [2, 3, 5, 7, 11, 13, 17, 19, 23, 29, 31, 37][..if rounds < 12 then rounds else 12];
            ProbablePrime(n, rounds) <==> n % 2 == 1 && forall a :: a < n && a in tried ==> Passes(n, a)
  {
    hide Passes;
    var tried := WITNESSES[..BasesTried(rounds)];
    assert forall k :: 0 <= k < BasesTried(rounds) ==> WITNESSES[k] in tried;
    assert tried == [2, 3, 5, 7, 11, 13, 17, 19, 23, 29, 31, 37][..if rounds < 12 then rounds else 12];
  }

  /** Going down from a squaring that is 1: some earlier one is -1, or the first is 1. */
  lemma {:induction false} DescendToMinusOne(p: int, a: int, d: nat, i: nat)
    requires Prime(p) && Squaring(a, d, i, p) == 1
    ensures Squaring(a, d, 0, p) == 1 || exists j :: 0 <= j < i && Squaring(a, d, j, p) == p - 1
  {
    if i > 0 {
      var y := Squaring(a, d, i - 1, p);
      assert 0 <= y < p;
      SquareRootsOfOne(p, y);
      if y == 1 {
        DescendToMinusOne(p, a, d, i - 1);
      } else {
        assert Squaring(a, d, i - 1, p) == p - 1;
      }
    }
  }

  /** A prime has no witness among the bases it does not divide. */
  lemma PrimePasses(p: int, a: int)
    requires Prime(p) && !Divides(p, a)
    ensures Passes(p, a)
  {
    var d, r := OddPart(p - 1), Twos(p - 1);
    OddPartTimesTwos(p - 1);
    Fermat(p, a);
    SquaringIsPower(a, d, r, p);
    DescendToMinusOne(p, a, d, r);
  }

  lemma {:induction false} MultipleStaysMultiple(n: int, a: int, d: nat, i: nat)
    requires n > 0 && a > 0 && d > 0 && Divides(a, n)
    ensures Divides(a, Squaring(a, d, i, n))
  {
    if i == 0 {
      DividesMultiple(a, Pow(a, d - 1));
      RemainderKeepsDivisor(n, a, Pow(a, d));
    } else {
      MultipleStaysMultiple(n, a, d, i - 1);
      var y := Squaring(a, d, i - 1, n);
      DividesLinear(a, y, 0, y, 0);
      RemainderKeepsDivisor(n, a, y * y);
    }
  }

  lemma RemainderKeepsDivisor(n: int, a: int, v: int)
    requires n > 0 && a > 0 && Divides(a, n) && Divides(a, v)
    ensures Divides(a, v % n)
  {
    DividesLinear(a, v, n, 1, -(v / n));
    assert 1 * v + -(v / n) * n == v % n;
  }

  /** A proper factor of `n` is itself a witness against `n`. */
  lemma FactorIsWitness(n: int, a: int)
    requires n > 2 && 1 < a < n && Divides(a, n)
    ensures !Passes(n, a)
  {
    var d, r := OddPart(n - 1), Twos(n - 1);
    forall i: nat
      ensures Squaring(a, d, i, n) != 1 && Squaring(a, d, i, n) != n - 1
    {
      var y := Squaring(a, d, i, n);
      MultipleStaysMultiple(n, a, d, i);
      DividesLinear(a, n, y, 1, -1);
      assert Divides(a, n - y) && !Divides(a, 1);
    }
  }

  lemma PrimesAreAccepted(p: int, rounds: nat)
    requires Prime(p)
    ensures ProbablePrime(p, rounds)
  {
    if p > 3 {
      assert !Divides(2, p);
      forall k | 0 <= k < BasesTried(rounds) && WITNESSES[k] < p
        ensures Passes(p, WITNESSES[k])
      {
        PrimePasses(p, WITNESSES[k]);
      }
    }
  }

  lemma PrimesUpTo37(p: int)
    requires Prime(p) && p <= 37
    ensures exists k :: 0 <= k < |WITNESSES| && WITNESSES[k] == p
  {
    assert (p == 2 || !Divides(2, p)) && (p == 3 || !Divides(3, p)) && (p == 5 || !Divides(5, p));
    assert p in [2, 3, 5, 7, 11, 13, 17, 19, 23, 29, 31, 37];
  }

  /** Twelve rounds reject every composite that has a prime factor up to 37. */
  lemma SmallFactorIsRejected(n: int, p: int, rounds: nat)
    requires Prime(p) && p <= 37 && p < n && Divides(p, n) && rounds >= |WITNESSES|
    ensures !ProbablePrime(n, rounds)
  {
    PrimesUpTo37(p);
    var k :| 0 <= k < |WITNESSES| && WITNESSES[k] == p;
    FactorIsWitness(n, p);
  }

  /** The test is exact below 41 * 41. */
  lemma ExactBelow1681(n: int, rounds: nat)
    requires n < 1681 && rounds >= |WITNESSES|
    ensures ProbablePrime(n, rounds) <==> Prime(n)
  {
    if Prime(n) {
      PrimesAreAccepted(n, rounds);
    } else if n >= 2 {
      var p := SmallestFactor(n);
      assert p >= 41 ==> p * p >= 41 * 41;
      BelowFortyOne(p);
      SmallFactorIsRejected(n, p, rounds);
    }
  }

  lemma BelowFortyOne(p: int)
    requires Prime(p) && p < 41
    ensures p <= 37
  {
    assert Divides(2, 38) && Divides(3, 39) && Divides(2, 40);
  }

  // --------------------------------------------------------------- isGoodPrime

  /** The number of digits of `n` written in base two. */
  function BinaryDigits(n: nat): (k: nat)
    ensures k >= 1
  {
    if n < 2 then 1 else 1 + BinaryDigits(n / 2)
  }

  /** The length of `n.toString(2)`, whose minus sign counts; zero for zero. */
  function BitLength(n: int): nat {
    if n == 0 then 0 else if n < 0 then 1 + BinaryDigits(-n) else BinaryDigits(n)
  }

  lemma {:induction false} BinaryDigitsBound(n: nat)
    requires n > 0
    ensures Pow(2, BinaryDigits(n) - 1) <= n < Pow(2, BinaryDigits(n))
  {
    if n >= 2 {
      BinaryDigitsBound(n / 2);
    } else {
      assert Pow(2, 1) == 2 * Pow(2, 0);
    }
  }

  lemma BitLengthMeans(n: int, k: nat)
    requires n > 0 && k > 0
    ensures BitLength(n) == k <==> Pow(2, k - 1) <= n < Pow(2, k)
  {
    BinaryDigitsBound(n);
    var d := BinaryDigits(n);
    if d < k { PowMonotone(2, d, k - 1); }
    if k < d { PowMonotone(2, k, d - 1); }
  }

  /** The residue of the prime that each generator asks for. */
  predicate ResidueFits(p: int, g: int) {
    match g
    case 2 => p % 8 == 7
    case 3 => p % 3 == 2
    case 4 => true
    case 5 => p % 5 == 1 || p % 5 == 4
    case 6 => p % 24 == 19 || p % 24 == 23
    case 7 => p % 7 == 3 || p % 7 == 5 || p % 7 == 6
    case _ => false
  }

  ghost predicate SafePrime(p: int) {
    Prime(p) && Prime((p - 1) / 2)
  }

  /** 2048 bits, the right residue, and the test passed by the number and its half. */
  ghost predicate PassesChecks(dhPrime: int, g: int) {
    && Pow(2, 2047) <= dhPrime < Pow(2, 2048) && ResidueFits(dhPrime, g)
    && ProbablePrime(dhPrime, 20) && ProbablePrime((dhPrime - 1) / 2, 20)
  }

  lemma SafePrimesPass(p: int, g: int)
    requires SafePrime(p) && Pow(2, 2047) <= p < Pow(2, 2048) && ResidueFits(p, g)
    ensures PassesChecks(p, g)
  {
    PrimesAreAccepted(p, 20);
    PrimesAreAccepted((p - 1) / 2, 20);
  }

  method IsGoodPrime(dhPrime: int, g: int) returns (good: bool)
    ensures (good <==> Pow(2, 2047) <= dhPrime < Pow(2, 2048) && ResidueFits(dhPrime, g)
                       && ProbablePrime(dhPrime, 20) && ProbablePrime((dhPrime - 1) / 2, 20))
    ensures SafePrime(dhPrime) && Pow(2, 2047) <= dhPrime < Pow(2, 2048) && ResidueFits(dhPrime, g) ==> good
  {
    PowPositive(2, 2047);
    if dhPrime > 0 { BitLengthMeans(dhPrime, 2048); }
    var bits := BitLength(dhPrime);
    if bits != 2048 { return false; }

    if SafePrime(dhPrime) && ResidueFits(dhPrime, g) { SafePrimesPass(dhPrime, g); }
    var primeOk := MillerRabin(dhPrime, 20);
    if !primeOk { return false; }

    var halfPrime := (dhPrime - 1) / 2;
    var halfOk := MillerRabin(halfPrime, 20);
    if !halfOk { return false; }

    if g < 2 { return false; }
    match g {
      case 2 => if dhPrime % 8 != 7 { return false; }
      case 3 => if dhPrime % 3 != 2 { return false; }
      case 4 =>
      case 5 => if dhPrime % 5 != 1 && dhPrime % 5 != 4 { return false; }
      case 6 => if dhPrime % 24 != 19 && dhPrime % 24 != 23 { return false; }
      case 7 => if dhPrime % 7 != 3 && dhPrime % 7 != 5 && dhPrime % 7 != 6 { return false; }
      case _ => return false;
    }
    return true;
  }

  lemma RemainderExponent(G: int, h: nat, q: nat, p: int)
    requires p > 1 && h > 0 && Pow(G, h) % p == 1 && Pow(G, q) % p == 1
    ensures Pow(G, q % h) % p == 1
  {
    hide Pow;
    var k, r := q / h, q % h;
    assert q == h * k + r;
    PowPow(G, h, k);
    PowMod(Pow(G, h), k, p);
    OnePow(k);
    PowAdd(G, h * k, r);
    DivModUnique(1, 0, 1, p);
    MulCongruent(Pow(G, h * k), 1, Pow(G, r), Pow(G, r), p);
  }

  /** Two coprime exponents cannot both send G to 1 unless G is 1; by Euclidean descent. */
  lemma {:induction false} CoprimeExponents(G: int, h: nat, q: int, p: int)
    requires p > 1 && Prime(q) && 0 < h < q
    requires Pow(G, h) % p == 1 && Pow(G, q) % p == 1
    ensures G % p == 1
    decreases h
  {
    if h == 1 {
      assert Pow(G, 1) == G * Pow(G, 0) == G;
    } else {
      assert !Divides(h, q);
      RemainderExponent(G, h, q, p);
      CoprimeExponents(G, q % h, q, p);
    }
  }

  lemma SquareKeepsOne(p: int, g: int, h: nat)
    requires p > 1 && Pow(g, h) % p == 1
    ensures Pow(Pow(g, 2), h) % p == 1
  {
    PowPow(g, 2, h);
    PowPow(g, h, 2);
    PowMod(Pow(g, h), 2, p);
    OnePow(2);
  }

  lemma SafePrimeHalf(p: int)
    requires SafePrime(p) && p > 5
    ensures p - 1 == 2 * ((p - 1) / 2)
  {
    assert !Divides(2, p);
  }

  lemma FermatForSquares(p: int, g: int)
    requires SafePrime(p) && p > 5 && 0 < g < p
    ensures Pow(Pow(g, 2), (p - 1) / 2) % p == 1
  {
    SafePrimeHalf(p);
    if Divides(p, g) { DividesLe(p, g); }
    Fermat(p, g);
    PowPow(g, 2, (p - 1) / 2);
  }

  /** Modulo a safe prime every g other than 1 and -1 has order at least (p-1)/2, so the
      parameters isGoodPrime accepts give a subgroup that large. */
  lemma GeneratedSubgroupIsLarge(p: int, g: int, h: nat)
    requires SafePrime(p) && p > 5 && 1 < g < p - 1 && 0 < h < (p - 1) / 2
    ensures Pow(g, h) % p != 1
  {
    if Pow(g, h) % p == 1 {
      SquareKeepsOne(p, g, h);
      FermatForSquares(p, g);
      CoprimeExponents(Pow(g, 2), h, (p - 1) / 2, p);
      assert Pow(g, 2) == g * Pow(g, 1) == g * g;
      SquareRootsOfOne(p, g);
    }
  }
}
