/** The number theory that the Diffie-Hellman and factoring code relies on:
    remainders, powers, prime numbers, Euclid's lemma and Fermat's little theorem. */
module NumberTheory {

  // ---------------------------------------------------------------- remainders

  lemma DivModUnique(a: int, q: int, r: int, m: int)
    requires m > 0 && a == q * m + r && 0 <= r < m
    ensures a / m == q && a % m == r
  {
    var d := q - a / m;
    assert d * m == a % m - r;
    assert d >= 1 ==> d * m >= m;
    assert d <= -1 ==> d * m <= -m;
  }

  lemma AddMultiple(a: int, k: int, m: int)
    requires m > 0
    ensures (a + k * m) % m == a % m
  {
    assert a + k * m == (a / m + k) * m + a % m;
    DivModUnique(a + k * m, a / m + k, a % m, m);
  }

  lemma Expand(q: int, m: int, r: int, b: int)
    ensures (q * m + r) * b == r * b + (q * b) * m
  {}

  lemma ApartByMultiple(x: int, y: int, k: int, m: int)
    requires m > 0 && x == y + k * m
    ensures x % m == y % m
  {
    AddMultiple(y, k, m);
  }

  lemma MulMod(a: int, b: int, m: int)
    requires m > 0
    ensures (a * b) % m == ((a % m) * (b % m)) % m
    ensures (a * b) % m == ((a % m) * b) % m
  {
    var qa, ra := a / m, a % m;
    var qb, rb := b / m, b % m;
    Expand(qa, m, ra, b);
    ApartByMultiple(a * b, ra * b, qa * b, m);
    Expand(qb, m, rb, ra);
    ApartByMultiple(b * ra, rb * ra, qb * ra, m);
  }

  lemma MulCongruent(a: int, a': int, b: int, b': int, m: int)
    requires m > 0 && a % m == a' % m && b % m == b' % m
    ensures (a * b) % m == (a' * b') % m
  {
    MulMod(a, b, m);
    MulMod(a', b', m);
  }

  lemma RemainderTwice(a: int, m: int)
    requires m > 0
    ensures a % m % m == a % m
  {
    DivModUnique(a % m, 0, a % m, m);
  }

  /** `d` divides `n`. */
  predicate Divides(d: int, n: int)
    requires d > 0
  {
    n % d == 0
  }

  lemma DividesMultiple(d: int, k: int)
    requires d > 0
    ensures Divides(d, d * k) && Divides(d, k * d)
  {
    DivModUnique(d * k, k, 0, d);
  }

  lemma DividesLinear(d: int, a: int, b: int, x: int, y: int)
    requires d > 0 && Divides(d, a) && Divides(d, b)
    ensures Divides(d, x * a + y * b)
  {
    var i, j := a / d, b / d;
    assert x * a + y * b == (x * i + y * j) * d;
    DividesMultiple(d, x * i + y * j);
  }

  lemma DividesTransitive(d: int, e: int, n: int)
    requires d > 0 && e > 0 && Divides(d, e) && Divides(e, n)
    ensures Divides(d, n)
  {
    assert n == e * (n / e);
    DividesLinear(d, e, 0, n / e, 0);
    assert n / e * e + 0 * 0 == n;
  }

  lemma DividesLe(d: int, n: int)
    requires d > 0 && n > 0 && Divides(d, n)
    ensures d <= n
  {
    var q := n / d;
    assert n == d * q;
    assert q <= 0 ==> d * q <= 0;
    assert q >= 1 ==> d * q >= d;
  }

  lemma SameRemainder(a: int, b: int, m: int)
    requires m > 0
    ensures a % m == b % m <==> Divides(m, a - b)
  {
    if a % m == b % m {
      assert a - b == (a / m - b / m) * m;
      DividesMultiple(m, a / m - b / m);
    }
    if Divides(m, a - b) {
      assert a == b + (a - b) / m * m;
      AddMultiple(b, (a - b) / m, m);
    }
  }

  // -------------------------------------------------------------------- powers

  function Pow(b: int, e: nat): int {
    if e == 0 then 1 else b * Pow(b, e - 1)
  }

  lemma {:induction false} PowAdd(b: int, x: nat, y: nat)
    ensures Pow(b, x + y) == Pow(b, x) * Pow(b, y)
  {
    if x > 0 {
      PowAdd(b, x - 1, y);
      assert Pow(b, x + y) == b * Pow(b, x - 1 + y);
      assert b * (Pow(b, x - 1) * Pow(b, y)) == b * Pow(b, x - 1) * Pow(b, y);
    }
  }

  lemma {:induction false} PowPow(b: int, x: nat, y: nat)
    ensures x * y >= 0 && Pow(Pow(b, x), y) == Pow(b, x * y)
  {
    if y > 0 {
      PowPow(b, x, y - 1);
      assert x * y == x + x * (y - 1);
      PowAdd(b, x, x * (y - 1));
    }
  }

  lemma Swap4(a: int, b: int, c: int, d: int)
    ensures (a * b) * (c * d) == (a * c) * (b * d)
  {
    assert (a * b) * (c * d) == a * (b * c * d);
    assert (a * c) * (b * d) == a * (c * b * d);
    assert b * c == c * b;
  }

  lemma {:induction false} PowMul(a: int, b: int, e: nat)
    ensures Pow(a * b, e) == Pow(a, e) * Pow(b, e)
  {
    if e > 0 {
      PowMul(a, b, e - 1);
      Swap4(a, b, Pow(a, e - 1), Pow(b, e - 1));
    }
  }

  lemma {:induction false} PowMod(b: int, e: nat, m: int)
    requires m > 0
    ensures Pow(b, e) % m == Pow(b % m, e) % m
  {
    if e > 0 {
      PowMod(b, e - 1, m);
      RemainderTwice(b, m);
      MulCongruent(b, b % m, Pow(b, e - 1), Pow(b % m, e - 1), m);
    }
  }

  lemma {:induction false} PowPositive(b: int, e: nat)
    requires b >= 1
    ensures Pow(b, e) >= 1
  {
    if e > 0 { PowPositive(b, e - 1); assert b * Pow(b, e - 1) >= 1; }
  }

  lemma {:induction false} PowMonotone(b: int, x: nat, y: nat)
    requires b >= 1 && x <= y
    ensures Pow(b, x) <= Pow(b, y)
  {
    PowAdd(b, x, y - x);
    PowPositive(b, x);
    PowPositive(b, y - x);
    assert Pow(b, x) * 1 <= Pow(b, x) * Pow(b, y - x);
  }

  lemma {:induction false} OnePow(e: nat)
    ensures Pow(1, e) == 1
  {
    if e > 0 { OnePow(e - 1); }
  }

  // -------------------------------------------------------------------- primes

  ghost predicate Prime(p: int) {
    p >= 2 && forall d :: 2 <= d < p ==> !Divides(d, p)
  }

  lemma PrimeDivisors(p: int, d: int)
    requires Prime(p) && d > 0 && Divides(d, p)
    ensures d == 1 || d == p
  {
    DividesLe(d, p);
  }

  /** Euclid's lemma, by descent on the first factor. */
  lemma {:induction false} EuclidBelow(p: int, a: int, b: int)
    requires Prime(p) && 0 < a < p && Divides(p, a * b)
    ensures Divides(p, b)
    decreases a
  {
    if a == 1 {
      assert a * b == b;
    } else {
      var q, r := p / a, p % a;
      assert !Divides(a, p);
      assert r * b == b * p + (-q) * (a * b) by {
        assert r == p - q * a;
        assert (p - q * a) * b == p * b - q * a * b;
        assert q * a * b == q * (a * b);
      }
      DividesMultiple(p, 1);
      DividesLinear(p, p, a * b, b, -q);
      EuclidBelow(p, r, b);
    }
  }

  lemma Euclid(p: int, a: int, b: int)
    requires Prime(p) && Divides(p, a * b)
    ensures Divides(p, a) || Divides(p, b)
  {
    if !Divides(p, a) {
      var q, r := a / p, a % p;
      assert r * b == 1 * (a * b) + (-q * b) * p by {
        assert r == a - q * p;
        assert (a - q * p) * b == a * b - q * p * b;
        assert q * p * b == (q * b) * p;
        assert (-q * b) * p == -((q * b) * p);
      }
      DividesMultiple(p, 1);
      DividesLinear(p, a * b, p, 1, -q * b);
      EuclidBelow(p, r, b);
    }
  }

  /** The only square roots of one modulo a prime are 1 and -1. */
  lemma SquareRootsOfOne(p: int, x: int)
    requires Prime(p) && 0 <= x < p && (x * x) % p == 1
    ensures x == 1 || x == p - 1
  {
    assert 1 % p == 1;
    SameRemainder(x * x, 1, p);
    assert (x - 1) * (x + 1) == x * x - 1;
    Euclid(p, x - 1, x + 1);
    if Divides(p, x - 1) && x > 1 { DividesLe(p, x - 1); }
    if Divides(p, x + 1) { DividesLe(p, x + 1); }
    assert x == 0 ==> x * x == 0;
  }

  lemma SmallestIsAtMostRoot(n: int, p: int)
    requires 2 <= p < n && Divides(p, n) && forall d :: 2 <= d < p ==> !Divides(d, n)
    ensures p * p <= n
  {
    var q := n / p;
    assert n == p * q;
    assert q <= 0 ==> p * q <= 0;
    assert q == 1 ==> n == p;
    DividesMultiple(q, p);
    assert p * p <= p * q;
  }

  lemma SmallestFactor(n: int) returns (p: int)
    requires n >= 2
    ensures Prime(p) && Divides(p, n) && p <= n
    ensures forall d :: 2 <= d < p ==> !Divides(d, n)
    ensures !Prime(n) ==> p < n && p * p <= n
  {
    p := 2;
    while p < n && !Divides(p, n)
      invariant 2 <= p <= n
      invariant forall d :: 2 <= d < p ==> !Divides(d, n)
    {
      p := p + 1;
    }
    DividesMultiple(n, 1);
    forall d | 2 <= d < p
      ensures !Divides(d, p)
    {
      if Divides(d, p) { DividesTransitive(d, p, n); }
    }
    if p < n { SmallestIsAtMostRoot(n, p); }
  }

  // ------------------------------------------------------ pigeonhole and Fermat

  ghost predicate Distinct<T(!new)>(s: seq<T>) {
    forall i, j :: 0 <= i < j < |s| ==> s[i] != s[j]
  }

  ghost predicate Within(s: seq<int>, n: int) {
    forall i :: 0 <= i < |s| ==> 1 <= s[i] <= n
  }

  function Without<T>(s: seq<T>, i: nat): seq<T>
    requires i < |s|
  {
    s[..i] + s[i + 1..]
  }

  lemma WithoutKeeps(s: seq<int>, i: nat, n: int)
    requires i < |s| && Distinct(s) && Within(s, n) && s[i] == n
    ensures Distinct(Without(s, i)) && Within(Without(s, i), n - 1)
  {
    var t := Without(s, i);
    forall k | 0 <= k < |t|
      ensures t[k] == s[if k < i then k else k + 1]
    {}
  }

  /** Pigeonhole: distinct values in 1..n number at most n. */
  lemma {:induction false} Pigeonhole(s: seq<int>, n: nat)
    requires Distinct(s) && Within(s, n)
    ensures |s| <= n
  {
    if s != [] {
      assert 1 <= s[0] <= n;
      if i :| 0 <= i < |s| && s[i] == n {
        WithoutKeeps(s, i, n);
        Pigeonhole(Without(s, i), n - 1);
      } else {
        assert Within(s, n - 1);
        Pigeonhole(s, n - 1);
      }
    }
  }

  function Product(s: seq<int>): int {
    if s == [] then 1 else s[0] * Product(s[1..])
  }

  function Factorial(n: nat): int {
    if n == 0 then 1 else n * Factorial(n - 1)
  }

  lemma {:induction false} ProductWithout(s: seq<int>, i: nat)
    requires i < |s|
    ensures Product(s) == s[i] * Product(Without(s, i))
  {
    if i == 0 {
      assert Without(s, 0) == s[1..];
    } else {
      ProductWithout(s[1..], i - 1);
      var rest := Without(s[1..], i - 1);
      assert Without(s, i) == [s[0]] + rest;
      assert ([s[0]] + rest)[1..] == rest;
      assert s[0] * (s[i] * Product(rest)) == s[i] * (s[0] * Product(rest));
    }
  }

  /** A list of n distinct values in 1..n multiplies to n!. */
  lemma {:induction false} PermutationProduct(s: seq<int>, n: nat)
    requires |s| == n && Distinct(s) && Within(s, n)
    ensures Product(s) == Factorial(n)
  {
    if n > 0 {
      if i :| 0 <= i < |s| && s[i] == n {
        WithoutKeeps(s, i, n);
        ProductWithout(s, i);
        PermutationProduct(Without(s, i), n - 1);
      } else {
        assert Within(s, n - 1);
        Pigeonhole(s, n - 1);
      }
    }
  }

  /** a*1 mod p, a*2 mod p, ..., a*k mod p. */
  function Multiples(a: int, k: nat, p: int): (s: seq<int>)
    requires p > 0
    ensures |s| == k
  {
    seq(k, i requires 0 <= i < k => (a * (i + 1)) % p)
  }

  lemma MultipleNonZero(a: int, p: int, i: int)
    requires Prime(p) && !Divides(p, a) && 0 < i < p
    ensures 1 <= (a * i) % p <= p - 1
  {
    if Divides(p, a * i) {
      Euclid(p, a, i);
      DividesLe(p, i);
    }
  }

  lemma MultiplesAt(a: int, k: nat, p: int, i: nat)
    requires p > 0 && i < k
    ensures Multiples(a, k, p)[i] == (a * (i + 1)) % p
  {}

  lemma MultiplesDiffer(a: int, p: int, i: int, j: int)
    requires Prime(p) && !Divides(p, a) && 0 < i < j < p
    ensures (a * i) % p != (a * j) % p
  {
    hide Prime;
    SameRemainder(a * j, a * i, p);
    assert a * j - a * i == a * (j - i);
    MultipleNonZero(a, p, j - i);
  }

  lemma MultiplesArePermutation(a: int, p: int)
    requires Prime(p) && !Divides(p, a)
    ensures Distinct(Multiples(a, p - 1, p)) && Within(Multiples(a, p - 1, p), p - 1)
  {
    hide Multiples, Divides;
    assert p > 1;
    hide Prime;
    var s := Multiples(a, p - 1, p);
    forall i | 0 <= i < |s|
      ensures 1 <= s[i] <= p - 1
    {
      MultiplesAt(a, p - 1, p, i);
      MultipleNonZero(a, p, i + 1);
    }
    forall i, j | 0 <= i < j < |s|
      ensures s[i] != s[j]
    {
      MultiplesAt(a, p - 1, p, i);
      MultiplesAt(a, p - 1, p, j);
      MultiplesDiffer(a, p, i + 1, j + 1);
    }
  }

  lemma {:induction false} ProductSnoc(s: seq<int>, x: int)
    ensures Product(s + [x]) == Product(s) * x
  {
    if s == [] {
      assert [] + [x] == [x];
      assert Product([x]) == x * Product([]);
    } else {
      ProductSnoc(s[1..], x);
      assert (s + [x])[1..] == s[1..] + [x];
      assert s[0] * (Product(s[1..]) * x) == s[0] * Product(s[1..]) * x;
    }
  }

  lemma {:induction false} ProductOfMultiples(a: int, k: nat, p: int)
    requires p > 0
    ensures Product(Multiples(a, k, p)) % p == (Pow(a, k) * Factorial(k)) % p
  {
    if k > 0 {
      var s, x := Multiples(a, k - 1, p), (a * k) % p;
      assert Multiples(a, k, p) == s + [x];
      ProductSnoc(s, x);
      ProductOfMultiples(a, k - 1, p);
      var u, v := Product(s), Pow(a, k - 1) * Factorial(k - 1);
      RemainderTwice(a * k, p);
      MulCongruent(u, v, x, a * k, p);
      Swap4(Pow(a, k - 1), Factorial(k - 1), a, k);
      assert Pow(a, k) * Factorial(k) == v * (a * k);
    }
  }

  lemma {:induction false} PrimeDoesNotDivideFactorial(p: int, n: nat)
    requires Prime(p) && n < p
    ensures !Divides(p, Factorial(n))
  {
    if n == 0 {
      assert 1 % p == 1;
    } else {
      PrimeDoesNotDivideFactorial(p, n - 1);
      if Divides(p, Factorial(n)) {
        Euclid(p, n, Factorial(n - 1));
        DividesLe(p, n);
      }
    }
  }

  lemma CancelFactor(p: int, w: int, f: int)
    requires Prime(p) && !Divides(p, f) && (w * f) % p == f % p
    ensures w % p == 1
  {
    SameRemainder(w * f, f, p);
    assert (w - 1) * f == w * f - f;
    Euclid(p, w - 1, f);
    SameRemainder(w, 1, p);
  }

  /** Fermat's little theorem. */
  lemma Fermat(p: int, a: int)
    requires Prime(p) && !Divides(p, a)
    ensures Pow(a, p - 1) % p == 1
  {
    MultiplesArePermutation(a, p);
    PermutationProduct(Multiples(a, p - 1, p), p - 1);
    ProductOfMultiples(a, p - 1, p);
    PrimeDoesNotDivideFactorial(p, p - 1);
    CancelFactor(p, Pow(a, p - 1), Factorial(p - 1));
  }
}
