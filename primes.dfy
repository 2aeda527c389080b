/** Trial-division primality (`_is_prime`) and the choice of the modulus
    (`Permutation._get_prime`): the least prime not below the size that is 3 mod 4. */
module Primes {
  import opened Arith

  /** n is prime: at least 2, and no number strictly between 1 and n divides it. */
  ghost predicate Prime(n: int) {
    n >= 2 && forall k :: 2 <= k < n ==> n % k != 0
  }

  /** p is the least prime >= size with p % 4 == 3. */
  ghost predicate LeastPrime3Mod4(size: int, p: int) {
    && p >= size && p % 4 == 3 && Prime(p)
    && forall q :: size <= q < p && q % 4 == 3 ==> !Prime(q)
  }

  /** A divisor k of n has a partner n / k; the smaller of the two is below every d
      with d * d > n. */
  lemma SmallDivisor(n: int, k: int, d: int) returns (m: int)
    requires 2 <= k < n && n % k == 0 && d >= 2 && d * d > n
    ensures 2 <= m < d && n % m == 0
  {
    var j := n / k;
    assert n == k * j;
    if j <= 1 {
      MulMonotone(j, 1, k);
    }
    assert n == j * k;
    MultipleMod(j, k);
    if k <= j {
      MulMonotone(k, j, k);
      m := k;
    } else {
      MulMonotone(j, k, j);
      m := j;
    }
    if m >= d {
      MulMonotone(d, m, d);
      MulMonotone(d, m, m);
    }
  }

  /** If no k in [2, d) divides n and d * d > n, then n is prime. */
  lemma NoSmallDivisorPrime(n: int, d: int)
    requires n >= 2 && d >= 2 && d * d > n
    requires forall k :: 2 <= k < d ==> n % k != 0
    ensures Prime(n)
  {
    forall k | 2 <= k < n
      ensures n % k != 0
    {
      if n % k == 0 {
        var m := SmallDivisor(n, k, d);
      }
    }
  }

  /** Euclid's lemma: a prime dividing a * b with 0 < a < p divides b. */
  lemma {:induction false} EuclidPrime(p: int, a: int, b: int)
    requires Prime(p) && 0 < a < p && (a * b) % p == 0
    ensures b % p == 0
    decreases a
  {
    if a > 1 {
      var r := p % a;
      var t := p / a;
      assert p == a * t + r;
      assert r != 0;
      var u := (a * b) / p;
      assert a * b == p * u;
      calc {
        r * b;
        (p - a * t) * b;
        p * b - t * (a * b);
        p * b - t * (p * u);
        p * (b - t * u);
      }
      MultipleMod(p, b - t * u);
      EuclidPrime(p, r, b);
    }
  }

  /** The square of a number strictly between 0 and a prime p is not a multiple of p. */
  lemma SquareNotMultiple(p: int, x: int)
    ensures Prime(p) && 0 < x < p ==> (x * x) % p != 0
  {
    if Prime(p) && 0 < x < p && (x * x) % p == 0 {
      EuclidPrime(p, x, x);
    }
  }

  function Fact(n: nat): (r: nat)
    ensures r >= 1
  {
    if n == 0 then 1 else n * Fact(n - 1)
  }

  lemma {:induction false} FactDivisible(n: nat, k: int)
    requires 1 <= k <= n
    ensures Fact(n) % k == 0
  {
    assert Fact(n) == n * Fact(n - 1);
    if k == n {
      MultipleMod(n, Fact(n - 1));
    } else {
      FactDivisible(n - 1, k);
      assert Fact(n) == Fact(n - 1) * n;
      MultipleMod(Fact(n - 1), n);
      DividesTrans(k, Fact(n - 1), Fact(n));
    }
  }

  /** A composite number splits into two factors, each at least 2 and below it. */
  lemma SplitComposite(m: int) returns (k: int, j: int)
    requires m >= 2 && !Prime(m)
    ensures 2 <= k < m && 2 <= j < m && m == k * j
    ensures m % k == 0 && m % j == 0
  {
    k :| 2 <= k < m && m % k == 0;
    j := m / k;
    assert m == k * j;
    if j <= 1 { MulMonotone(j, 1, k); }
    MulMonotone(2, k, j);
    assert m == j * k;
    MultipleMod(j, k);
  }

  lemma OddMod4(k: int)
    requires k % 2 == 1
    ensures k % 4 == 1 || k % 4 == 3
  {
    assert k == 2 * (2 * (k / 4)) + k % 4;
    ShiftMod(2, 2 * (k / 4), k % 4);
  }

  /** When an odd product is 3 mod 4, one of its factors is 3 mod 4. */
  lemma Factor3Mod4(m: int, k: int, j: int)
    requires m == k * j && m % 4 == 3 && k > 0 && j > 0
    ensures k % 4 == 3 || j % 4 == 3
  {
    assert m == 2 * (2 * (m / 4) + 1) + 1;
    ShiftMod(2, 2 * (m / 4) + 1, 1);
    MultipleMod(k, j);
    assert m == j * k;
    MultipleMod(j, k);
    OddHasOddDivisors(m, k);
    OddHasOddDivisors(m, j);
    OddMod4(k);
    OddMod4(j);
    Mod4Mul(k, j);
  }

  /** A number that is 3 mod 4 has a prime factor that is 3 mod 4. */
  lemma {:induction false} PrimeFactor3Mod4(m: int) returns (q: int)
    requires m >= 3 && m % 4 == 3
    ensures Prime(q) && q % 4 == 3 && m % q == 0
    decreases m
  {
    if Prime(m) {
      q := m;
      MultipleMod(m, 1);
    } else {
      var k, j := SplitComposite(m);
      Factor3Mod4(m, k, j);
      if k % 4 == 3 {
        q := PrimeFactor3Mod4(k);
        DividesTrans(q, k, m);
      } else {
        q := PrimeFactor3Mod4(j);
        DividesTrans(q, j, m);
      }
    }
  }

  /** There is a prime that is 3 mod 4 above every n: a prime factor of 4 * n! - 1
      that is 3 mod 4 cannot be at most n. */
  lemma PrimeAbove(n: nat) returns (q: int)
    ensures Prime(q) && q % 4 == 3 && q > n
  {
    var f := Fact(n);
    var m := 4 * f - 1;
    ShiftMod(4, f - 1, 3);
    assert m == 4 * (f - 1) + 3;
    q := PrimeFactor3Mod4(m);
    if q <= n {
      FactDivisible(n, q);
      MultipleMod(f, 4);
      assert 4 * f == f * 4;
      DividesTrans(q, f, 4 * f);
      DividesSub(q, 4 * f, m);
    }
  }

  /** `_is_prime` (for n >= 0): 2 is prime; 0, 1 and even numbers are not; an odd n is
      prime exactly when no odd d with d * d <= n divides it. The float bound floor(sqrt(n))
      of the source becomes the integer condition d * d <= n. */
  method IsPrime(n: int) returns (r: bool)
    requires n >= 0
    ensures r == Prime(n)
  {
    if n == 2 {
      return true;
    }
    if n == 1 || n % 2 == 0 {
      assert n >= 2 ==> n % 2 == 0;
      return false;
    }
    var d := 3;
    while d * d <= n
      invariant d >= 3 && d % 2 == 1
      invariant forall k :: 2 <= k < d ==> n % k != 0
    {
      if n % d == 0 {
        MulMonotone(1, d, d);
        return false;
      }
      assert n % (d + 1) != 0 by {
        if n % (d + 1) == 0 {
          OddHasOddDivisors(n, d + 1);
        }
      }
      d := d + 2;
    }
    NoSmallDivisorPrime(n, d);
    return true;
  }

  /** The first candidate of `_get_prime`: the least n >= size with n % 4 == 3. */
  function FirstCandidate(size: int): (n: int)
    ensures n >= size && n % 4 == 3
    ensures forall m :: size <= m < n ==> m % 4 != 3
  {
    size + (3 - size % 4)
  }

  lemma SameResidueGap(a: int, b: int)
    requires a < b && a % 4 == b % 4
    ensures a + 4 <= b
  {
    assert a == 4 * (a / 4) + a % 4;
    assert b == 4 * (b / 4) + b % 4;
  }

  /** Between two consecutive candidates no number is 3 mod 4. */
  lemma CandidateGap(n: int)
    requires n % 4 == 3
    ensures forall q :: n < q < n + 4 ==> q % 4 != 3
    ensures (n + 4) % 4 == 3
  {
    forall q | n < q < n + 4
      ensures q % 4 != 3
    {
      if q % 4 == 3 {
        SameResidueGap(n, q);
      }
    }
  }

  /** `Permutation._get_prime`: step through the candidates 4 apart until one is prime.
      Termination rests on PrimeAbove. */
  method GetPrime(size: int) returns (p: int)
    requires size >= 0
    ensures LeastPrime3Mod4(size, p)
  {
    var n := FirstCandidate(size);
    ghost var bound := PrimeAbove(size);
    assert n <= bound;
    var isPrime := IsPrime(n);
    while !isPrime
      invariant size <= n <= bound && n % 4 == 3 && bound % 4 == 3
      invariant isPrime == Prime(n)
      invariant forall q :: size <= q < n && q % 4 == 3 ==> !Prime(q)
      decreases bound - n
    {
      assert n != bound;
      SameResidueGap(n, bound);
      CandidateGap(n);
      n := n + 4;
      isPrime := IsPrime(n);
    }
    p := n;
  }

  /** The least such prime is unique. */
  lemma LeastPrimeUnique(size: int, p: int, q: int)
    requires LeastPrime3Mod4(size, p) && LeastPrime3Mod4(size, q)
    ensures p == q
  {
  }

  /** Worked choices: size 7 keeps 7, size 10 moves to 11, size 1 moves to 3. */
  lemma PrimeChoiceExamples()
    ensures LeastPrime3Mod4(7, 7)
    ensures LeastPrime3Mod4(10, 11)
    ensures LeastPrime3Mod4(1, 3)
    ensures LeastPrime3Mod4(0, 3)
  {
    NoSmallDivisorPrime(3, 2);
    NoSmallDivisorPrime(7, 3);
    NoSmallDivisorPrime(11, 4);
  }
}
