/** The index map of `Permutation`: the quadratic-residue permutation `_permute_qpr`, its
    composition `_map`, the single cycle-walk step `_get`, and the seed search `_get_seed`. */
module Shuffle {
  import opened Arith
  import opened Outcomes
  import opened Primes

  /** `_permute_qpr`: x * x mod p on the lower half, reflected on the upper half.
      `pow(x, 2, p)` is written `(x * x) % p`. */
  function PermuteQpr(p: int, x: int): (r: int)
    requires p > 0
    ensures Prime(p) && 0 <= x < p ==> 0 <= r < p
  {
    SquareNotMultiple(p, x);
    var residue := (x * x) % p;
    if x * 2 < p then residue else p - residue
  }

  /** `_map`: qpr, then a shift by the seed modulo p, then qpr again. For a prime p it
      lands in [0, p) for every integer x and every seed. */
  function Map(p: int, seed: int, x: int): (r: int)
    requires p > 0
    ensures Prime(p) ==> 0 <= r < p
  {
    PermuteQpr(p, (PermuteQpr(p, x) + seed) % p)
  }

  /** `Permutation._get`: one application of the map, and a second one when the first
      lands outside [0, size). With an acceptable seed the result is in [0, size) for
      every integer x: the range guarantee behind cycle walking. */
  function Walk(size: int, p: int, seed: int, x: int): (r: int)
    requires p > 0
    ensures Prime(p) && SeedValid(size, p, seed) ==> 0 <= r < size
  {
    var y := Map(p, seed, x);
    if y < size then y else Map(p, seed, y)
  }

  /** The acceptance test of `_get_seed`: every extra point in [size, p) maps below size. */
  ghost predicate SeedValid(size: int, p: int, seed: int)
    requires p > 0
  {
    forall a :: size <= a < p ==> Map(p, seed, a) < size
  }

  ghost predicate QprInjective(p: int)
    requires p > 0
  {
    forall x, y :: 0 <= x < p && 0 <= y < p && PermuteQpr(p, x) == PermuteQpr(p, y) ==> x == y
  }

  ghost predicate MapInjective(p: int, seed: int)
    requires p > 0
  {
    forall x, y :: 0 <= x < p && 0 <= y < p && Map(p, seed, x) == Map(p, seed, y) ==> x == y
  }

  /** The map depends on the seed only modulo p. */
  lemma MapSeedMod(p: int, seed: int, x: int)
    requires p > 0
    ensures Map(p, seed, x) == Map(p, seed % p, x)
  {
    var a := PermuteQpr(p, x);
    assert seed == p * (seed / p) + seed % p;
    assert a + seed == p * (seed / p) + (a + seed % p);
    ShiftMod(p, seed / p, a + seed % p);
  }

  lemma SeedValidMod(size: int, p: int, seed: int)
    requires p > 0
    ensures SeedValid(size, p, seed) <==> SeedValid(size, p, seed % p)
  {
    forall a | size <= a < p
      ensures Map(p, seed, a) == Map(p, seed % p, a)
    {
      MapSeedMod(p, seed, a);
    }
  }

  /** An acceptable seed exists only for a positive size. */
  lemma SeedValidSize(size: int, p: int, seed: int)
    requires Prime(p) && SeedValid(size, p, seed)
    ensures size > 0
  {
    if size < p {
      assert Map(p, seed, p - 1) < size;
    }
  }

  lemma ShiftCancel(p: int, u: int, v: int, seed: int)
    requires p > 0 && 0 <= u < p && 0 <= v < p
    requires (u + seed) % p == (v + seed) % p
    ensures u == v
  {
    var q1, q2 := (u + seed) / p, (v + seed) / p;
    assert u + seed == p * q1 + (u + seed) % p;
    assert v + seed == p * q2 + (v + seed) % p;
    assert u - v == p * (q1 - q2);
    if q1 - q2 >= 1 {
      MulMonotone(1, q1 - q2, p);
    } else if q1 - q2 <= -1 {
      MulMonotone(q1 - q2, -1, p);
    }
  }

  /** If qpr is a bijection of [0, p), so is the map, for every seed. */
  lemma MapInjectiveFromQpr(p: int, seed: int)
    requires Prime(p) && QprInjective(p)
    ensures MapInjective(p, seed)
  {
    forall x, y | 0 <= x < p && 0 <= y < p && Map(p, seed, x) == Map(p, seed, y)
      ensures x == y
    {
      var u, v := (PermuteQpr(p, x) + seed) % p, (PermuteQpr(p, y) + seed) % p;
      assert PermuteQpr(p, u) == PermuteQpr(p, v);
      assert u == v;
      ShiftCancel(p, PermuteQpr(p, x), PermuteQpr(p, y), seed);
    }
  }

  /** Cycle walking keeps injectivity: if the map is injective on [0, p) and the seed is
      acceptable, `_get` is injective on [0, size). */
  lemma WalkInjective(size: int, p: int, seed: int, i: int, j: int)
    requires Prime(p) && size <= p && SeedValid(size, p, seed) && MapInjective(p, seed)
    requires 0 <= i < size && 0 <= j < size
    requires Walk(size, p, seed, i) == Walk(size, p, seed, j)
    ensures i == j
  {
    var yi, yj := Map(p, seed, i), Map(p, seed, j);
    if yi >= size && yj >= size {
      assert Map(p, seed, yi) == Map(p, seed, yj);
    }
  }

  /** The inner loop of `_get_seed`: reject the seed at the first extra point that maps
      at or above size. */
  method CheckSeed(size: int, p: int, seed: int) returns (ok: bool)
    requires p > 0
    ensures ok == SeedValid(size, p, seed)
  {
    var a := size;
    while a < p
      invariant a >= size
      invariant forall b :: size <= b < a ==> Map(p, seed, b) < size
    {
      if Map(p, seed, a) >= size {
        return false;
      }
      a := a + 1;
    }
    return true;
  }

  /** `_get_seed`: try seed, seed + 1, ... and return the first acceptable one. Since the
      map depends on the seed only modulo p, the search stops after p candidates; None
      means no integer seed is acceptable, where the source recurses until Python's
      recursion limit raises RecursionError. */
  method GetSeed(size: int, p: int, seed: int) returns (r: Option<int>)
    requires p > 0
    ensures r.Some? ==> SeedValid(size, p, r.value) && seed <= r.value
    ensures r.Some? ==> forall t :: seed <= t < r.value ==> !SeedValid(size, p, t)
    ensures r.None? <==> forall t :: !SeedValid(size, p, t)
  {
    var s := seed;
    while s < seed + p
      invariant seed <= s <= seed + p
      invariant forall t :: seed <= t < s ==> !SeedValid(size, p, t)
    {
      var ok := CheckSeed(size, p, s);
      if ok {
        return Some(s);
      }
      s := s + 1;
    }
    forall t
      ensures !SeedValid(size, p, t)
    {
      var u := seed + (t - seed) % p;
      assert t - seed == p * ((t - seed) / p) + (t - seed) % p;
      assert t == p * ((t - seed) / p) + u;
      ShiftMod(p, (t - seed) / p, u);
      SeedValidMod(size, p, t);
      SeedValidMod(size, p, u);
    }
    return None;
  }

  /** qpr is injective wherever it agrees with a table of distinct values. */
  lemma QprFromTable(p: int, t: seq<int>)
    requires p > 0 && |t| == p
    requires forall x :: 0 <= x < p ==> PermuteQpr(p, x) == t[x]
    requires forall x, y :: 0 <= x < y < p ==> t[x] != t[y]
    ensures QprInjective(p)
  {
    forall x, y | 0 <= x < p && 0 <= y < p && PermuteQpr(p, x) == PermuteQpr(p, y)
      ensures x == y
    {
      assert t[x] == t[y];
    }
  }

  /** Worked map values: qpr is a bijection of [0, p) for the primes 3, 7 and 11. */
  lemma QprThree()
    ensures QprInjective(3)
  {
    var t := [0, 1, 2];
    forall x | 0 <= x < 3
      ensures PermuteQpr(3, x) == t[x]
    {
      assert x == 0 || x == 1 || x == 2;
    }
    QprFromTable(3, t);
  }

  lemma QprSeven()
    ensures QprInjective(7)
  {
    var t := [0, 1, 4, 2, 5, 3, 6];
    forall x | 0 <= x < 7
      ensures PermuteQpr(7, x) == t[x]
    {
      assert x == 0 || x == 1 || x == 2 || x == 3 || x == 4 || x == 5 || x == 6;
    }
    QprFromTable(7, t);
  }

  lemma QprEleven()
    ensures QprInjective(11)
  {
    var t := [0, 1, 4, 9, 5, 3, 8, 6, 2, 7, 10];
    forall x | 0 <= x < 6
      ensures PermuteQpr(11, x) == t[x]
    {
      assert x == 0 || x == 1 || x == 2 || x == 3 || x == 4 || x == 5;
    }
    forall x | 6 <= x < 11
      ensures PermuteQpr(11, x) == t[x]
    {
      assert x == 6 || x == 7 || x == 8 || x == 9 || x == 10;
    }
    QprFromTable(11, t);
  }

  /** A permutation of size 10 uses the prime 11; seed 0 is rejected (the extra point 10
      maps to itself) and seed 1 is accepted. */
  lemma SeedSizeTen()
    ensures !SeedValid(10, 11, 0) && SeedValid(10, 11, 1)
  {
    assert Map(11, 0, 10) == 10;
    assert Map(11, 1, 10) == 0;
  }
}
