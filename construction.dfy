/** Constructors: `Range.__init__` (defaults and assertions) and `Permutation.__init__`
    (the Range assertions, then the prime and the seed derivation). */
module Construction {
  import opened Arith
  import opened Outcomes
  import opened Primes
  import opened Shuffle
  import opened Views

  /** `Range.__init__`: missing bounds default to start 0, stop size, step 1; the
      assertions 0 <= start <= stop and 0 < step become AssertionError. */
  function MakeRange(size: int, start: Option<int>, stop: Option<int>, step: Option<int>): (r: Result<View>)
    ensures var x, y, z := GetOr(start, 0), GetOr(stop, size), GetOr(step, 1);
      && (r.Ok? <==> 0 <= x <= y && 0 < z)
      && (r.Err? ==> r.error == AssertionError)
      && (r.Ok? ==> r.value.Valid() && r.value.resolver == Identity && r.value.size == size)
      && (r.Ok? ==> r.value.start == x && r.value.stop == y && r.value.step == z)
  {
    var x, y, z := GetOr(start, 0), GetOr(stop, size), GetOr(step, 1);
    if 0 <= x <= y && 0 < z then Ok(View(size, x, y, z, Identity)) else Err(AssertionError)
  }

  /** The parameters `Permutation.__init__` derives: p is the least prime >= size that is
      3 mod 4, and s is the first acceptable seed at or after the requested one. */
  ghost predicate Derived(size: int, seed: int, p: int, s: int) {
    && LeastPrime3Mod4(size, p)
    && SeedValid(size, p, s) && seed <= s
    && forall t :: seed <= t < s ==> !SeedValid(size, p, t)
  }

  /** `Permutation.__init__` as written. A negative size makes the primality test take the
      square root of a negative candidate (ValueError); when no seed is acceptable the
      source recurses until Python's recursion limit raises RecursionError, here
      SeedSearchDiverges. */
  method NewPermutationAsWritten(size: int, seed: int, start: Option<int>, stop: Option<int>, step: Option<int>)
    returns (r: Result<View>)
    ensures MakeRange(size, start, stop, step).Err? ==> r == Err(AssertionError)
    ensures MakeRange(size, start, stop, step).Ok? && size < 0 ==> r == Err(ValueError)
    ensures MakeRange(size, start, stop, step).Ok? && size >= 0 ==> r.Ok? || r == Err(SeedSearchDiverges)
    ensures forall p :: LeastPrime3Mod4(size, p) && MakeRange(size, start, stop, step).Ok? && size >= 0 ==>
      (r == Err(SeedSearchDiverges) <==> forall t :: !SeedValid(size, p, t))
    ensures r.Ok? ==> r.value.Valid() && r.value.resolver.Shuffled?
    ensures r.Ok? ==> r.value == MakeRange(size, start, stop, step).value.(resolver := r.value.resolver)
    ensures r.Ok? ==> Derived(size, seed, r.value.resolver.prime, r.value.resolver.seed)
  {
    var base := MakeRange(size, start, stop, step);
    if base.Err? {
      return Err(base.error);
    }
    if size < 0 {
      return Err(ValueError);
    }
    var p := GetPrime(size);
    var s := GetSeed(size, p, seed);
    forall q | LeastPrime3Mod4(size, q)
      ensures q == p
    {
      LeastPrimeUnique(size, p, q);
    }
    if s.None? {
      return Err(SeedSearchDiverges);
    }
    SeedValidSize(size, p, s.value);
    r := Ok(base.value.(resolver := Shuffled(p, s.value)));
  }

  /** Sizes 0 and 1 get the prime 3, and no seed is acceptable for them: the extra points
      of [size, 3) cannot all map below size. */
  lemma SmallSizesHaveNoSeed()
    ensures LeastPrime3Mod4(0, 3) && LeastPrime3Mod4(1, 3)
    ensures forall t :: !SeedValid(0, 3, t)
    ensures forall t :: !SeedValid(1, 3, t)
  {
    PrimeChoiceExamples();
    forall t
      ensures !SeedValid(0, 3, t) && !SeedValid(1, 3, t)
    {
      assert Map(3, t, 0) >= 0;
      MapSeedMod(3, t, 1);
      MapSeedMod(3, t, 2);
      var u := t % 3;
      if u == 0 {
        assert Map(3, 0, 1) == 1;
      } else if u == 1 {
        assert Map(3, 1, 1) == 2;
      } else {
        assert Map(3, 2, 2) == 1;
      }
    }
  }

  /** `Permutation.__init__` with the degenerate sizes handled: a domain of at most one
      index has only the identity permutation, so it keeps the identity resolver instead
      of searching for a seed that cannot exist. Larger sizes are as written. */
  method NewPermutation(size: int, seed: int, start: Option<int>, stop: Option<int>, step: Option<int>)
    returns (r: Result<View>)
    ensures MakeRange(size, start, stop, step).Err? ==> r == Err(AssertionError)
    ensures MakeRange(size, start, stop, step).Ok? && size < 0 ==> r == Err(ValueError)
    ensures MakeRange(size, start, stop, step).Ok? && 0 <= size <= 1 ==> r == MakeRange(size, start, stop, step)
    ensures MakeRange(size, start, stop, step).Ok? && size == 1 ==>
      r.Ok? && (r.value.Len() <= MaxSize ==> forall i :: 0 <= i < r.value.Len() ==> r.value.At(i) == Ok(0))
    ensures MakeRange(size, start, stop, step).Ok? && size >= 0 ==> r.Ok? || r == Err(SeedSearchDiverges)
    ensures size >= 2 && r.Ok? ==> r.value.resolver.Shuffled?
    ensures forall p :: LeastPrime3Mod4(size, p) && MakeRange(size, start, stop, step).Ok? && size >= 2 ==>
      (r == Err(SeedSearchDiverges) <==> forall t :: !SeedValid(size, p, t))
    ensures r.Ok? ==> r.value.Valid()
    ensures r.Ok? ==> r.value == MakeRange(size, start, stop, step).value.(resolver := r.value.resolver)
    ensures r.Ok? && r.value.resolver.Shuffled? ==>
      Derived(size, seed, r.value.resolver.prime, r.value.resolver.seed)
  {
    var base := MakeRange(size, start, stop, step);
    if base.Ok? && 0 <= size <= 1 {
      return base;
    }
    r := NewPermutationAsWritten(size, seed, start, stop, step);
  }
}
