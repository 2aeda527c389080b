/** The immutable part of a `Range` or `Permutation`: the size of the domain, the window
    (start, stop, step) in absolute logical positions, and the resolution step applied to a
    position reduced modulo size (`_get`). */
module Views {
  import opened Arith
  import opened Outcomes
  import opened Primes
  import opened Shuffle

  /** `Range._get` is the identity; `Permutation._get` walks the map fixed by (prime, seed). */
  datatype Resolver = Identity | Shuffled(prime: int, seed: int) {

    ghost predicate Valid(size: int) {
      Shuffled? ==> Prime(prime) && 0 < size <= prime && SeedValid(size, prime, seed)
    }

    /** A shuffled resolver keeps every integer inside [0, size); the identity changes
        nothing. */
    function Get(size: int, x: int): (y: int)
      requires Valid(size)
      ensures Shuffled? ==> 0 <= y < size
      ensures Identity? ==> y == x
    {
      match this
      case Identity => x
      case Shuffled(p, s) => Walk(size, p, s, x)
    }
  }

  /** CPython's `sys.maxsize` on a 64-bit build: the built-in `len()` raises OverflowError
      when `__len__` returns a larger integer. */
  const MaxSize: int := 0x7FFF_FFFF_FFFF_FFFF

  function GetOr(o: Option<int>, default: int): int {
    if o.Some? then o.value else default
  }

  datatype View = View(size: int, start: int, stop: int, step: int, resolver: Resolver) {

    /** What the constructor asserts (0 <= start <= stop, 0 < step; stop may exceed size),
        and what the prime and seed derivation guarantees. */
    ghost predicate Valid() {
      0 <= start <= stop && 0 < step && resolver.Valid(size)
    }

    /** `__len__`: the number of positions start, start + step, ... below stop. */
    function Len(): (n: int)
      requires Valid()
      ensures n >= 0
      ensures n == 0 <==> start == stop
      ensures start < stop ==> (n - 1) * step < stop - start <= n * step
    {
      if start == stop then 0
      else
        var n := (stop - start - 1) / step + 1;
        assert stop - start - 1 == step * ((stop - start - 1) / step) + (stop - start - 1) % step;
        n
    }

    /** The resolved index of position i once the size is known to be non-zero. */
    function Lookup(i: int): int
      requires Valid() && size != 0
    {
      resolver.Get(size, PyMod(start + i * step, size))
    }

    /** `__getitem__` with an integer: IndexError for a negative i; `len(self)` is taken
        only then, so an overlong range gives OverflowError; IndexError at or past the
        length, a division by zero for size 0, else the resolved index of
        start + i * step reduced modulo size. */
    function At(i: int): (r: Result<int>)
      requires Valid()
      ensures i < 0 ==> r == Err(IndexError)
      ensures 0 <= i && Len() > MaxSize ==> r == Err(OverflowError)
      ensures Len() <= MaxSize && i >= Len() ==> r == Err(IndexError)
      ensures 0 <= i < Len() <= MaxSize && size == 0 ==> r == Err(ZeroDivisionError)
      ensures 0 <= i < Len() <= MaxSize && size != 0 ==> r.Ok?
      ensures r.Ok? && size > 0 ==> 0 <= r.value < size
      ensures r.Ok? && resolver.Identity? ==> (start + i * step - r.value) % size == 0
    {
      if i < 0 then Err(IndexError)
      else if Len() > MaxSize then Err(OverflowError)
      else if i >= Len() then Err(IndexError)
      else if size == 0 then Err(ZeroDivisionError)
      else Ok(Lookup(i))
    }

    /** `__getitem__` with a slice: missing bounds default to 0, len and 1; IndexError unless
        0 <= a <= len, a <= b <= len and 0 < c; otherwise a view of the same size and
        resolver whose window is translated into absolute positions. `len(self)` is taken
        for a missing b and, after the guard's short-circuit, once a >= 0 is known; an
        overlong range then gives OverflowError. */
    function Slice(a: Option<int>, b: Option<int>, c: Option<int>): (r: Result<View>)
      requires Valid()
      ensures var x, y, z := GetOr(a, 0), GetOr(b, Len()), GetOr(c, 1);
        && (r == Err(OverflowError) <==> Len() > MaxSize && (b.None? || 0 <= x))
        && (r.Ok? <==> Len() <= MaxSize && 0 <= x <= Len() && x <= y <= Len() && 0 < z)
        && (r.Err? ==> r.error == IndexError || r.error == OverflowError)
        && (r.Ok? ==> r.value.Valid() && r.value.size == size && r.value.resolver == resolver)
        && (r.Ok? ==> r.value.start == start + x * step && r.value.stop == start + y * step)
        && (r.Ok? ==> r.value.step == step * z)
    {
      var x, y, z := GetOr(a, 0), GetOr(b, Len()), GetOr(c, 1);
      if b.None? && Len() > MaxSize then Err(OverflowError)
      else if x < 0 then Err(IndexError)
      else if Len() > MaxSize then Err(OverflowError)
      else if !(x <= Len() && x <= y <= Len() && 0 < z) then Err(IndexError)
      else
        MulMonotone(x, y, step);
        Ok(View(size, start + x * step, start + y * step, step * z, resolver))
    }
  }

  /** The values one full traversal yields: the resolved index of every position in order
      (none for an empty window, whatever the size). */
  function Elements(v: View): (e: seq<int>)
    requires v.Valid() && (v.size != 0 || v.Len() == 0)
    ensures |e| == v.Len()
    ensures v.Len() <= MaxSize ==> forall i :: 0 <= i < |e| ==> v.At(i) == Ok(e[i])
  {
    if v.Len() == 0 then [] else seq(v.Len(), i => v.Lookup(i))
  }

  /** A slice holds ceil((b - a) / c) positions: none when a == b, otherwise the n with
      (n - 1) * c < b - a <= n * c; so it is never longer than the range it came from. */
  lemma SliceLen(v: View, a: int, b: int, c: int)
    requires v.Valid() && 0 <= a <= b <= v.Len() <= MaxSize && c > 0
    ensures v.Slice(Some(a), Some(b), Some(c)).Ok?
    ensures var n := v.Slice(Some(a), Some(b), Some(c)).value.Len();
      && (n == 0 <==> a == b)
      && (a < b ==> (n - 1) * c < b - a <= n * c)
      && n <= b - a
  {
    var w := v.Slice(Some(a), Some(b), Some(c)).value;
    if a < b {
      var n := w.Len();
      assert w.stop - w.start == (b - a) * v.step;
      assert (n - 1) * w.step == ((n - 1) * c) * v.step;
      assert n * w.step == (n * c) * v.step;
      MulStrict((n - 1) * c, b - a, v.step);
      MulCancelLe(b - a, n * c, v.step);
      StepsBound(n, c, b - a);
    }
  }

  /** Slices compose: position i of r[a:b:c] is position a + i * c of r. */
  lemma SliceAt(v: View, a: int, b: int, c: int, i: int)
    requires v.Valid() && 0 <= a <= b <= v.Len() <= MaxSize && c > 0
    requires 0 <= i < v.Slice(Some(a), Some(b), Some(c)).value.Len()
    ensures a + i * c < v.Len()
    ensures v.Slice(Some(a), Some(b), Some(c)).value.At(i) == v.At(a + i * c)
  {
    SliceLen(v, a, b, c);
    var w := v.Slice(Some(a), Some(b), Some(c)).value;
    var n := w.Len();
    MulMonotone(i, n - 1, c);
    MulMonotone(0, i, c);
    assert 0 <= a + i * c < v.Len();
    assert 0 <= i < w.Len();
    SliceOffset(v.start, v.step, a, c, i);
    assert w.start + i * w.step == v.start + (a + i * c) * v.step;
    if v.size != 0 {
      assert w.Lookup(i) == v.Lookup(a + i * c);
    }
  }

  /** r[:] has the length and the elements of r (when len(r) fits sys.maxsize; otherwise
      Slice gives OverflowError); r[a:a:1] is empty. */
  lemma SliceWhole(v: View)
    requires v.Valid() && v.Len() <= MaxSize
    ensures v.Slice(None, None, None).Ok?
    ensures v.Slice(None, None, None).value.Len() == v.Len()
    ensures forall i :: v.Slice(None, None, None).value.At(i) == v.At(i)
  {
    var w := v.Slice(None, None, None).value;
    assert w == v.Slice(Some(0), Some(v.Len()), Some(1)).value;
    SliceLen(v, 0, v.Len(), 1);
    forall i
      ensures w.At(i) == v.At(i)
    {
      if 0 <= i < v.Len() {
        SliceAt(v, 0, v.Len(), 1, i);
      }
    }
  }

  lemma SliceEmpty(v: View, a: int)
    requires v.Valid() && 0 <= a <= v.Len() <= MaxSize
    ensures v.Slice(Some(a), Some(a), Some(1)).Ok?
    ensures v.Slice(Some(a), Some(a), Some(1)).value.Len() == 0
  {
  }

  /** With the default bounds, position i is resolved from i itself. */
  lemma DefaultBoundsLookup(v: View, i: int)
    requires v.Valid() && v.start == 0 && v.stop == v.size && v.step == 1
    requires 0 <= i < v.size
    ensures v.Len() == v.size
    ensures v.Lookup(i) == v.resolver.Get(v.size, i)
  {
    assert (v.stop - v.start - 1) / v.step == v.size - 1;
    assert v.start + i * v.step == i;
    assert i % v.size == i;
  }

  /** A plain range over [0, size) with the default bounds yields 0, 1, ..., size - 1. */
  lemma PlainRangeElements(size: int)
    requires size >= 0
    ensures View(size, 0, size, 1, Identity).Valid()
    ensures Elements(View(size, 0, size, 1, Identity)) == seq(size, i => i)
  {
    var v := View(size, 0, size, 1, Identity);
    forall i | 0 <= i < size
      ensures Elements(v)[i] == i
    {
      DefaultBoundsLookup(v, i);
    }
  }

  /** The permutation promise, given that qpr is a bijection of [0, prime): over the default
      bounds, a shuffled view yields every index of [0, size) exactly once. */
  lemma ShuffleIsPermutation(v: View)
    requires v.Valid() && v.resolver.Shuffled?
    requires v.start == 0 && v.stop == v.size && v.step == 1
    requires QprInjective(v.resolver.prime)
    ensures |Elements(v)| == v.size
    ensures forall i, j :: 0 <= i < j < v.size ==> Elements(v)[i] != Elements(v)[j]
    ensures forall k :: 0 <= k < v.size <==> k in Elements(v)
  {
    var p, s := v.resolver.prime, v.resolver.seed;
    var e := Elements(v);
    DefaultBoundsLookup(v, 0);
    forall i | 0 <= i < v.size
      ensures e[i] == Walk(v.size, p, s, i)
    {
      DefaultBoundsLookup(v, i);
    }
    MapInjectiveFromQpr(p, s);
    forall i, j | 0 <= i < j < v.size
      ensures e[i] != e[j]
    {
      if e[i] == e[j] {
        WalkInjective(v.size, p, s, i, j);
      }
    }
    DistinctCover(e, v.size);
  }
}
