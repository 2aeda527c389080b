/** Integer facts used by the index arithmetic and by the primality proofs. */
module Arith {

  /** Python's `a % m`: the remainder takes the sign of the divisor. */
  function PyMod(a: int, m: int): (r: int)
    requires m != 0
    ensures m > 0 ==> 0 <= r < m
    ensures m < 0 ==> m < r <= 0
    ensures (a - r) % m == 0
  {
    if m > 0 then
      assert a - a % m == m * (a / m);
      MultipleMod(m, a / m);
      a % m
    else
      var r := -((-a) % (-m));
      assert a - r == (-m) * (-((-a) / (-m)));
      MultipleMod(-m, -((-a) / (-m)));
      MultipleModNeg(-m, a - r);
      r
  }

  lemma MulMonotone(x: int, y: int, d: int)
    requires x <= y && d > 0
    ensures x * d <= y * d
  {
    assert y * d - x * d == (y - x) * d;
  }

  lemma MulStrict(x: int, y: int, d: int)
    requires x * d < y * d && d > 0
    ensures x < y
  {
    if x >= y {
      MulMonotone(y, x, d);
    }
  }

  lemma MultipleMod(q: int, k: int)
    requires q > 0
    ensures (q * k) % q == 0
  {
    var r := (q * k) % q;
    var t := (q * k) / q;
    assert q * k == q * t + r;
    assert r == q * (k - t);
    if k - t >= 1 {
      MulMonotone(1, k - t, q);
    } else if k - t <= -1 {
      MulMonotone(k - t, -1, q);
    }
  }

  lemma MultipleModNeg(q: int, a: int)
    requires q > 0 && a % q == 0
    ensures a % (-q) == 0
  {
    var t := a / q;
    assert a == q * t;
    assert a == (-q) * (-t);
    var r := a % (-q);
    var s := a / (-q);
    assert a == (-q) * s + r;
    assert r == q * (s + t);
    if s + t >= 1 {
      MulMonotone(1, s + t, q);
    } else if s + t <= -1 {
      MulMonotone(s + t, -1, q);
    }
  }

  /** Divisibility is transitive. */
  lemma DividesTrans(q: int, a: int, m: int)
    requires q > 0 && a > 0
    requires a % q == 0 && m % a == 0
    ensures m % q == 0
  {
    assert a == q * (a / q);
    assert m == a * (m / a);
    assert m == q * ((a / q) * (m / a));
    MultipleMod(q, (a / q) * (m / a));
  }

  /** A common divisor divides the difference. */
  lemma DividesSub(q: int, a: int, b: int)
    requires q > 0 && a % q == 0 && b % q == 0
    ensures (a - b) % q == 0
  {
    assert a == q * (a / q);
    assert b == q * (b / q);
    assert a - b == q * (a / q - b / q);
    MultipleMod(q, a / q - b / q);
  }

  /** An odd number has no even divisor. */
  lemma OddHasOddDivisors(m: int, k: int)
    requires m % 2 == 1 && k > 0 && m % k == 0
    ensures k % 2 == 1
  {
    if k % 2 == 0 {
      assert k == 2 * (k / 2);
      assert m == k * (m / k);
      assert m == 2 * ((k / 2) * (m / k));
      MultipleMod(2, (k / 2) * (m / k));
    }
  }

  /** Residues mod 4 multiply. */
  lemma Mod4Mul(k: int, j: int)
    ensures (k * j) % 4 == ((k % 4) * (j % 4)) % 4
  {
    var a, r := k / 4, k % 4;
    var b, s := j / 4, j % 4;
    assert k * j == 4 * (4 * a * b + a * s + b * r) + r * s;
    ShiftMod(4, 4 * a * b + a * s + b * r, r * s);
  }

  lemma ShiftMod(q: int, t: int, u: int)
    requires q > 0
    ensures (q * t + u) % q == u % q
  {
    var x := q * t + u;
    assert x == q * (x / q) + x % q;
    assert u == q * (u / q) + u % q;
    assert x % q - u % q == q * (t + u / q - x / q);
    var k := t + u / q - x / q;
    if k >= 1 {
      MulMonotone(1, k, q);
    } else if k <= -1 {
      MulMonotone(k, -1, q);
    }
  }

  /** n steps of a positive stride c that start below m number at most m. */
  lemma StepsBound(n: int, c: int, m: int)
    requires n >= 1 && c >= 1 && (n - 1) * c < m
    ensures n <= m
  {
    if n > 1 {
      MulMonotone(1, c, n - 1);
    }
  }

  lemma MulCancelLe(x: int, y: int, d: int)
    requires x * d <= y * d && d > 0
    ensures x <= y
  {
    if x > y {
      MulMonotone(y + 1, x, d);
    }
  }

  lemma {:induction false} DistinctCard(e: seq<int>)
    requires forall i, j :: 0 <= i < j < |e| ==> e[i] != e[j]
    ensures |set x | x in e| == |e|
  {
    if e != [] {
      var init := e[..|e| - 1];
      DistinctCard(init);
      assert (set x | x in e) == (set x | x in init) + {e[|e| - 1]};
      assert e[|e| - 1] !in init;
    }
  }

  /** The set {0, ..., n - 1}. */
  function Below(n: nat): (r: set<int>)
    ensures forall k :: k in r <==> 0 <= k < n
    ensures |r| == n
  {
    if n == 0 then {} else Below(n - 1) + {n - 1}
  }

  /** Pigeonhole: n distinct values drawn from [0, n) take every value of [0, n). */
  lemma DistinctCover(e: seq<int>, n: nat)
    requires |e| == n
    requires forall i, j :: 0 <= i < j < |e| ==> e[i] != e[j]
    requires forall i :: 0 <= i < |e| ==> 0 <= e[i] < n
    ensures forall k :: 0 <= k < n ==> k in e
  {
    var seen := set x | x in e;
    var full := Below(n);
    DistinctCard(e);
    assert seen <= full;
    assert full * seen == seen;
    assert |full - seen| == 0;
    forall k | 0 <= k < n
      ensures k in e
    {
      assert k in full;
    }
  }

  /** Translating a position of a slice into the parent's absolute coordinates. */
  lemma SliceOffset(start: int, step: int, a: int, c: int, i: int)
    ensures (start + a * step) + i * (step * c) == start + (a + i * c) * step
  {
    assert i * (step * c) == (i * c) * step;
    assert (a + i * c) * step == a * step + (i * c) * step;
  }
}
