/** Integer facts shared by the encoder and the transformer: powers of two,
    cubes, and the Euclidean division lemmas that the base-s digit
    arithmetic needs. */
module Arith {

  /** 2^n. */
  function Pow2(n: nat): (p: nat)
    ensures p >= 1
  {
    if n == 0 then 1 else 2 * Pow2(n - 1)
  }

  lemma {:induction false} Pow2Monotone(m: nat, n: nat)
    requires m <= n
    ensures Pow2(m) <= Pow2(n)
  {
    if m < n {
      Pow2Monotone(m, n - 1);
    }
  }

  /** Pow2 is strictly increasing, read backwards. */
  lemma Pow2Below(k: nat, m: nat)
    requires Pow2(k) < Pow2(m)
    ensures k < m
  {
    if m <= k {
      Pow2Monotone(m, k);
    }
  }

  function Cube(s: int): int
  {
    s * s * s
  }

  lemma MulMonotone(a: int, b: int, c: int)
    requires 0 <= c && a <= b
    ensures a * c <= b * c
  {
    assert (b - a) * c >= 0;
  }

  lemma CubeMonotone(a: nat, b: nat)
    requires a <= b
    ensures Cube(a) <= Cube(b)
  {
    MulMonotone(a, b, a);
    MulMonotone(a, b, b);
    assert a * a <= b * b;
    MulMonotone(a * a, b * b, a);
    MulMonotone(a, b, b * b);
  }

  /** Euclidean division is determined by quotient and remainder. */
  lemma DivUnique(n: int, d: int, q: int, r: int)
    requires d > 0 && n == q * d + r && 0 <= r < d
    ensures n / d == q && n % d == r
  {
    var q', r' := n / d, n % d;
    assert n == q' * d + r';
    assert (q - q') * d == r' - r;
    if q > q' {
      MulMonotone(1, q - q', d);
    } else if q < q' {
      MulMonotone(1, q' - q, d);
    }
  }

  lemma DivShift(n: int, k: int, d: int)
    requires d > 0
    ensures (n + k * d) / d == n / d + k
    ensures (n + k * d) % d == n % d
  {
    assert n + k * d == (n / d + k) * d + n % d;
    DivUnique(n + k * d, d, n / d + k, n % d);
  }

  lemma DivDiv(n: int, a: int, b: int)
    requires a > 0 && b > 0
    ensures n / a / b == n / (a * b)
  {
    var q1, r1 := n / a, n % a;
    var q2, r2 := q1 / b, q1 % b;
    assert n == q2 * (a * b) + (r2 * a + r1) by {
      assert n == q1 * a + r1;
      assert q1 == q2 * b + r2;
      assert q1 * a == q2 * (a * b) + r2 * a;
    }
    MulMonotone(r2, b - 1, a);
    DivUnique(n, a * b, q2, r2 * a + r1);
  }

  /** The leading base-s digit of a number in [-s^3, s^3) lies in [-s, s). */
  lemma LeadingDigitBounds(num: int, s: int)
    requires s > 0 && -Cube(s) <= num < Cube(s)
    ensures -s <= num / (s * s) < s
  {
    var q, r := num / (s * s), num % (s * s);
    assert num == q * (s * s) + r;
    if q >= s {
      MulMonotone(s, q, s * s);
      assert false;
    }
    if q < -s {
      MulMonotone(q, -s - 1, s * s);
      assert false;
    }
  }

  /** Outside [-s^3, s^3) the leading digit num / s^2 is outside [-s, s). */
  lemma LeadingDigitOutside(num: int, s: int)
    requires s > 0 && !(-Cube(s) <= num < Cube(s))
    ensures !(-s <= num / (s * s) < s)
  {
    var ss := s * s;
    var q, r := num / ss, num % ss;
    assert num == q * ss + r && 0 <= r < ss;
    assert Cube(s) == s * ss;
    if num >= Cube(s) && q <= s - 1 {
      MulMonotone(q, s - 1, ss);
      assert false;
    }
    if num < -Cube(s) && q >= -s {
      MulMonotone(-s, q, ss);
      assert false;
    }
  }

  /** A number in [0, s^3) is the sum of its three base-s digits. */
  lemma DigitsRecompose(num: int, s: int)
    requires s > 0 && 0 <= num < Cube(s)
    ensures 0 <= num / (s * s) < s
    ensures num == (num / (s * s)) * (s * s) + ((num / s) % s) * s + num % s
  {
    LeadingDigitBounds(num, s);
    DivDiv(num, s, s);
    var q1, r1 := num / s, num % s;
    var q2, r2 := q1 / s, q1 % s;
    assert num == q1 * s + r1;
    assert q1 == q2 * s + r2;
    assert q1 * s == q2 * (s * s) + r2 * s by {
      assert q1 * s == (q2 * s + r2) * s;
    }
    assert num / (s * s) == q2;
  }

  /** Three base-s digits make a number below s^3. */
  lemma DigitsBound(d0: nat, d1: nat, d2: nat, s: nat)
    requires d0 < s && d1 < s && d2 < s
    ensures 0 <= d0 * (s * s) + d1 * s + d2 < Cube(s)
  {
    assert 0 <= d0 * (s * s) && 0 <= d1 * s;
    MulMonotone(d0, s - 1, s * s);
    MulMonotone(d1, s - 1, s);
    assert (s - 1) * (s * s) == s * (s * s) - s * s;
    assert (s - 1) * s == s * s - s;
  }
}
