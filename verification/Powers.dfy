/** Powers of two and remainders: what 64-bit wrap-around leaves of a number. */
module Powers {

  const TWO64 := 0x1_0000_0000_0000_0000

  function Pow2(n: nat): (p: nat)
    ensures p > 0
  {
    if n == 0 then 1 else 2 * Pow2(n - 1)
  }

  /** A negative multiple of `m` is at most -m. */
  lemma {:induction false} NegativeMultiple(q: int, m: int)
    requires m > 0
    ensures q < 0 ==> q * m <= -m
    decreases if q < 0 then -q else 0
  {
    if q < -1 {
      NegativeMultiple(q + 1, m);
      assert q * m == (q + 1) * m - m;
    }
  }

  lemma QuotientIsNat(x: nat, m: nat)
    requires m > 0
    ensures x / m >= 0
  {
    assert x == x / m * m + x % m;
    NegativeMultiple(x / m, m);
  }

  lemma ModModDivides(x: int, m: int, k: int)
    requires m > 0 && k > 0
    ensures x % (k * m) % m == x % m
  {
    var q := x / (k * m);
    assert x == q * (k * m) + x % (k * m);
    assert q * (k * m) == (q * k) * m;
    ModAdd(x % (k * m), q * k, m);
  }

  lemma ModAdd(r: int, q: int, m: int)
    requires m > 0
    ensures (r + q * m) % m == r % m
  {
    var a := r / m;
    assert r + q * m == (a + q) * m + r % m;
    ModUnique(r + q * m, a + q, r % m, m);
  }

  lemma ModUnique(x: int, q: int, r: int, m: int)
    requires m > 0 && 0 <= r < m && x == q * m + r
    ensures x % m == r
  {
    var d := q - x / m;
    assert d * m == x % m - r;
    assert d > 0 ==> d * m >= m;
    assert d < 0 ==> d * m <= -m;
  }

  lemma {:induction false} PowAdd(a: nat, b: nat)
    ensures Pow2(a + b) == Pow2(a) * Pow2(b)
    decreases a
  {
    if a == 0 {
    } else {
      PowAdd(a - 1, b);
    }
  }

  /** Wrapping to a multiple of the size does not show in the index. */
  lemma WrapVanishes(x: nat, p: nat, k: nat, m: nat)
    requires k > 0 && m > 0
    ensures (x + p % (k * m)) % (k * m) % m == (x + p) % m
  {
    ModModDivides(x + p % (k * m), m, k);
    var q := p / (k * m);
    assert p == q * (k * m) + p % (k * m);
    assert q * (k * m) == (q * k) * m;
    ModAdd(x + p % (k * m), q * k, m);
  }

  lemma Pow64()
    ensures Pow2(64) == TWO64
  {
    assert Pow2(8) == 256;
    PowAdd(8, 8);
    PowAdd(16, 16);
    PowAdd(32, 32);
  }

  /** Bits k to k + m of a number: shifted and masked, or masked and shifted. */
  lemma Window(x: nat, k: nat, m: nat)
    ensures x / Pow2(k) % Pow2(m) == x % Pow2(k + m) / Pow2(k)
  {
    PowAdd(k, m);
    var a, b := Pow2(k), Pow2(m);
    WindowOf(x, a, b);
    assert a * b == b * a;
  }

  lemma WindowOf(x: nat, a: nat, b: nat)
    requires a > 0 && b > 0
    ensures a * b > 0 && x / a % b == x % (a * b) / a
  {
    assert a * b > 0;
    var q, s := x / (a * b), x % (a * b);
    var u, v := s / a, s % a;
    assert x == q * (a * b) + s && s == u * a + v;
    assert q * (a * b) == (q * b) * a;
    assert x == (q * b + u) * a + v;
    DivUnique(x, q * b + u, v, a);
    assert u >= b ==> u * a >= b * a;
    assert a * b == b * a;
    ModUnique(q * b + u, q, u, b);
  }

  lemma DivUnique(x: int, q: int, r: int, m: int)
    requires m > 0 && 0 <= r < m && x == q * m + r
    ensures x / m == q
  {
    ModUnique(x, q, r, m);
    assert (x / m - q) * m == 0;
  }

  /** Wrapping to 64 bits keeps the lowest n bits. */
  lemma LowBits(x: nat, n: nat)
    requires n <= 64
    ensures x % TWO64 % Pow2(n) == x % Pow2(n)
  {
    PowAdd(64 - n, n);
    Pow64();
    ModModDivides(x, Pow2(n), Pow2(64 - n));
  }
}
