// Powers of two and the few nonlinear facts the coders rest on.
module Powers {

  function Pow2(n: nat): (p: nat)
    ensures p > 0
  {
    if n == 0 then 1 else 2 * Pow2(n - 1)
  }

  lemma {:induction false} Pow2Add(m: nat, n: nat)
    ensures Pow2(m + n) == Pow2(m) * Pow2(n)
  {
    if n > 0 {
      Pow2Add(m, n - 1);
      assert Pow2(m + n) == 2 * Pow2(m + (n - 1));
      assert Pow2(m) * Pow2(n) == 2 * (Pow2(m) * Pow2(n - 1));
    }
  }

  lemma {:induction false} Pow2Monotone(m: nat, n: nat)
    requires m <= n
    ensures Pow2(m) <= Pow2(n)
  {
    if m < n {
      Pow2Monotone(m, n - 1);
    }
  }

  lemma Pow2Values()
    ensures Pow2(0) == 1 && Pow2(1) == 2 && Pow2(2) == 4 && Pow2(3) == 8
    ensures Pow2(4) == 16 && Pow2(5) == 32 && Pow2(6) == 64 && Pow2(7) == 128
    ensures Pow2(8) == 0x100 && Pow2(11) == 0x800 && Pow2(15) == 0x8000 && Pow2(16) == 0x1_0000
    ensures Pow2(24) == 0x100_0000 && Pow2(19) == 0x8_0000 && Pow2(27) == 0x800_0000
  {
    assert Pow2(8) == 256;
    assert Pow2(11) == 2048;
    Pow2Add(8, 8);
    assert Pow2(15) * 2 == Pow2(16);
    Pow2Add(11, 8);
    Pow2Add(16, 8);
    Pow2Add(19, 8);
  }

  /** x * 2^n by repeated doubling. */
  function Shift(x: int, n: nat): int {
    if n == 0 then x else 2 * Shift(x, n - 1)
  }

  lemma {:induction false} ShiftIsProduct(x: int, n: nat)
    ensures Shift(x, n) == x * Pow2(n)
  {
    if n > 0 {
      ShiftIsProduct(x, n - 1);
      MulAssociate(x, 2, Pow2(n - 1));
    }
  }

  lemma Pow2Byte(k: nat)
    ensures Pow2(8 * (k + 1)) == 256 * Pow2(8 * k)
  {
    Pow2Add(8, 8 * k);
    Pow2Values();
  }

  lemma MulAssociate(x: int, y: int, z: int)
    ensures x * (y * z) == y * (x * z)
  {
  }

  lemma MulAssociateLeft(x: int, y: int, z: int)
    ensures (x * y) * z == x * (y * z)
  {
  }

  lemma MulAdd(x: int, y: int, z: int)
    ensures (x + y) * z == x * z + y * z
    ensures (x - y) * z == x * z - y * z
  {
  }

  lemma DivModUnique(x: int, m: int, q: int, r: int)
    requires x == q * m + r && 0 <= r < m
    ensures x / m == q && x % m == r
  {
    var q', r' := x / m, x % m;
    assert x == q' * m + r';
    if q' < q {
      MulMonotone(q' + 1, q, m);
      MulAdd(q', 1, m);
    } else if q < q' {
      MulMonotone(q + 1, q', m);
      MulAdd(q, 1, m);
    }
  }

  lemma MulMonotone(x: int, y: int, p: nat)
    requires x <= y
    ensures x * p <= y * p
  {
  }

  // Comparing q*p + r, where r is a remainder, with a multiple of p only looks at q.
  lemma CompareQuotient(q: int, r: int, p: nat, x: int)
    requires 0 <= r < p
    ensures q * p + r >= x * p <==> q >= x
  {
    if q >= x {
      MulMonotone(x, q, p);
    } else {
      MulMonotone(q + 1, x, p);
      assert (q + 1) * p == q * p + p;
    }
  }

  lemma QuotientAtLeast(c: int, d: nat, x: int)
    requires d > 0 && c >= x * d
    ensures c / d >= x
  {
    var q, r := c / d, c % d;
    assert c == q * d + r;
    CompareQuotient(q, r, d, x);
  }

  lemma DivDiv(x: nat, p: nat, q: nat)
    requires p > 0 && q > 0
    ensures p * q > 0 && x / p / q == x / (p * q)
  {
    MulMonotone(1, p, q);
    var y, r := x / p, x % p;
    var z, s := y / q, y % q;
    DivDivParts(x, p, q, y, r, z, s);
  }

  lemma DivDivParts(x: nat, p: nat, q: nat, y: nat, r: nat, z: nat, s: nat)
    requires p > 0 && q > 0 && x == y * p + r && r < p && y == z * q + s && s < q
    ensures p * q > 0 && x / (p * q) == z
  {
    MulAdd(z * q, s, p);
    MulAssociateLeft(z, q, p);
    MulMonotone(s + 1, q, p);
    MulAdd(s, 1, p);
    MulMonotone(1, p, q);
    DivModUnique(x, p * q, z, s * p + r);
  }
}
