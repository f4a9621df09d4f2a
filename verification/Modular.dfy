/** Facts about remainders and powers that hold for every modulus. */
module Modular {

  lemma Scaled(m: nat, k: int)
    requires m > 0
    ensures k >= 1 ==> m * k >= m
    ensures k <= -1 ==> m * k + m <= 0
  {
  }

  /** Quotient and remainder are unique. */
  lemma RemainderUnique(x: int, m: nat, q: int, r: nat)
    requires m > 0 && r < m && x == m * q + r
    ensures x % m == r
  {
    var q', r' := x / m, x % m;
    assert x == m * q' + r';
    assert m * (q - q') == r' - r;
    Scaled(m, q - q');
    assert q == q';
  }

  lemma DivMod(x: nat, m: nat) returns (q: nat, r: nat)
    requires m > 0
    ensures x == m * q + r && r == x % m && r < m
  {
    q, r := x / m, x % m;
  }

  /** Only the remainder of a factor matters. */
  lemma ReduceFactor(a: nat, b: nat, m: nat)
    requires m > 0
    ensures ((a % m) * b) % m == (a * b) % m
  {
    var q, r := DivMod(a, m);
    var q', r' := DivMod(r * b, m);
    assert a * b == m * (q * b + q') + r' by {
      assert a * b == (m * q + r) * b == m * q * b + r * b;
      assert m * q * b == m * (q * b);
      assert m * (q * b + q') == m * (q * b) + m * q';
    }
    RemainderUnique(a * b, m, q * b + q', r');
  }

  function Pow(x: nat, e: nat): nat {
    if e == 0 then 1 else x * Pow(x, e - 1)
  }

  lemma MulAssoc(x: nat, y: nat, z: nat)
    ensures x * (y * z) == (x * y) * z
  {
  }

  lemma {:induction false} PowAdd(x: nat, a: nat, b: nat)
    ensures Pow(x, a + b) == Pow(x, a) * Pow(x, b)
  {
    if a > 0 {
      PowAdd(x, a - 1, b);
      MulAssoc(x, Pow(x, a - 1), Pow(x, b));
    }
  }

  lemma {:induction false} PowPow(x: nat, a: nat, b: nat)
    ensures Pow(Pow(x, a), b) == Pow(x, a * b)
  {
    if b > 0 {
      PowPow(x, a, b - 1);
      assert a * b == a + a * (b - 1);
      PowAdd(x, a, a * (b - 1));
    } else {
      assert a * b == 0;
    }
  }

  /** Reducing the base first does not change a modular power. */
  lemma {:induction false} ReduceBase(x: nat, e: nat, m: nat)
    requires m > 0
    ensures Pow(x % m, e) % m == Pow(x, e) % m
  {
    if e > 0 {
      var y := x % m;
      ReduceBase(x, e - 1, m);
      ReduceFactor(x, Pow(y, e - 1), m);
      ReduceFactor(Pow(y, e - 1), x, m);
      ReduceFactor(Pow(x, e - 1), x, m);
      assert x * Pow(y, e - 1) == Pow(y, e - 1) * x && x * Pow(x, e - 1) == Pow(x, e - 1) * x;
    }
  }

  /** A power of a reduced power is the power by the product, so the order of the exponents does not matter. */
  lemma ModularPowPow(g: nat, a: nat, b: nat, m: nat)
    requires m > 0
    ensures Pow(Pow(g, a) % m, b) % m == Pow(g, a * b) % m
  {
    ReduceBase(Pow(g, a), b, m);
    PowPow(g, a, b);
  }
}
